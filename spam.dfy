/**
 * detectSpam (php/contact.php:155-176): a keyword check, a link count and a
 * "short message with a long digit run" check, tried in that order.
 */
module SpamFilter {
  import opened Strings
  import opened Sanitizer

  const SpamWords: seq<string> :=
    ["viagra", "casino", "loan", "mortgage", "pharmacy", "replica", "rolex"]

  /** $data[$key] inside a string operation: a missing key reads as null, which is "". */
  function Field(data: Fields, key: string): string {
    if key in data then data[key] else ""
  }

  /** strtolower($data['message'] . ' ' . $data['first_name'] . ' ' . $data['last_name']) */
  function SpamText(data: Fields): string {
    Lower(Field(data, "message") + " " + Field(data, "first_name") + " " + Field(data, "last_name"))
  }

  // ---------------------------------------------------------------------------
  // Rule 1: keywords (php/contact.php:156-163)
  // ---------------------------------------------------------------------------

  /** The foreach over the keywords with its early return: some strpos() succeeds. */
  function KeywordHit(text: string, words: seq<string>): (hit: bool)
    ensures hit <==> exists k :: 0 <= k < |words| && Contains(text, words[k])
  {
    if words == [] then false
    else
      StrposFindsSubstring(text, words[0]);
      if IndexOf(text, words[0], 0).Some? then
        assert Contains(text, words[0]);
        true
      else
        var rest := KeywordHit(text, words[1..]);
        assert forall k :: 1 <= k < |words| ==> words[k] == words[1..][k - 1];
        rest
  }

  // ---------------------------------------------------------------------------
  // Rule 2: links (php/contact.php:166-168)
  // ---------------------------------------------------------------------------

  /** "http://" starts at offset `i`. */
  predicate HttpAt(s: string, i: nat) {
    i + 7 <= |s| && s[i] == 'h' && s[i + 1] == 't' && s[i + 2] == 't' && s[i + 3] == 'p'
    && s[i + 4] == ':' && s[i + 5] == '/' && s[i + 6] == '/'
  }

  /** "https://" starts at offset `i`. */
  predicate HttpsAt(s: string, i: nat) {
    i + 8 <= |s| && s[i] == 'h' && s[i + 1] == 't' && s[i + 2] == 't' && s[i + 3] == 'p'
    && s[i + 4] == 's' && s[i + 5] == ':' && s[i + 6] == '/' && s[i + 7] == '/'
  }

  /** /http[s]?:\/\// matches at offset `i`. */
  predicate LinkAt(s: string, i: nat) {
    HttpAt(s, i) || HttpsAt(s, i)
  }

  /**
   * preg_match_all('/http[s]?:\/\//', $s) from offset `i`: after a match the
   * search resumes at the end of the match ("s?" is greedy), otherwise at the
   * next byte.
   */
  function CountLinkMatches(s: string, i: nat): nat
    decreases |s| - i
  {
    if i >= |s| then 0
    else if HttpsAt(s, i) then 1 + CountLinkMatches(s, i + 8)
    else if HttpAt(s, i) then 1 + CountLinkMatches(s, i + 7)
    else CountLinkMatches(s, i + 1)
  }

  /** The reference count: the number of offsets at or after `i` where a link starts. */
  function LinkStarts(s: string, i: nat): nat
    decreases |s| - i
  {
    if i >= |s| then 0 else (if LinkAt(s, i) then 1 else 0) + LinkStarts(s, i + 1)
  }

  /** Offsets with no link start do not change the count. */
  lemma {:induction false} LinkStartsSkip(s: string, i: nat, j: nat)
    requires i <= j <= |s|
    requires forall k :: i <= k < j ==> !LinkAt(s, k)
    ensures LinkStarts(s, i) == LinkStarts(s, j)
    decreases j - i
  {
    if i < j {
      LinkStartsSkip(s, i + 1, j);
    }
  }

  /** A link starts with 'h', and no 'h' occurs inside "ttp://" or "ttps://". */
  lemma NoLinkInsideMatch(s: string, i: nat, len: nat)
    requires (len == 8 && HttpsAt(s, i)) || (len == 7 && HttpAt(s, i))
    ensures forall k :: i < k < i + len ==> !LinkAt(s, k)
  {
    forall k | i < k < i + len
      ensures !LinkAt(s, k)
    {
      assert s[k] != 'h';
    }
  }

  /**
   * The matches preg_match_all counts never overlap, so its count is the
   * number of offsets where a link starts.
   */
  lemma {:induction false} LinkMatchesAreLinkStarts(s: string, i: nat)
    ensures CountLinkMatches(s, i) == LinkStarts(s, i)
    decreases |s| - i
  {
    if i < |s| {
      if HttpsAt(s, i) {
        NoLinkInsideMatch(s, i, 8);
        LinkStartsSkip(s, i + 1, i + 8);
        LinkMatchesAreLinkStarts(s, i + 8);
      } else if HttpAt(s, i) {
        NoLinkInsideMatch(s, i, 7);
        LinkStartsSkip(s, i + 1, i + 7);
        LinkMatchesAreLinkStarts(s, i + 7);
      } else {
        LinkMatchesAreLinkStarts(s, i + 1);
      }
    }
  }

  // ---------------------------------------------------------------------------
  // Rule 3: a run of ten digits (php/contact.php:171-173)
  // ---------------------------------------------------------------------------

  /**
   * preg_match('/[0-9]{10,}/', $s), as a left-to-right scan: `run` digits
   * have been seen just before `s`, and the scan succeeds once `need`
   * consecutive digits have been seen.
   */
  function HasDigitRun(s: string, need: nat, run: nat): bool
    decreases |s|
  {
    if run >= need then true
    else if s == [] then false
    else HasDigitRun(s[1..], need, if IsDigit(s[0]) then run + 1 else 0)
  }

  /** A successful scan has read at least `need` bytes (counting the run it started with). */
  lemma {:induction false} DigitRunNeedsLength(s: string, need: nat, run: nat)
    requires HasDigitRun(s, need, run)
    ensures run + |s| >= need
    decreases |s|
  {
    if run < need {
      DigitRunNeedsLength(s[1..], need, if IsDigit(s[0]) then run + 1 else 0);
    }
  }

  /** `n` digits start at offset `i`. */
  predicate DigitsAt(s: string, i: nat, n: nat) {
    i + n <= |s| && AllDigits(s[i..i + n])
  }

  /** `n` consecutive digits occur somewhere in `s`: the regular expression's meaning. */
  ghost predicate DigitWindow(s: string, n: nat) {
    exists i: nat :: DigitsAt(s, i, n)
  }

  lemma DigitWindowStep(s: string, n: nat)
    requires s != [] && n >= 1
    ensures DigitWindow(s, n) <==> (n <= |s| && AllDigits(s[..n])) || DigitWindow(s[1..], n)
  {
    if DigitWindow(s, n) {
      var i: nat :| DigitsAt(s, i, n);
      if i > 0 {
        assert s[1..][i - 1..i - 1 + n] == s[i..i + n];
        assert DigitsAt(s[1..], i - 1, n);
      }
    }
    if DigitWindow(s[1..], n) {
      var i: nat :| DigitsAt(s[1..], i, n);
      assert s[1..][i..i + n] == s[i + 1..i + 1 + n];
      assert DigitsAt(s, i + 1, n);
    }
    if n <= |s| && AllDigits(s[..n]) {
      assert s[..n] == s[0..0 + n];
      assert DigitsAt(s, 0, n);
    }
  }

  /**
   * Scanning with `run` digits already seen succeeds exactly when the next
   * `need - run` bytes complete the run, or `need` digits occur inside `s`.
   */
  lemma {:induction false} DigitRunFound(s: string, need: nat, run: nat)
    requires run < need
    ensures HasDigitRun(s, need, run) <==>
      (need - run <= |s| && AllDigits(s[..need - run])) || DigitWindow(s, need)
    decreases |s|
  {
    if s != [] {
      DigitWindowStep(s, need);
      if IsDigit(s[0]) {
        if run + 1 < need {
          DigitRunFound(s[1..], need, run + 1);
          if need - run <= |s| {
            assert s[1..][..need - run - 1] == s[1..need - run];
            assert AllDigits(s[..need - run]) <==> AllDigits(s[1..need - run]);
          }
          if need <= |s| && AllDigits(s[..need]) {
            assert s[..need - run] == s[..need][..need - run];
          }
        } else {
          assert s[..1] == [s[0]];
        }
      } else {
        DigitRunFound(s[1..], need, 0);
        if |s| > 1 {
          DigitWindowStep(s[1..], need);
        }
      }
    }
  }

  /** The scan from the start of the message is the regular expression /[0-9]{10,}/. */
  lemma DigitScanIsRegex(s: string)
    ensures HasDigitRun(s, 10, 0) <==> DigitWindow(s, 10)
  {
    DigitRunFound(s, 10, 0);
    if 10 <= |s| && AllDigits(s[..10]) {
      assert s[..10] == s[0..0 + 10];
      assert DigitsAt(s, 0, 10);
    }
  }

  // ---------------------------------------------------------------------------
  // detectSpam
  // ---------------------------------------------------------------------------

  /** detectSpam: the three rules in the source's order. */
  function DetectSpam(data: Fields): bool {
    var message := Field(data, "message");
    if KeywordHit(SpamText(data), SpamWords) then true
    else if CountLinkMatches(message, 0) > 2 then true
    else if |message| < 10 && HasDigitRun(message, 10, 0) then true
    else false
  }

  /**
   * The third rule can never fire: a message under ten bytes has no run of
   * ten digits. So detectSpam is "some keyword occurs, or more than two links
   * start in the message".
   */
  lemma SpamIsKeywordOrLinks(data: Fields)
    ensures DetectSpam(data) <==>
      (exists k :: 0 <= k < |SpamWords| && Contains(SpamText(data), SpamWords[k]))
      || LinkStarts(Field(data, "message"), 0) > 2
  {
    var message := Field(data, "message");
    LinkMatchesAreLinkStarts(message, 0);
    if |message| < 10 && HasDigitRun(message, 10, 0) {
      DigitRunNeedsLength(message, 10, 0);
    }
  }

  lemma NoSpaceInSpamWords(k: nat)
    requires k < |SpamWords|
    ensures forall i :: 0 <= i < |SpamWords[k]| ==> SpamWords[k][i] != ' '
  {
  }

  /**
   * Because no keyword contains a space, a keyword hit is a keyword inside
   * one of the three fields, after lower-casing; the spaces the source puts
   * between the fields cannot create a hit.
   */
  lemma KeywordInSomeField(data: Fields, k: nat)
    requires k < |SpamWords|
    ensures Contains(SpamText(data), SpamWords[k]) <==>
      || Contains(Lower(Field(data, "message")), SpamWords[k])
      || Contains(Lower(Field(data, "first_name")), SpamWords[k])
      || Contains(Lower(Field(data, "last_name")), SpamWords[k])
  {
    var m, f, l := Field(data, "message"), Field(data, "first_name"), Field(data, "last_name");
    var w := SpamWords[k];
    NoSpaceInSpamWords(k);
    LowerConcat(m + " " + f + " ", l);
    LowerConcat(m + " " + f, " ");
    LowerConcat(m + " ", f);
    LowerConcat(m, " ");
    assert Lower(" ") == " ";
    assert SpamText(data) == Lower(m) + [' '] + Lower(f) + [' '] + Lower(l);
    ContainsAcrossSeparator(Lower(m) + [' '] + Lower(f), ' ', Lower(l), w);
    ContainsAcrossSeparator(Lower(m), ' ', Lower(f), w);
  }

  /**
   * A keyword in the message, in any letter case, makes the submission spam
   * whatever the other fields hold.
   */
  lemma KeywordInMessageIsSpam(data: Fields, k: nat)
    requires k < |SpamWords|
    requires Contains(Lower(Field(data, "message")), SpamWords[k])
    ensures DetectSpam(data)
  {
    KeywordInSomeField(data, k);
    SpamIsKeywordOrLinks(data);
  }

  /**
   * A submission is not spam exactly when none of message, first name and
   * last name holds a keyword in any letter case, and at most two links
   * start in the message.
   */
  lemma NotSpamIff(data: Fields)
    ensures !DetectSpam(data) <==>
      && (forall k :: 0 <= k < |SpamWords| ==>
            && !Contains(Lower(Field(data, "message")), SpamWords[k])
            && !Contains(Lower(Field(data, "first_name")), SpamWords[k])
            && !Contains(Lower(Field(data, "last_name")), SpamWords[k]))
      && LinkStarts(Field(data, "message"), 0) <= 2
  {
    SpamIsKeywordOrLinks(data);
    forall k | 0 <= k < |SpamWords|
      ensures Contains(SpamText(data), SpamWords[k]) <==>
        || Contains(Lower(Field(data, "message")), SpamWords[k])
        || Contains(Lower(Field(data, "first_name")), SpamWords[k])
        || Contains(Lower(Field(data, "last_name")), SpamWords[k])
    {
      KeywordInSomeField(data, k);
    }
  }

  /** More than two links in the message make it spam; the keyword rule aside, two do not. */
  lemma LinkRuleThreshold(data: Fields)
    ensures LinkStarts(Field(data, "message"), 0) > 2 ==> DetectSpam(data)
    ensures LinkStarts(Field(data, "message"), 0) <= 2 && !KeywordHit(SpamText(data), SpamWords)
            ==> !DetectSpam(data)
  {
    SpamIsKeywordOrLinks(data);
  }
}
