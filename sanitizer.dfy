/**
 * sanitizeInput (php/contact.php:93-107): every string field of the request
 * is trimmed, HTML-escaped with ENT_QUOTES, then passed through
 * FILTER_SANITIZE_STRING. The keys are kept as they are.
 */
module Sanitizer {
  import opened Strings

  /** Request fields: field name -> field value (the request body, or its sanitized copy). */
  type Fields = map<string, string>

  // ---------------------------------------------------------------------------
  // htmlspecialchars($value, ENT_QUOTES, 'UTF-8')
  // ---------------------------------------------------------------------------

  /** The five bytes htmlspecialchars() rewrites under ENT_QUOTES. */
  predicate IsHtmlSpecial(c: char) {
    c == '&' || c == '"' || c == '\'' || c == '<' || c == '>'
  }

  /** The four of them that cannot appear in escaped text (an escaped text still has '&'). */
  predicate IsMarkup(c: char) {
    c == '"' || c == '\'' || c == '<' || c == '>'
  }

  predicate NoMarkup(s: string) {
    forall i :: 0 <= i < |s| ==> !IsMarkup(s[i])
  }

  /** The entity each special byte becomes (ENT_QUOTES writes the single quote as &#039;). */
  function EscapeChar(c: char): (r: string)
    ensures |r| >= 1 && NoMarkup(r)
    ensures !IsHtmlSpecial(c) <==> r == [c]
    ensures IsHtmlSpecial(c) ==> r[0] == '&' && r[|r| - 1] == ';'
    ensures forall i :: 0 <= i < |r| ==> r[i] as int < 0x80 || r == [c]
  {
    if c == '&' then "&amp;"
    else if c == '"' then "&quot;"
    else if c == '\'' then "&#039;"
    else if c == '<' then "&lt;"
    else if c == '>' then "&gt;"
    else [c]
  }

  /** Byte-by-byte escaping; existing entities are escaped again (double_encode defaults to true). */
  function EscapeAll(s: string): (r: string)
    ensures NoMarkup(r)
    ensures |r| >= |s|
  {
    if s == [] then [] else EscapeChar(s[0]) + EscapeAll(s[1..])
  }

  /**
   * htmlspecialchars(): well-formed UTF-8 comes back escaped, so that decoding
   * the entities gives the input again; anything else becomes the empty string.
   */
  function HtmlSpecialChars(s: string): (r: string)
    ensures NoMarkup(r)
    ensures ValidUtf8(s) ==> Unescape(r) == s
    ensures !ValidUtf8(s) ==> r == []
  {
    if ValidUtf8(s) then EscapeRoundTrip(s); EscapeAll(s) else []
  }

  lemma {:induction false} EscapeAllConcat(s: string, t: string)
    ensures EscapeAll(s + t) == EscapeAll(s) + EscapeAll(t)
    decreases |s|
  {
    if s == [] {
      assert s + t == t;
    } else {
      assert (s + t)[1..] == s[1..] + t;
      EscapeAllConcat(s[1..], t);
    }
  }

  /**
   * htmlspecialchars_decode($s, ENT_QUOTES) for the five entities: the
   * reference inverse of the escaping.
   */
  function Unescape(s: string): string
    decreases |s|
  {
    if s == [] then []
    else if |s| >= 5 && s[0] == '&' && s[1] == 'a' && s[2] == 'm' && s[3] == 'p' && s[4] == ';' then
      "&" + Unescape(s[5..])
    else if |s| >= 6 && s[0] == '&' && s[1] == 'q' && s[2] == 'u' && s[3] == 'o' && s[4] == 't' && s[5] == ';' then
      "\"" + Unescape(s[6..])
    else if |s| >= 6 && s[0] == '&' && s[1] == '#' && s[2] == '0' && s[3] == '3' && s[4] == '9' && s[5] == ';' then
      "'" + Unescape(s[6..])
    else if |s| >= 4 && s[0] == '&' && s[1] == 'l' && s[2] == 't' && s[3] == ';' then
      "<" + Unescape(s[4..])
    else if |s| >= 4 && s[0] == '&' && s[1] == 'g' && s[2] == 't' && s[3] == ';' then
      ">" + Unescape(s[4..])
    else [s[0]] + Unescape(s[1..])
  }

  lemma UnescapeEntity(c: char, rest: string)
    requires IsHtmlSpecial(c)
    ensures Unescape(EscapeChar(c) + rest) == [c] + Unescape(rest)
  {
    var e := EscapeChar(c);
    var s := e + rest;
    assert s[|e|..] == rest;
    assert forall i :: 0 <= i < |e| ==> s[i] == e[i];
  }

  lemma UnescapePlain(c: char, rest: string)
    requires !IsHtmlSpecial(c)
    ensures Unescape([c] + rest) == [c] + Unescape(rest)
  {
    var s := [c] + rest;
    assert s[0] == c && s[1..] == rest;
  }

  /** Decoding the escaped text gives back the text: escaping loses nothing. */
  lemma {:induction false} EscapeRoundTrip(s: string)
    ensures Unescape(EscapeAll(s)) == s
    decreases |s|
  {
    if s != [] {
      EscapeRoundTrip(s[1..]);
      if IsHtmlSpecial(s[0]) {
        UnescapeEntity(s[0], EscapeAll(s[1..]));
      } else {
        UnescapePlain(s[0], EscapeAll(s[1..]));
      }
      assert s == [s[0]] + s[1..];
    }
  }

  /** Text without special bytes is left as it is. */
  lemma {:induction false} EscapeAllPlain(s: string)
    requires forall i :: 0 <= i < |s| ==> !IsHtmlSpecial(s[i])
    ensures EscapeAll(s) == s
    decreases |s|
  {
    if s != [] {
      EscapeAllPlain(s[1..]);
      assert s == [s[0]] + s[1..];
    }
  }

  // ---------------------------------------------------------------------------
  // filter_var($value, FILTER_SANITIZE_STRING) on text that is already escaped
  // ---------------------------------------------------------------------------

  /**
   * FILTER_SANITIZE_STRING encodes quotes and strips tags; the tag stripper
   * also drops NUL bytes. On text without '<', '>', '"' or '\'' (which is
   * what htmlspecialchars leaves) the only effect left is removing NUL bytes.
   */
  function FilterSanitizeString(s: string): (r: string)
    requires NoMarkup(s)
    ensures NoMarkup(r) && |r| <= |s|
    ensures forall i :: 0 <= i < |r| ==> r[i] != '\0'
  {
    if s == [] then []
    else if s[0] == '\0' then FilterSanitizeString(s[1..])
    else [s[0]] + FilterSanitizeString(s[1..])
  }

  lemma {:induction false} FilterConcat(s: string, t: string)
    requires NoMarkup(s) && NoMarkup(t)
    ensures NoMarkup(s + t)
    ensures FilterSanitizeString(s + t) == FilterSanitizeString(s) + FilterSanitizeString(t)
    decreases |s|
  {
    if s == [] {
      assert s + t == t;
    } else {
      assert (s + t)[1..] == s[1..] + t;
      FilterConcat(s[1..], t);
    }
  }

  /** Text without NUL bytes passes the filter unchanged. */
  lemma {:induction false} FilterPlain(s: string)
    requires NoMarkup(s) && forall i :: 0 <= i < |s| ==> s[i] != '\0'
    ensures FilterSanitizeString(s) == s
    decreases |s|
  {
    if s != [] {
      FilterPlain(s[1..]);
      assert s == [s[0]] + s[1..];
    }
  }

  /** A NUL byte is dropped, not replaced: removing it beforehand changes nothing. */
  lemma FilterDropsNul(s: string, t: string)
    requires NoMarkup(s) && NoMarkup(t)
    ensures NoMarkup(s + "\0" + t)
    ensures FilterSanitizeString(s + "\0" + t) == FilterSanitizeString(s + t)
  {
    FilterConcat("\0", t);
    FilterConcat(s, "\0" + t);
    FilterConcat(s, t);
    assert s + "\0" + t == s + ("\0" + t);
  }

  /** The filter keeps the leading UTF-8 sequence of a text well-formed. */
  lemma FilterKeepsUtf8Head(s: string)
    requires NoMarkup(s) && ValidUtf8(s) && s != []
    ensures var n := Utf8SequenceLength(s);
            0 < n && NoMarkup(s[..n]) && ValidUtf8(FilterSanitizeString(s[..n]))
  {
    var n := Utf8SequenceLength(s);
    Utf8HeadSplit(s);
    var head := FilterSanitizeString(s[..n]);
    if n == 1 {
      assert s[..n] == [s[0]] && s[..n][1..] == [];
      assert head == [] || head == [s[0]];
      AsciiIsValidUtf8(head);
    } else {
      FilterPlain(s[..n]);
    }
  }

  /** Removing single-byte NULs keeps a text well-formed. */
  lemma {:induction false} FilterKeepsUtf8(s: string)
    requires NoMarkup(s) && ValidUtf8(s)
    ensures ValidUtf8(FilterSanitizeString(s))
    decreases |s|
  {
    if s != [] {
      var n := Utf8SequenceLength(s);
      var head, tail := s[..n], s[n..];
      Utf8HeadSplit(s);
      FilterKeepsUtf8Head(s);
      assert NoMarkup(tail) by {
        forall i | 0 <= i < |tail| ensures !IsMarkup(tail[i]) {
          assert tail[i] == s[n + i];
        }
      }
      assert s == head + tail;
      FilterConcat(head, tail);
      FilterKeepsUtf8(tail);
      ValidUtf8Concat(FilterSanitizeString(head), FilterSanitizeString(tail));
    }
  }

  /** Escaping keeps a well-formed text well-formed. */
  lemma {:induction false} EscapeKeepsUtf8(s: string)
    requires ValidUtf8(s)
    ensures ValidUtf8(EscapeAll(s))
    decreases |s|
  {
    if s != [] {
      var n := Utf8SequenceLength(s);
      Utf8HeadSplit(s);
      assert s == s[..n] + s[n..];
      EscapeAllConcat(s[..n], s[n..]);
      EscapeKeepsUtf8(s[n..]);
      var head := EscapeAll(s[..n]);
      if n == 1 {
        assert s[..n] == [s[0]] + [];
        assert head == EscapeChar(s[0]);
        AsciiIsValidUtf8(head);
      } else {
        EscapeAllPlain(s[..n]);
      }
      ValidUtf8Concat(head, EscapeAll(s[n..]));
    }
  }

  // ---------------------------------------------------------------------------
  // The per-field pipeline and sanitizeInput
  // ---------------------------------------------------------------------------

  /** What sanitizeInput stores for one string value (php/contact.php:99-101). */
  function SanitizeString(s: string): string {
    FilterSanitizeString(HtmlSpecialChars(Trim(s)))
  }

  /** A sanitized value has no markup bytes left and no NUL bytes. */
  lemma SanitizedHasNoMarkup(s: string)
    ensures NoMarkup(SanitizeString(s))
    ensures forall i :: 0 <= i < |SanitizeString(s)| ==> SanitizeString(s)[i] != '\0'
  {
  }

  /** A sanitized value is well-formed UTF-8, so json_encode() accepts it. */
  lemma SanitizedIsValidUtf8(s: string)
    ensures ValidUtf8(SanitizeString(s))
  {
    var t := Trim(s);
    if ValidUtf8(t) {
      EscapeKeepsUtf8(t);
      FilterKeepsUtf8(EscapeAll(t));
    }
  }

  lemma EscapeAllEnds(t: string)
    requires t != []
    ensures var e := EscapeAll(t);
            e != [] && e[0] == EscapeChar(t[0])[0]
            && e[|e| - 1] == EscapeChar(t[|t| - 1])[|EscapeChar(t[|t| - 1])| - 1]
  {
    var n := |t|;
    assert t[..n - 1] + [t[n - 1]] == t;
    EscapeAllConcat(t[..n - 1], [t[n - 1]]);
    assert EscapeAll([t[n - 1]]) == EscapeChar(t[n - 1]) + EscapeAll([]);
  }

  lemma FilterEnds(s: string)
    requires NoMarkup(s) && s != [] && s[0] != '\0' && s[|s| - 1] != '\0'
    ensures var r := FilterSanitizeString(s);
            r != [] && r[0] == s[0] && r[|r| - 1] == s[|s| - 1]
  {
    var n := |s|;
    assert s == s[..n - 1] + [s[n - 1]];
    FilterConcat(s[..n - 1], [s[n - 1]]);
    assert FilterSanitizeString([s[n - 1]]) == [s[n - 1]] + FilterSanitizeString([]);
  }

  /** The first and last bytes of an escaped byte are kept by trim() and by the filter when the byte itself is. */
  lemma EscapedEndsKept(c: char)
    requires !IsTrimSpace(c)
    ensures var r := EscapeChar(c);
            && !IsTrimSpace(r[0]) && !IsTrimSpace(r[|r| - 1])
            && r[0] != '\0' && r[|r| - 1] != '\0'
  {
    if !IsHtmlSpecial(c) {
      assert EscapeChar(c) == [c];
    }
  }

  /** A sanitized value starts and ends with a byte that trim() would keep. */
  lemma SanitizedIsTrimmed(s: string)
    ensures var r := SanitizeString(s);
            r == [] || (!IsTrimSpace(r[0]) && !IsTrimSpace(r[|r| - 1]))
  {
    var t := Trim(s);
    if ValidUtf8(t) && t != [] {
      assert SanitizeString(s) == FilterSanitizeString(EscapeAll(t));
      EscapedFilteredEnds(t);
    }
  }

  /** Escaping then filtering a text whose ends trim() keeps gives a text whose ends trim() keeps. */
  lemma EscapedFilteredEnds(t: string)
    requires t != [] && !IsTrimSpace(t[0]) && !IsTrimSpace(t[|t| - 1])
    ensures var r := FilterSanitizeString(EscapeAll(t));
            r != [] && !IsTrimSpace(r[0]) && !IsTrimSpace(r[|r| - 1])
  {
    var e := EscapeAll(t);
    EscapeAllEnds(t);
    EscapedEndsKept(t[0]);
    EscapedEndsKept(t[|t| - 1]);
    FilterEnds(e);
  }

  /** The sanitized copy of a request: the same keys, each value sanitized. */
  function Sanitized(input: Fields): (data: Fields)
    ensures data.Keys == input.Keys
    ensures forall k :: k in input ==> data[k] == SanitizeString(input[k])
  {
    map k | k in input :: SanitizeString(input[k])
  }

  /** Sanitized is the only map with the request's keys and the sanitized values. */
  lemma SanitizedIsUnique(input: Fields, m: Fields)
    requires m.Keys == input.Keys
    requires forall k :: k in input ==> m[k] == SanitizeString(input[k])
    ensures m == Sanitized(input)
  {
    SameFields(m, Sanitized(input));
  }

  /** Two field maps with the same keys and the same value at every key are equal. */
  lemma SameFields(m: Fields, n: Fields)
    requires m.Keys == n.Keys
    requires forall k :: k in m ==> m[k] == n[k]
    ensures m == n
  {
  }

  /**
   * sanitizeInput: builds the sanitized copy one field at a time. The result
   * has exactly the request's keys, and each value is the sanitized one.
   */
  method SanitizeInput(input: Fields) returns (sanitized: Fields)
    ensures sanitized.Keys == input.Keys
    ensures forall k :: k in input ==> sanitized[k] == SanitizeString(input[k])
    ensures sanitized == Sanitized(input)
  {
    sanitized := map[];
    var pending := input.Keys;
    while pending != {}
      invariant pending <= input.Keys
      invariant sanitized.Keys == input.Keys - pending
      invariant forall k :: k in sanitized ==> sanitized[k] == SanitizeString(input[k])
      decreases pending
    {
      var key :| key in pending;
      var value := input[key];
      value := Trim(value);
      value := HtmlSpecialChars(value);
      value := FilterSanitizeString(value);
      sanitized := sanitized[key := value];
      pending := pending - {key};
    }
    SanitizedIsUnique(input, sanitized);
  }
}
