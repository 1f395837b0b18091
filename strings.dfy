/**
 * The parts of PHP's string library that the contact-form handler relies on.
 *
 * A PHP string is a sequence of bytes. Here it is a Dafny `string` in which
 * every character stands for one byte, so `|s|` is PHP's `strlen($s)`.
 * Nothing bounds a character to 0..255: one above 0xFF stands for no byte,
 * and the UTF-8 check below treats it as ill-formed, so htmlspecialchars
 * turns any text holding one into "".
 */
module Strings {

  datatype Option<T> = None | Some(value: T)

  // ---------------------------------------------------------------------------
  // trim()
  // ---------------------------------------------------------------------------

  /** The bytes PHP's trim() removes by default: " \t\n\r\0\x0B". */
  predicate IsTrimSpace(c: char) {
    c == ' ' || c == '\t' || c == '\n' || c == '\r' || c == '\0' || c == '\U{B}'
  }

  /** ltrim(): the longest suffix of `s` that does not start with a trim byte. */
  function TrimLeft(s: string): (r: string)
    ensures |r| <= |s| && r == s[|s| - |r|..]
    ensures forall i :: 0 <= i < |s| - |r| ==> IsTrimSpace(s[i])
    ensures r == [] || !IsTrimSpace(r[0])
  {
    if s != [] && IsTrimSpace(s[0]) then TrimLeft(s[1..]) else s
  }

  /** rtrim(): the longest prefix of `s` that does not end with a trim byte. */
  function TrimRight(s: string): (r: string)
    ensures |r| <= |s| && r == s[..|r|]
    ensures forall i :: |r| <= i < |s| ==> IsTrimSpace(s[i])
    ensures r == [] || !IsTrimSpace(r[|r| - 1])
  {
    if s != [] && IsTrimSpace(s[|s| - 1]) then TrimRight(s[..|s| - 1]) else s
  }

  /**
   * trim(): both ends stripped. The result is the piece of `s` that starts
   * after its leading trim bytes; only trim bytes lie before and after it.
   */
  function Trim(s: string): (r: string)
    ensures Contains(s, r)
    ensures r == [] || (!IsTrimSpace(r[0]) && !IsTrimSpace(r[|r| - 1]))
    ensures var a := |s| - |TrimLeft(s)|;
            && a + |r| <= |s| && r == s[a..a + |r|]
            && (forall i :: 0 <= i < a ==> IsTrimSpace(s[i]))
            && (forall i :: a + |r| <= i < |s| ==> IsTrimSpace(s[i]))
  {
    var l := TrimLeft(s);
    var r := TrimRight(l);
    PieceLayout(s, l, r);
    r
  }

  /**
   * The piece trim() keeps, and the trim bytes on either side of it, from
   * what ltrim() and rtrim() promise.
   */
  lemma PieceLayout(s: string, l: string, r: string)
    requires |l| <= |s| && l == s[|s| - |l|..]
    requires forall i :: 0 <= i < |s| - |l| ==> IsTrimSpace(s[i])
    requires |r| <= |l| && r == l[..|r|]
    requires forall j :: |r| <= j < |l| ==> IsTrimSpace(l[j])
    ensures var a := |s| - |l|;
            && a + |r| <= |s| && r == s[a..a + |r|]
            && OccursAt(s, r, a)
            && (forall i :: 0 <= i < a ==> IsTrimSpace(s[i]))
            && (forall i :: a + |r| <= i < |s| ==> IsTrimSpace(s[i]))
  {
    PrefixOfSuffix(s, l, r, |s| - |l|);
    TrimRightTail(s, l, r, |s| - |l|);
  }

  /** A prefix `r` of the suffix `l == s[a..]` is the piece of `s` starting at `a`. */
  lemma PrefixOfSuffix(s: string, l: string, r: string, a: nat)
    requires a <= |s| && l == s[a..] && |r| <= |l| && r == l[..|r|]
    ensures a + |r| <= |s| && r == s[a..a + |r|] && OccursAt(s, r, a)
  {
    forall i | 0 <= i < |r|
      ensures r[i] == s[a + i]
    {
      assert r[i] == l[i];
    }
  }

  /** The bytes after the kept piece are those rtrim() removed from the tail of `l == s[a..]`. */
  lemma TrimRightTail(s: string, l: string, r: string, a: nat)
    requires a <= |s| && l == s[a..] && |r| <= |l|
    requires forall j :: |r| <= j < |l| ==> IsTrimSpace(l[j])
    ensures forall i :: a + |r| <= i < |s| ==> IsTrimSpace(s[i])
  {
    forall i | a + |r| <= i < |s|
      ensures IsTrimSpace(s[i])
    {
      assert s[i] == l[i - a];
    }
  }

  lemma TrimLeftNoop(s: string)
    requires s == [] || !IsTrimSpace(s[0])
    ensures TrimLeft(s) == s
  {
  }

  lemma TrimRightNoop(s: string)
    requires s == [] || !IsTrimSpace(s[|s| - 1])
    ensures TrimRight(s) == s
  {
  }

  /** Trimming an already trimmed string changes nothing. */
  lemma TrimIdempotent(s: string)
    ensures Trim(Trim(s)) == Trim(s)
  {
    var t := Trim(s);
    TrimLeftNoop(t);
    TrimRightNoop(t);
  }

  // ---------------------------------------------------------------------------
  // strtolower(), ucfirst(), str_replace() with one-byte arguments
  // ---------------------------------------------------------------------------

  /** strtolower() on one byte: only 'A'..'Z' change (PHP 8 is locale-independent). */
  function LowerChar(c: char): (r: char)
    ensures ('A' <= c <= 'Z') == (r != c)
  {
    if 'A' <= c <= 'Z' then (c as int + 32) as char else c
  }

  /** strtolower(): no capital is left, and every other byte stays where it was. */
  function Lower(s: string): (r: string)
    ensures |r| == |s|
    ensures forall i :: 0 <= i < |s| ==> r[i] == LowerChar(s[i])
    ensures forall i :: 0 <= i < |r| ==> !('A' <= r[i] <= 'Z')
    ensures forall i :: 0 <= i < |s| && !('A' <= s[i] <= 'Z') ==> r[i] == s[i]
  {
    seq(|s|, i requires 0 <= i < |s| => LowerChar(s[i]))
  }

  lemma LowerConcat(a: string, b: string)
    ensures Lower(a + b) == Lower(a) + Lower(b)
  {
  }

  /**
   * ucfirst(): upper-cases the first byte when it is 'a'..'z'. The result
   * starts with no lower-case letter, and differs from `s` at most in the case
   * of its first byte.
   */
  function Ucfirst(s: string): (r: string)
    ensures |r| == |s|
    ensures |s| > 0 ==> r[1..] == s[1..]
    ensures |s| > 0 ==> r[0] == (if 'a' <= s[0] <= 'z' then (s[0] as int - 32) as char else s[0])
    ensures |s| > 0 ==> !('a' <= r[0] <= 'z') && LowerChar(r[0]) == LowerChar(s[0])
  {
    if |s| > 0 && 'a' <= s[0] <= 'z' then [(s[0] as int - 32) as char] + s[1..] else s
  }

  /**
   * str_replace($from, $to, $s) for single-byte $from and $to: no `from` is
   * left (when it differs from `to`), and every other byte stays put.
   */
  function ReplaceChar(s: string, from: char, to: char): (r: string)
    ensures |r| == |s|
    ensures forall i :: 0 <= i < |s| ==> r[i] == (if s[i] == from then to else s[i])
    ensures from != to ==> forall i :: 0 <= i < |r| ==> r[i] != from
    ensures forall i :: 0 <= i < |s| && s[i] != from ==> r[i] == s[i]
  {
    seq(|s|, i requires 0 <= i < |s| => if s[i] == from then to else s[i])
  }

  // ---------------------------------------------------------------------------
  // Substrings and strpos()
  // ---------------------------------------------------------------------------

  /** `w` occurs in `s` starting at byte offset `i`. */
  predicate OccursAt(s: string, w: string, i: int) {
    0 <= i && i + |w| <= |s| && s[i..i + |w|] == w
  }

  ghost predicate Contains(s: string, w: string) {
    exists i :: OccursAt(s, w, i)
  }

  /** strpos($s, $w, $from): the first occurrence of `w` at or after `from`. */
  function IndexOf(s: string, w: string, from: nat): (r: Option<nat>)
    ensures r.Some? ==> from <= r.value && OccursAt(s, w, r.value)
    ensures r.Some? ==> forall j :: from <= j < r.value ==> !OccursAt(s, w, j)
    ensures r.None? ==> forall j :: from <= j ==> !OccursAt(s, w, j)
    decreases |s| - from
  {
    if from + |w| > |s| then None
    else if s[from..from + |w|] == w then Some(from)
    else IndexOf(s, w, from + 1)
  }

  /** `strpos($s, $w) !== false` holds exactly when `w` is a substring of `s`. */
  lemma StrposFindsSubstring(s: string, w: string)
    ensures IndexOf(s, w, 0).Some? <==> Contains(s, w)
  {
    if Contains(s, w) {
      var i :| OccursAt(s, w, i);
      assert 0 <= i;
    }
  }

  /** An occurrence in `b` is still an occurrence after something is put in front. */
  lemma ContainsInSuffix(a: string, b: string, w: string)
    requires Contains(b, w)
    ensures Contains(a + b, w)
  {
    var i :| OccursAt(b, w, i);
    assert (a + b)[|a| + i..|a| + i + |w|] == b[i..i + |w|];
    assert OccursAt(a + b, w, |a| + i);
  }

  /** An occurrence in `a` is still an occurrence after something is put behind. */
  lemma ContainsInPrefix(a: string, b: string, w: string)
    requires Contains(a, w)
    ensures Contains(a + b, w)
  {
    var i :| OccursAt(a, w, i);
    assert (a + b)[i..i + |w|] == a[i..i + |w|];
    assert OccursAt(a + b, w, i);
  }

  /**
   * A word without the separator byte occurs in `a + [sep] + b` exactly when
   * it occurs in `a` or in `b`: no occurrence can straddle the separator.
   */
  lemma ContainsAcrossSeparator(a: string, sep: char, b: string, w: string)
    requires forall k :: 0 <= k < |w| ==> w[k] != sep
    ensures Contains(a + [sep] + b, w) <==> Contains(a, w) || Contains(b, w)
  {
    var s := a + [sep] + b;
    if Contains(s, w) {
      var i :| OccursAt(s, w, i);
      assert s[|a|] == sep;
      assert forall j :: i <= j < i + |w| ==> s[j] == w[j - i];
      assert !(i <= |a| < i + |w|);
      if i + |w| <= |a| {
        assert a[i..i + |w|] == s[i..i + |w|];
        assert OccursAt(a, w, i);
      } else {
        assert b[i - |a| - 1..i - |a| - 1 + |w|] == s[i..i + |w|];
        assert OccursAt(b, w, i - |a| - 1);
      }
    }
    if Contains(a, w) {
      ContainsInPrefix(a, [sep] + b, w);
      assert a + [sep] + b == a + ([sep] + b);
    }
    if Contains(b, w) {
      ContainsInSuffix(a + [sep], b, w);
    }
  }

  // ---------------------------------------------------------------------------
  // implode()
  // ---------------------------------------------------------------------------

  /** implode($sep, $parts). */
  function Join(parts: seq<string>, sep: string): string
  {
    if |parts| == 0 then ""
    else if |parts| == 1 then parts[0]
    else parts[0] + sep + Join(parts[1..], sep)
  }

  /** Every part appears, verbatim, in the joined text. */
  lemma {:induction false} JoinContainsPart(parts: seq<string>, sep: string, k: nat)
    requires k < |parts|
    ensures Contains(Join(parts, sep), parts[k])
  {
    if |parts| == 1 {
      assert OccursAt(Join(parts, sep), parts[k], 0);
    } else if k == 0 {
      ContainsInPrefix(parts[0], sep + Join(parts[1..], sep), parts[0]) by {
        assert OccursAt(parts[0], parts[0], 0);
      }
      assert Join(parts, sep) == parts[0] + (sep + Join(parts[1..], sep));
    } else {
      JoinContainsPart(parts[1..], sep, k - 1);
      ContainsInSuffix(parts[0] + sep, Join(parts[1..], sep), parts[k]);
    }
  }

  /** Joining one part gives that part; joining more puts `sep` between them. */
  lemma {:induction false} JoinSnoc(parts: seq<string>, sep: string, last: string)
    requires |parts| > 0
    ensures Join(parts + [last], sep) == Join(parts, sep) + sep + last
  {
    if |parts| == 1 {
      assert parts + [last] == [parts[0], last];
    } else {
      assert (parts + [last])[1..] == parts[1..] + [last];
      JoinSnoc(parts[1..], sep, last);
    }
  }

  // ---------------------------------------------------------------------------
  // Decimal numbers: integer-to-string conversion and zero padding
  // ---------------------------------------------------------------------------

  predicate IsDigit(c: char) {
    '0' <= c <= '9'
  }

  predicate AllDigits(s: string) {
    forall i :: 0 <= i < |s| ==> IsDigit(s[i])
  }

  function DigitChar(d: nat): (c: char)
    requires d < 10
    ensures IsDigit(c) && c as int - '0' as int == d
  {
    ('0' as int + d) as char
  }

  /** The decimal text PHP produces when an integer is concatenated to a string. */
  function NatToString(n: nat): (r: string)
    ensures |r| >= 1 && AllDigits(r)
    ensures r[0] == '0' ==> n == 0
  {
    if n < 10 then [DigitChar(n)] else NatToString(n / 10) + [DigitChar(n % 10)]
  }

  /** Reads a string of decimal digits back to the number it denotes. */
  function ParseNat(s: string): nat
    requires AllDigits(s)
  {
    if s == [] then 0 else 10 * ParseNat(s[..|s| - 1]) + (s[|s| - 1] as int - '0' as int)
  }

  /** Reading back the decimal text of `n` gives `n`. */
  lemma {:induction false} ParseNatToString(n: nat)
    ensures ParseNat(NatToString(n)) == n
  {
    if n >= 10 {
      var s := NatToString(n);
      assert s[..|s| - 1] == NatToString(n / 10);
      ParseNatToString(n / 10);
    }
  }

  function Zeros(k: nat): (r: string)
    ensures |r| == k && AllDigits(r)
    ensures forall i :: 0 <= i < k ==> r[i] == '0'
  {
    seq(k, _ => '0')
  }

  /** Leading zeros do not change the value a digit string denotes. */
  lemma {:induction false} ParseNatLeadingZeros(k: nat, s: string)
    requires AllDigits(s)
    ensures ParseNat(Zeros(k) + s) == ParseNat(s)
  {
    if s == [] {
      assert Zeros(k) + s == Zeros(k);
      if k > 0 {
        assert Zeros(k)[..k - 1] == Zeros(k - 1);
        ParseNatLeadingZeros(k - 1, []);
        assert Zeros(k - 1) + [] == Zeros(k - 1);
      }
    } else {
      var t := Zeros(k) + s;
      assert t[..|t| - 1] == Zeros(k) + s[..|s| - 1];
      ParseNatLeadingZeros(k, s[..|s| - 1]);
    }
  }

  /** The zero-padded decimal text PHP's date() uses ('Y' pads to 4, 'm', 'd', 'H', 'i', 's' to 2). */
  function PadNat(n: nat, width: nat): (r: string)
    ensures |r| >= width && AllDigits(r)
  {
    var digits := NatToString(n);
    if |digits| >= width then digits else Zeros(width - |digits|) + digits
  }

  function Pow10(k: nat): (p: nat)
    ensures p >= 1
  {
    if k == 0 then 1 else 10 * Pow10(k - 1)
  }

  lemma {:induction false} NatToStringLength(n: nat, k: nat)
    requires 1 <= k && n < Pow10(k)
    ensures |NatToString(n)| <= k
  {
    if n >= 10 {
      NatToStringLength(n / 10, k - 1);
    }
  }

  /** Zero padding reads back to the number, however wide the number is. */
  lemma PadNatParses(n: nat, width: nat)
    ensures ParseNat(PadNat(n, width)) == n
  {
    ParseNatToString(n);
    var digits := NatToString(n);
    if |digits| < width {
      ParseNatLeadingZeros(width - |digits|, digits);
    }
  }

  /** A number below 10^width is written in exactly `width` digits. */
  lemma PadNatWidth(n: nat, width: nat)
    requires 1 <= width && n < Pow10(width)
    ensures |PadNat(n, width)| == width
  {
    NatToStringLength(n, width);
  }

  // ---------------------------------------------------------------------------
  // UTF-8 well-formedness (RFC 3629, section 4)
  // ---------------------------------------------------------------------------

  predicate InRange(c: char, lo: int, hi: int) {
    lo <= c as int <= hi
  }

  /** A continuation byte 0x80..0xBF. */
  predicate IsTail(c: char) {
    InRange(c, 0x80, 0xBF)
  }

  /**
   * The length of the well-formed UTF-8 sequence at the start of `s`, or 0
   * when `s` does not start with one (overlong forms, surrogates and code
   * points above U+10FFFF are ill-formed).
   */
  function Utf8SequenceLength(s: string): (n: nat)
    ensures n <= |s| && (n == 0 || s != [])
    ensures n == 1 <==> (s != [] && s[0] as int < 0x80)
  {
    if s == [] then 0
    else if s[0] as int < 0x80 then 1
    else if InRange(s[0], 0xC2, 0xDF) then
      if |s| >= 2 && IsTail(s[1]) then 2 else 0
    else if InRange(s[0], 0xE0, 0xEF) then
      var lo := if s[0] as int == 0xE0 then 0xA0 else 0x80;
      var hi := if s[0] as int == 0xED then 0x9F else 0xBF;
      if |s| >= 3 && InRange(s[1], lo, hi) && IsTail(s[2]) then 3 else 0
    else if InRange(s[0], 0xF0, 0xF4) then
      var lo := if s[0] as int == 0xF0 then 0x90 else 0x80;
      var hi := if s[0] as int == 0xF4 then 0x8F else 0xBF;
      if |s| >= 4 && InRange(s[1], lo, hi) && IsTail(s[2]) && IsTail(s[3]) then 4 else 0
    else 0
  }

  predicate ValidUtf8(s: string)
    decreases |s|
  {
    s == [] || (Utf8SequenceLength(s) > 0 && ValidUtf8(s[Utf8SequenceLength(s)..]))
  }

  /** The length of the leading sequence depends only on its own bytes. */
  lemma Utf8SequenceLengthPrefix(s: string, t: string)
    requires Utf8SequenceLength(s) > 0
    ensures Utf8SequenceLength(s + t) == Utf8SequenceLength(s)
  {
    assert (s + t)[..|s|] == s;
  }

  /**
   * A well-formed text splits after its leading sequence into two well-formed
   * texts, and a leading sequence longer than one byte has no ASCII byte.
   */
  lemma Utf8HeadSplit(s: string)
    requires ValidUtf8(s) && s != []
    ensures var n := Utf8SequenceLength(s);
            ValidUtf8(s[..n]) && ValidUtf8(s[n..])
            && (n > 1 ==> forall i :: 0 <= i < n ==> s[i] as int >= 0x80)
  {
    var n := Utf8SequenceLength(s);
    var h := s[..n];
    assert Utf8SequenceLength(h) == n;
    assert h[n..] == [];
  }

  /** Two well-formed texts concatenate to a well-formed text. */
  lemma {:induction false} ValidUtf8Concat(s: string, t: string)
    requires ValidUtf8(s) && ValidUtf8(t)
    ensures ValidUtf8(s + t)
    decreases |s|
  {
    if s == [] {
      assert s + t == t;
    } else {
      var n := Utf8SequenceLength(s);
      Utf8SequenceLengthPrefix(s, t);
      assert (s + t)[n..] == s[n..] + t;
      ValidUtf8Concat(s[n..], t);
    }
  }

  /** A text of bytes below 0x80 (ASCII) is well-formed UTF-8. */
  lemma {:induction false} AsciiIsValidUtf8(s: string)
    requires forall i :: 0 <= i < |s| ==> s[i] as int < 0x80
    ensures ValidUtf8(s)
    decreases |s|
  {
    if s != [] {
      AsciiIsValidUtf8(s[1..]);
    }
  }
}
