/** The string primitives the codec relies on, with the semantics of the
    Python built-ins they stand for: str.isspace, str.strip, str.rstrip,
    str.split(delim, maxsplit=1), re.match on a literal pattern, int() of a
    string (over ASCII digits only), str() of a count, and latin-1
    decoding/encoding. */
module Text {
  import opened Base

  /** Python's str.isspace() for a single character. */
  predicate IsSpace(c: char) {
    ('\t' <= c <= '\r') || ('\U{1C}' <= c <= '\U{1F}') || c == ' '
    || c == '\U{85}' || c == '\U{A0}' || c == '\U{1680}'
    || ('\U{2000}' <= c <= '\U{200A}') || c == '\U{2028}' || c == '\U{2029}'
    || c == '\U{202F}' || c == '\U{205F}' || c == '\U{3000}'
  }

  /** str.lstrip(): drop leading whitespace. */
  function LStrip(s: string): string {
    if s != [] && IsSpace(s[0]) then LStrip(s[1..]) else s
  }

  /** What lstrip() leaves is a suffix starting with a non-blank, and all it
      drops is blank. */
  lemma {:induction false} LStripSpec(s: string)
    ensures var r := LStrip(s);
            && |r| <= |s| && r == s[|s| - |r|..]
            && (r == [] || !IsSpace(r[0]))
            && forall i :: 0 <= i < |s| - |r| ==> IsSpace(s[i])
  {
    if s != [] && IsSpace(s[0]) {
      LStripSpec(s[1..]);
      var r := LStrip(s);
      assert forall i :: 0 < i < |s| ==> s[i] == s[1..][i - 1];
      assert s[1..][|s| - 1 - |r|..] == s[|s| - |r|..];
    }
  }

  /** str.rstrip(): drop trailing whitespace. */
  function RStrip(s: string): string {
    if s != [] && IsSpace(s[|s| - 1]) then RStrip(s[..|s| - 1]) else s
  }

  /** What rstrip() leaves is a prefix ending with a non-blank, and all it
      drops is blank. */
  lemma {:induction false} RStripSpec(s: string)
    ensures var r := RStrip(s);
            && |r| <= |s| && r == s[..|r|]
            && (r == [] || !IsSpace(r[|r| - 1]))
            && forall i :: |r| <= i < |s| ==> IsSpace(s[i])
  {
    if s != [] && IsSpace(s[|s| - 1]) {
      RStripSpec(s[..|s| - 1]);
      var r := RStrip(s);
      assert s[..|s| - 1][..|r|] == s[..|r|];
    }
  }

  /** A string ending in a non-blank is left as it is by rstrip(). */
  lemma RStripKeeps(s: string)
    requires s == [] || !IsSpace(s[|s| - 1])
    ensures RStrip(s) == s
  {
  }

  /** rstrip() twice is rstrip() once. */
  lemma RStripIdempotent(s: string)
    ensures RStrip(RStrip(s)) == RStrip(s)
  {
    RStripSpec(s);
    RStripKeeps(RStrip(s));
  }

  /** Blanks appended to a string are all that rstrip() takes away from
      them. */
  lemma {:induction false} RStripBlankTail(s: string, w: string)
    requires forall i :: 0 <= i < |w| ==> IsSpace(w[i])
    ensures RStrip(s + w) == RStrip(s)
    decreases |w|
  {
    if w == [] {
      assert s + w == s;
    } else {
      var n := |w| - 1;
      assert (s + w)[..|s + w| - 1] == s + w[..n];
      RStripBlankTail(s, w[..n]);
    }
  }

  /** str.strip(): drop whitespace at both ends. */
  function Strip(s: string): string {
    RStrip(LStrip(s))
  }

  /** A string with nothing for strip() to remove. */
  predicate IsStripped(s: string) {
    s == [] || (!IsSpace(s[0]) && !IsSpace(s[|s| - 1]))
  }

  lemma StripYieldsStripped(s: string)
    ensures IsStripped(Strip(s))
  {
    var l := LStrip(s);
    LStripSpec(s);
    RStripSpec(l);
    var r := RStrip(l);
    if r != [] {
      assert r[0] == l[0];
    }
  }

  lemma StrippedIsFixpoint(s: string)
    requires IsStripped(s)
    ensures Strip(s) == s
  {
    assert LStrip(s) == s;
    assert RStrip(s) == s;
  }

  /** Stripping cannot introduce a character. */
  lemma StripKeepsOut(s: string, c: char)
    requires c !in s
    ensures c !in Strip(s)
  {
    LStripSpec(s);
    var l := LStrip(s);
    RStripSpec(l);
    assert forall i :: 0 <= i < |l| ==> l[i] == s[|s| - |l| + i];
    var r := RStrip(l);
    assert forall i :: 0 <= i < |r| ==> r[i] == l[i];
  }

  /** Stripping twice is stripping once. */
  lemma StripIdempotent(s: string)
    ensures Strip(Strip(s)) == Strip(s)
  {
    StripYieldsStripped(s);
    StrippedIsFixpoint(Strip(s));
  }

  /** re.match(p, s) for a pattern p without metacharacters: p is a prefix of s. */
  predicate StartsWith(s: string, p: string) {
    |p| <= |s| && s[..|p|] == p
  }

  /** The position of the first occurrence of c in s, if any. */
  function IndexOf(s: string, c: char): (r: Option<nat>)
    ensures r.None? <==> c !in s
    ensures r.Some? ==> r.value < |s| && s[r.value] == c && c !in s[..r.value]
  {
    if s == [] then None
    else if s[0] == c then Some(0)
    else match IndexOf(s[1..], c)
      case None => None
      case Some(i) =>
        assert s[..i + 1] == [s[0]] + s[1..][..i];
        Some(i + 1)
  }

  /** s.split(c, maxsplit=1) when it yields two parts: the text before the
      first c and the text after it; None when s has no c (one part). */
  function SplitOnce(s: string, c: char): (r: Option<(string, string)>)
    ensures r.None? <==> c !in s
    ensures r.Some? ==> s == r.value.0 + [c] + r.value.1 && c !in r.value.0
  {
    match IndexOf(s, c)
    case None => None
    case Some(i) =>
      assert s == s[..i] + [c] + s[i + 1..];
      Some((s[..i], s[i + 1..]))
  }

  /** Splitting a joined key and value gives them back when the key holds no
      delimiter: the split is taken at the first delimiter only. */
  lemma SplitJoined(k: string, c: char, v: string)
    requires c !in k
    ensures SplitOnce(k + [c] + v, c) == Some((k, v))
  {
    var s := k + [c] + v;
    var r := SplitOnce(s, c);
    assert c in s by { assert s[|k|] == c; }
    var i := IndexOf(s, c).value;
    assert s[|k|] == c;
    assert s[..i] == k && s[i + 1..] == v;
  }

  predicate IsDigit(c: char) {
    '0' <= c <= '9'
  }

  function DigitValue(c: char): nat
    requires IsDigit(c)
  {
    (c as int) - ('0' as int)
  }

  function DigitChar(d: nat): (c: char)
    requires d < 10
    ensures IsDigit(c) && DigitValue(c) == d
  {
    (('0' as int) + d) as char
  }

  /** Digits and single underscores, no underscore followed by another. */
  predicate DigitBody(s: string) {
    s == [] ||
    ((IsDigit(s[0]) || (s[0] == '_' && !(|s| > 1 && s[1] == '_'))) && DigitBody(s[1..]))
  }

  /** The digit body int() accepts: ASCII digits with single underscores
      between them. */
  predicate ValidDigits(s: string) {
    |s| > 0 && IsDigit(s[0]) && IsDigit(s[|s| - 1]) && DigitBody(s)
  }

  /** The value of the digits of s, underscores (and anything not a digit)
      skipped. */
  function DigitsValue(s: string): nat {
    if s == [] then 0
    else if IsDigit(s[|s| - 1]) then 10 * DigitsValue(s[..|s| - 1]) + DigitValue(s[|s| - 1])
    else DigitsValue(s[..|s| - 1])
  }

  /** int(s) for a string s: surrounding whitespace is ignored, an optional
      sign, then the digit body; None where int() raises ValueError. */
  function ParseInt(s: string): Option<int> {
    var t := Strip(s);
    if t == [] then None
    else if t[0] == '-' || t[0] == '+' then
      var body := t[1..];
      if ValidDigits(body) then
        Some(if t[0] == '-' then -(DigitsValue(body) as int) else DigitsValue(body))
      else None
    else if ValidDigits(t) then Some(DigitsValue(t))
    else None
  }

  /** Decimal digits only. */
  predicate AllDigits(s: string) {
    s == [] || (IsDigit(s[0]) && AllDigits(s[1..]))
  }

  /** str(n) for a count n: its decimal digits, no sign, no padding. */
  function NatToString(n: nat): (r: string)
    ensures |r| > 0 && IsDigit(r[0]) && IsDigit(r[|r| - 1])
  {
    if n < 10 then [DigitChar(n)] else NatToString(n / 10) + [DigitChar(n % 10)]
  }

  lemma {:induction false} AllDigitsAppend(a: string, b: string)
    requires AllDigits(a) && AllDigits(b)
    ensures AllDigits(a + b)
  {
    if a != [] {
      assert (a + b)[1..] == a[1..] + b;
      AllDigitsAppend(a[1..], b);
    } else {
      assert a + b == b;
    }
  }

  lemma {:induction false} AllDigitsIsBody(s: string)
    requires AllDigits(s)
    ensures DigitBody(s)
  {
    if s != [] {
      AllDigitsIsBody(s[1..]);
    }
  }

  lemma {:induction false} NatToStringDigits(n: nat)
    ensures AllDigits(NatToString(n))
  {
    if n >= 10 {
      NatToStringDigits(n / 10);
      AllDigitsAppend(NatToString(n / 10), [DigitChar(n % 10)]);
    }
  }

  lemma {:induction false} DigitsValueOfNatToString(n: nat)
    ensures DigitsValue(NatToString(n)) == n
  {
    var s := NatToString(n);
    if n >= 10 {
      var p := NatToString(n / 10);
      assert s[..|s| - 1] == p;
      DigitsValueOfNatToString(n / 10);
    }
  }

  /** int(str(n)) == n: a count written into a header line reads back. */
  lemma ParseNatToString(n: nat)
    ensures ParseInt(NatToString(n)) == Some(n)
  {
    var s := NatToString(n);
    assert IsStripped(s);
    StrippedIsFixpoint(s);
    NatToStringDigits(n);
    AllDigitsIsBody(s);
    DigitsValueOfNatToString(n);
  }

  /** bytes.decode('latin-1'): each byte is the character with that code. */
  function Latin1Decode(bs: seq<byte>): (s: string)
    ensures |s| == |bs|
  {
    seq(|bs|, i requires 0 <= i < |bs| => bs[i] as char)
  }

  /** str.encode('latin-1'): None where a character is above U+00FF
      (UnicodeEncodeError). */
  function Latin1Encode(s: string): Option<seq<byte>> {
    if s == [] then Some([])
    else if s[0] as int >= 256 then None
    else match Latin1Encode(s[1..])
      case None => None
      case Some(t) => Some([s[0] as int as byte] + t)
  }

  /** Encoding succeeds exactly when every character is at most U+00FF,
      and then each byte is the code of its character. */
  lemma {:induction false} Latin1EncodeSpec(s: string)
    ensures Latin1Encode(s).Some? <==> forall i :: 0 <= i < |s| ==> s[i] as int < 256
    ensures Latin1Encode(s).Some? ==>
              |Latin1Encode(s).value| == |s| && forall i :: 0 <= i < |s| ==> Latin1Encode(s).value[i] == s[i] as int
  {
    if s != [] {
      Latin1EncodeSpec(s[1..]);
      if s[0] as int < 256 && Latin1Encode(s[1..]).Some? {
        var t := Latin1Encode(s[1..]).value;
        assert forall i :: 1 <= i < |s| ==> s[i] == s[1..][i - 1];
      } else if s[0] as int < 256 {
        assert exists i :: 0 <= i < |s| - 1 && s[1..][i] as int >= 256;
        var i :| 0 <= i < |s| - 1 && s[1..][i] as int >= 256;
        assert s[i + 1] as int >= 256;
      }
    }
  }

  /** Encoding what was decoded gives the bytes back. */
  lemma Latin1RoundTrip(bs: seq<byte>)
    ensures Latin1Encode(Latin1Decode(bs)) == Some(bs)
  {
    var s := Latin1Decode(bs);
    var r := Latin1Encode(s);
    Latin1EncodeSpec(s);
    assert r.Some?;
    assert r.value == bs;
  }

  /** Decoding what was encoded gives the text back. */
  lemma Latin1DecodeEncode(s: string)
    requires Latin1Encode(s).Some?
    ensures Latin1Decode(Latin1Encode(s).value) == s
  {
    Latin1EncodeSpec(s);
    var d := Latin1Decode(Latin1Encode(s).value);
    assert forall i :: 0 <= i < |s| ==> d[i] == s[i];
  }

  /** str.lower() on ASCII letters (the flatten policy names are ASCII). */
  function AsciiLower(s: string): (r: string)
    ensures |r| == |s|
    ensures forall i :: 0 <= i < |s| ==> r[i] == if 'A' <= s[i] <= 'Z' then (s[i] as int + 32) as char else s[i]
  {
    if s == [] then []
    else [if 'A' <= s[0] <= 'Z' then (s[0] as int + 32) as char else s[0]] + AsciiLower(s[1..])
  }
}
