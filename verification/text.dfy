/** The two pieces of string handling the pipeline relies on: Python's
    `str.strip()` on header names and `str(int)` inside the year-range text. */
module Text {
  import opened Wrappers


  /** Python's `str.isspace` characters: ASCII whitespace, the information
      separators U+001C..U+001F and the Unicode space characters. */
  predicate IsSpace(c: char) {
    || c == ' '
    || '\t' <= c <= '\r'
    || '\U{1C}' <= c <= '\U{1F}'
    || c == '\U{85}' || c == '\U{A0}' || c == '\U{1680}'
    || '\U{2000}' <= c <= '\U{200A}'
    || c == '\U{2028}' || c == '\U{2029}' || c == '\U{202F}' || c == '\U{205F}'
    || c == '\U{3000}'
  }

  predicate AllSpace(s: string) {
    forall i :: 0 <= i < |s| ==> IsSpace(s[i])
  }

  /** Neither end of `s` is whitespace. */
  predicate NoEdgeSpace(s: string) {
    |s| > 0 ==> !IsSpace(s[0]) && !IsSpace(s[|s| - 1])
  }

  /** Drops leading whitespace: what is removed is all whitespace, what is
      kept is a suffix that does not start with whitespace. */
  function TrimStart(s: string): (r: string)
    ensures |r| <= |s| && r == s[|s| - |r|..]
    ensures AllSpace(s[..|s| - |r|])
    ensures |r| > 0 ==> !IsSpace(r[0])
    decreases |s|
  {
    if |s| > 0 && IsSpace(s[0]) then
      var r := TrimStart(s[1..]);
      var m := |s| - |r|;
      assert r == s[m..] by {
        assert s[1..][m - 1..] == s[m..];
      }
      assert AllSpace(s[..m]) by {
        forall i | 0 <= i < m
          ensures IsSpace(s[..m][i])
        {
          if i > 0 {
            assert s[..m][i] == s[1..][..m - 1][i - 1];
          }
        }
      }
      r
    else s
  }

  /** Drops trailing whitespace, symmetrically to `TrimStart`. */
  function TrimEnd(s: string): (r: string)
    ensures |r| <= |s| && r == s[..|r|]
    ensures AllSpace(s[|r|..])
    ensures |r| > 0 ==> !IsSpace(r[|r| - 1])
    decreases |s|
  {
    if |s| > 0 && IsSpace(s[|s| - 1]) then
      var r := TrimEnd(s[..|s| - 1]);
      assert s[|r|..] == s[..|s| - 1][|r|..] + [s[|s| - 1]];
      r
    else s
  }

  /** Python's `str.strip()` with no argument: neither end of the result is
      whitespace. */
  function Strip(s: string): (r: string)
    ensures |r| <= |s|
    ensures NoEdgeSpace(r)
  {
    TrimEnd(TrimStart(s))
  }

  /** What `Strip` keeps is the infix `s[a..a + |Strip(s)|]`, and what it
      removes on either side is whitespace only. */
  lemma StripIsInfix(s: string) returns (a: nat)
    ensures a + |Strip(s)| <= |s|
    ensures s[a..a + |Strip(s)|] == Strip(s)
    ensures AllSpace(s[..a]) && AllSpace(s[a + |Strip(s)|..])
  {
    var l := TrimStart(s);
    var r := TrimEnd(l);
    a := |s| - |l|;
    assert l == s[a..];
    assert r == l[..|r|];
    assert s[a..a + |r|] == r;
    assert s[a + |r|..] == l[|r|..];
  }

  /** Stripping twice is stripping once. */
  lemma StripIdempotent(s: string)
    ensures Strip(Strip(s)) == Strip(s)
  {
    var r := Strip(s);
    assert TrimStart(r) == r;
    assert TrimEnd(r) == r;
  }

  /** A name with no surrounding whitespace is its own stripped form. */
  lemma StripOfTrimmed(s: string)
    requires NoEdgeSpace(s)
    ensures Strip(s) == s
  {
    assert TrimStart(s) == s;
    assert TrimEnd(s) == s;
  }

  predicate IsDigit(c: char) {
    '0' <= c <= '9'
  }

  function DigitChar(d: nat): (c: char)
    requires d < 10
    ensures IsDigit(c) && c as int - '0' as int == d
  {
    (d + '0' as int) as char
  }

  /** The decimal digits of `n`, most significant first, without leading zeros. */
  function NatToDecimal(n: nat): (s: string)
    ensures |s| > 0
    ensures forall i :: 0 <= i < |s| ==> IsDigit(s[i])
    ensures |s| > 1 ==> s[0] != '0'
    decreases n
  {
    if n < 10 then [DigitChar(n)] else NatToDecimal(n / 10) + [DigitChar(n % 10)]
  }

  /** Python's `str(i)` for an integer. */
  function IntToDecimal(i: int): (s: string)
    ensures |s| > 0
    ensures i < 0 <==> s[0] == '-'
  {
    if i < 0 then "-" + NatToDecimal(-i) else NatToDecimal(i)
  }

  function DigitValue(c: char): nat
    requires IsDigit(c)
  {
    c as int - '0' as int
  }

  /** Reads a run of decimal digits back as a number. */
  function DecimalValue(s: string): nat
    requires forall i :: 0 <= i < |s| ==> IsDigit(s[i])
    decreases |s|
  {
    if |s| == 0 then 0
    else DecimalValue(s[..|s| - 1]) * 10 + DigitValue(s[|s| - 1])
  }

  /** Reads an optionally negated decimal back as an integer. */
  function ParseInt(s: string): int
    requires |s| > 0
    requires forall i :: 0 < i < |s| ==> IsDigit(s[i])
    requires s[0] == '-' || IsDigit(s[0])
  {
    if s[0] == '-' then -(DecimalValue(s[1..]) as int) else DecimalValue(s)
  }

  lemma {:induction false} NatDecimalRoundTrip(n: nat)
    ensures DecimalValue(NatToDecimal(n)) == n
    decreases n
  {
    if n >= 10 {
      var a := NatToDecimal(n / 10);
      NatDecimalRoundTrip(n / 10);
      assert (a + [DigitChar(n % 10)])[..|a|] == a;
    }
  }

  /** The rendering of an integer reads back as that integer. */
  lemma IntDecimalRoundTrip(i: int)
    ensures var s := IntToDecimal(i);
      && (forall k :: 0 < k < |s| ==> IsDigit(s[k]))
      && (s[0] == '-' || IsDigit(s[0]))
      && ParseInt(s) == i
  {
    if i < 0 {
      var d := NatToDecimal(-i);
      NatDecimalRoundTrip(-i);
      assert IntToDecimal(i) == "-" + d;
      assert ("-" + d)[1..] == d;
    } else {
      NatDecimalRoundTrip(i);
    }
  }

  /** `s` is the rendering of some integer: an optional minus, then digits. */
  predicate IsIntText(s: string) {
    && |s| > 0
    && (s[0] == '-' || IsDigit(s[0]))
    && forall k :: 0 < k < |s| ==> IsDigit(s[k])
  }

  /** Position of the first space in `s`, or `|s|` when there is none. */
  function FirstSpace(s: string): (k: nat)
    ensures k <= |s|
    ensures k < |s| ==> s[k] == ' '
    ensures forall j :: 0 <= j < k ==> s[j] != ' '
    decreases |s|
  {
    if |s| == 0 then 0
    else if s[0] == ' ' then 0
    else 1 + FirstSpace(s[1..])
  }

  /** The `"<lo> - <hi>"` rendering of a range of integers. */
  function FormatSpan(lo: int, hi: int): string {
    IntToDecimal(lo) + " - " + IntToDecimal(hi)
  }

  /** Reads a `"<lo> - <hi>"` rendering back, splitting at its first space. */
  function ParseSpan(s: string): Option<(int, int)> {
    var k := FirstSpace(s);
    if k + 3 <= |s| && s[k..k + 3] == " - " && IsIntText(s[..k]) && IsIntText(s[k + 3..])
    then Some((ParseInt(s[..k]), ParseInt(s[k + 3..])))
    else None
  }

  /** A rendered range reads back as the same two integers. */
  lemma SpanRoundTrip(lo: int, hi: int)
    ensures ParseSpan(FormatSpan(lo, hi)) == Some((lo, hi))
  {
    var a := IntToDecimal(lo);
    var b := IntToDecimal(hi);
    var s := FormatSpan(lo, hi);
    IntDecimalRoundTrip(lo);
    IntDecimalRoundTrip(hi);
    assert forall j :: 0 <= j < |a| ==> s[j] == a[j] && a[j] != ' ';
    assert s[|a|] == ' ';
    assert FirstSpace(s) == |a|;
    assert s[..|a|] == a;
    assert s[|a| + 3..] == b;
  }
}
