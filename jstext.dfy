/**
 * The JavaScript string and number built-ins the source relies on, on
 * `string` (a sequence of characters): `String(n)` for a non-negative
 * integer, `padStart(width, '0')`, reading decimal digits back, `trim()`,
 * `split('\n')[0]` and `toString(16)` of a nibble.
 */
module JsText {

  predicate IsDigit(c: char) { '0' <= c <= '9' }

  function DigitChar(d: int): (c: char)
    requires 0 <= d < 10
    ensures IsDigit(c)
  {
    (('0' as int) + d) as char
  }

  function DigitValue(c: char): (d: int)
    requires IsDigit(c)
    ensures 0 <= d < 10 && DigitChar(d) == c
  {
    (c as int) - ('0' as int)
  }

  predicate AllDigits(s: string) { forall i :: 0 <= i < |s| ==> IsDigit(s[i]) }

  function Pow10(k: nat): (p: nat)
    ensures p >= 1
  {
    if k == 0 then 1 else 10 * Pow10(k - 1)
  }

  /** `String(n)` for a non-negative integer: its shortest decimal text. */
  function Decimal(n: nat): (s: string)
    ensures 1 <= |s| && AllDigits(s)
  {
    if n < 10 then [DigitChar(n)] else Decimal(n / 10) + [DigitChar(n % 10)]
  }

  /** The number a string of decimal digits denotes, most significant digit first. */
  function DigitsValue(s: string): (n: nat)
    requires AllDigits(s)
    ensures n < Pow10(|s|)
  {
    if s == [] then 0 else 10 * DigitsValue(s[..|s| - 1]) + DigitValue(s[|s| - 1])
  }

  function Zeros(k: nat): (s: string)
    ensures |s| == k && forall i :: 0 <= i < k ==> s[i] == '0'
  {
    seq(k, _ => '0')
  }

  /** `s.padStart(width, '0')`: zeros in front until the text is `width` long; a longer text is left alone. */
  function PadStart(s: string, width: nat): (r: string)
    ensures |s| >= width ==> r == s
    ensures |s| < width ==> |r| == width
  {
    if |s| >= width then s else Zeros(width - |s|) + s
  }

  /** Exactly the last `width` decimal digits of `n`, most significant first (a reference for PadStart of Decimal). */
  function FixedDigits(n: nat, width: nat): (s: string)
    ensures |s| == width && AllDigits(s)
  {
    if width == 0 then [] else FixedDigits(n / 10, width - 1) + [DigitChar(n % 10)]
  }

  lemma {:induction false} DecimalValue(n: nat)
    ensures DigitsValue(Decimal(n)) == n
  {
    if n >= 10 {
      var s := Decimal(n);
      assert s[..|s| - 1] == Decimal(n / 10);
      DecimalValue(n / 10);
    }
  }

  /** Two numbers with the same decimal text are equal. */
  lemma DecimalInjective(a: nat, b: nat)
    requires Decimal(a) == Decimal(b)
    ensures a == b
  {
    DecimalValue(a);
    DecimalValue(b);
  }

  lemma {:induction false} FixedDigitsValue(n: nat, width: nat)
    requires n < Pow10(width)
    ensures DigitsValue(FixedDigits(n, width)) == n
  {
    if width > 0 {
      var s := FixedDigits(n, width);
      assert s[..|s| - 1] == FixedDigits(n / 10, width - 1);
      FixedDigitsValue(n / 10, width - 1);
    }
  }

  lemma {:induction false} FixedDigitsOfValue(s: string)
    requires AllDigits(s)
    ensures FixedDigits(DigitsValue(s), |s|) == s
  {
    if s != [] {
      var init, last := s[..|s| - 1], s[|s| - 1];
      FixedDigitsOfValue(init);
      var u, d := DigitsValue(init), DigitValue(last);
      assert DigitsValue(s) == 10 * u + d;
      LastDigit(u, d);
      assert FixedDigits(DigitsValue(s), |s|) == FixedDigits(u, |init|) + [DigitChar(d)];
      assert s == init + [last];
    }
  }

  /** Appending the digit `d` to the number `u` is undone by `/ 10` and `% 10`. */
  lemma LastDigit(u: nat, d: int)
    requires 0 <= d < 10
    ensures (10 * u + d) / 10 == u && (10 * u + d) % 10 == d
  {
  }

  lemma {:induction false} FixedDigitsOfZero(width: nat)
    ensures FixedDigits(0, width) == Zeros(width)
  {
    if width > 0 {
      FixedDigitsOfZero(width - 1);
      assert Zeros(width) == Zeros(width - 1) + ['0'];
    }
  }

  lemma PadStartAppend(s: string, c: char, width: nat)
    requires width >= 1
    ensures PadStart(s + [c], width) == PadStart(s, width - 1) + [c]
  {
    if |s| + 1 < width {
      var z := Zeros(width - |s| - 1);
      assert PadStart(s + [c], width) == z + (s + [c]);
      assert PadStart(s, width - 1) == z + s;
      assert z + (s + [c]) == (z + s) + [c];
    } else {
      assert PadStart(s + [c], width) == s + [c];
      assert PadStart(s, width - 1) == s;
    }
  }

  /** padStart of a short enough decimal text is exactly `width` digits. */
  lemma {:induction false} PadStartDecimal(n: nat, width: nat)
    requires 1 <= width && n < Pow10(width)
    ensures PadStart(Decimal(n), width) == FixedDigits(n, width)
  {
    var c := DigitChar(n % 10);
    if n < 10 {
      assert Decimal(n) == [] + [c];
      PadStartAppend([], c, width);
      assert PadStart([], width - 1) == Zeros(width - 1);
      FixedDigitsOfZero(width - 1);
      assert FixedDigits(n, width) == FixedDigits(0, width - 1) + [c];
    } else {
      assert Pow10(width) == 10 * Pow10(width - 1);
      assert n / 10 < Pow10(width - 1);
      assert Decimal(n) == Decimal(n / 10) + [c];
      PadStartDecimal(n / 10, width - 1);
      PadStartAppend(Decimal(n / 10), c, width);
      assert FixedDigits(n, width) == FixedDigits(n / 10, width - 1) + [c];
    }
  }

  /** A number with exactly `width` digits prints as exactly those digits. */
  lemma {:induction false} DecimalFixedWidth(n: nat, width: nat)
    requires 1 <= width && Pow10(width - 1) <= n < Pow10(width)
    ensures Decimal(n) == FixedDigits(n, width)
  {
    if n >= 10 {
      DecimalFixedWidth(n / 10, width - 1);
    }
  }

  /** Characters `String.prototype.trim` removes: white space and line terminators. */
  predicate IsWhiteSpace(c: char)
  {
    || c == '\t' || c == '\n' || c == '\U{000B}' || c == '\U{000C}' || c == '\r' || c == ' '
    || c == '\U{00A0}' || c == '\U{1680}' || ('\U{2000}' <= c <= '\U{200A}')
    || c == '\U{2028}' || c == '\U{2029}' || c == '\U{202F}' || c == '\U{205F}'
    || c == '\U{3000}' || c == '\U{FEFF}'
  }

  predicate IsBlank(s: string) { forall i :: 0 <= i < |s| ==> IsWhiteSpace(s[i]) }

  function TrimStart(s: string): (r: string)
    ensures |r| <= |s| && r == s[|s| - |r|..]
    ensures r != [] ==> !IsWhiteSpace(r[0])
    ensures IsBlank(s[..|s| - |r|])
  {
    if s != [] && IsWhiteSpace(s[0]) then
      var t := s[1..];
      var r := TrimStart(t);
      assert s[|s| - |r|..] == t[|t| - |r|..];
      assert s[..|s| - |r|] == [s[0]] + t[..|t| - |r|];
      BlankCons(s[0], t[..|t| - |r|]);
      r
    else s
  }

  function TrimEnd(s: string): (r: string)
    ensures |r| <= |s| && r == s[..|r|]
    ensures r != [] ==> !IsWhiteSpace(r[|r| - 1])
    ensures IsBlank(s[|r|..])
  {
    if s != [] && IsWhiteSpace(s[|s| - 1]) then
      var t := s[..|s| - 1];
      var r := TrimEnd(t);
      assert s[..|r|] == t[..|r|];
      assert s[|r|..] == t[|r|..] + [s[|s| - 1]];
      BlankSnoc(t[|r|..], s[|s| - 1]);
      r
    else s
  }

  lemma BlankCons(c: char, s: string)
    requires IsWhiteSpace(c) && IsBlank(s)
    ensures IsBlank([c] + s)
  {
    assert forall i :: 0 < i <= |s| ==> ([c] + s)[i] == s[i - 1];
  }

  lemma BlankSnoc(s: string, c: char)
    requires IsBlank(s) && IsWhiteSpace(c)
    ensures IsBlank(s + [c])
  {
    assert forall i :: 0 <= i < |s| ==> (s + [c])[i] == s[i];
  }

  /** `s` is `r` with blank text cut from its front (the first `k` characters) and from its end. */
  predicate IsBlankAround(s: string, r: string, k: int)
  {
    0 <= k <= |s| - |r| && r == s[k..k + |r|] && IsBlank(s[..k]) && IsBlank(s[k + |r|..])
  }

  /** `s.trim()`. */
  function Trim(s: string): (r: string)
    ensures r != [] ==> !IsWhiteSpace(r[0]) && !IsWhiteSpace(r[|r| - 1])
    ensures exists k :: IsBlankAround(s, r, k)
  {
    var t := TrimStart(s);
    var r := TrimEnd(t);
    BlankAroundCuts(s, t, r);
    r
  }

  /** Cutting blank text from the front of `s`, giving `t`, then from the end of `t`, giving `r`, cuts blank text around `r`. */
  lemma BlankAroundCuts(s: string, t: string, r: string)
    requires |t| <= |s| && t == s[|s| - |t|..] && IsBlank(s[..|s| - |t|])
    requires |r| <= |t| && r == t[..|r|] && IsBlank(t[|r|..])
    ensures IsBlankAround(s, r, |s| - |t|)
    ensures r != [] ==> r[0] == t[0]
  {
    var k := |s| - |t|;
    assert s[k..k + |r|] == t[..|r|];
    assert s[k + |r|..] == t[|r|..];
  }

  /** `!s.trim()` holds exactly for the texts made only of white space (the empty text included). */
  lemma TrimEmptyIffBlank(s: string)
    ensures Trim(s) == [] <==> IsBlank(s)
  {
    var t := TrimStart(s);
    assert s == s[..|s| - |t|] + t;
    assert t[0..] == t;
  }

  /** `s.split('\n')[0]`: the text before the first line feed. */
  function FirstLine(s: string): (r: string)
    ensures |r| <= |s| && r == s[..|r|]
    ensures '\n' !in r
    ensures |r| < |s| ==> s[|r|] == '\n'
  {
    if s == [] || s[0] == '\n' then [] else [s[0]] + FirstLine(s[1..])
  }

  /** `v.toString(16)` for a nibble: one lower-case hexadecimal digit. */
  function HexDigit(v: int): (c: char)
    requires 0 <= v < 16
    ensures IsLowerHex(c)
  {
    "0123456789abcdef"[v]
  }

  predicate IsLowerHex(c: char) { '0' <= c <= '9' || 'a' <= c <= 'f' }
}
