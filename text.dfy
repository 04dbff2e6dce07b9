/**
 * Character classes, stripping and number syntax as Python's `str` methods,
 * `re` module and `float()` see them. Shared by both analysis scripts.
 */
module Text {
  import opened Wrappers

  /** `str.isspace`: the characters `str.strip`, `float()` and the regex class `\s` skip. */
  predicate IsSpace(c: char) {
    || ('\t' <= c <= '\r')
    || ('\U{1C}' <= c <= '\U{1F}')
    || c == ' ' || c == '\U{85}' || c == '\U{A0}' || c == '\U{1680}'
    || ('\U{2000}' <= c <= '\U{200A}')
    || c == '\U{2028}' || c == '\U{2029}' || c == '\U{202F}' || c == '\U{205F}' || c == '\U{3000}'
  }

  /** The regex class `\d`, restricted to ASCII digits. */
  predicate IsDigit(c: char) { '0' <= c <= '9' }

  /** The regex class `\w`, restricted to ASCII letters, digits and underscore. */
  predicate IsWordChar(c: char) { ('a' <= c <= 'z') || ('A' <= c <= 'Z') || IsDigit(c) || c == '_' }

  /** A nonempty run of `\w`, such as a level or a system call name. */
  predicate WordText(w: string) { w != [] && forall k :: 0 <= k < |w| ==> IsWordChar(w[k]) }

  predicate AllDigits(s: string) { forall i :: 0 <= i < |s| ==> IsDigit(s[i]) }

  /** `w` occurs in `s` at position `i`. */
  predicate StartsAt(s: string, i: nat, w: string) {
    i + |w| <= |s| && s[i..i + |w|] == w
  }

  /** `s.endswith(w)`. */
  predicate EndsWith(s: string, w: string) {
    |w| <= |s| && s[|s| - |w|..] == w
  }

  /** End of the longest run of characters satisfying `p` that starts at `i`: a greedy `[...]*`. */
  function RunEnd(s: string, i: nat, p: char -> bool): (j: nat)
    requires i <= |s|
    ensures i <= j <= |s|
    decreases |s| - i
  {
    if i == |s| || !p(s[i]) then i else RunEnd(s, i + 1, p)
  }

  /** The run is made of `p` characters and cannot be extended: it is the longest one. */
  lemma {:induction false} RunEndSpec(s: string, i: nat, p: char -> bool)
    requires i <= |s|
    ensures var j := RunEnd(s, i, p);
      && (forall k :: i <= k < j ==> p(s[k]))
      && (j == |s| || !p(s[j]))
    decreases |s| - i
  {
    if i < |s| && p(s[i]) {
      RunEndSpec(s, i + 1, p);
    }
  }

  /** Index of the first character satisfying `p`, or `|s|` when there is none. */
  function FindFirst(s: string, p: char -> bool): (k: nat)
    ensures k <= |s|
    ensures forall i :: 0 <= i < k ==> !p(s[i])
    ensures k < |s| ==> p(s[k])
  {
    if s == [] then 0 else if p(s[0]) then 0 else 1 + FindFirst(s[1..], p)
  }

  /** `s.lstrip()`. */
  function LStrip(s: string): (r: string)
    ensures |r| <= |s| && r == s[|s| - |r|..]
    ensures forall i :: 0 <= i < |s| - |r| ==> IsSpace(s[i])
    ensures r == [] || !IsSpace(r[0])
  {
    if s != [] && IsSpace(s[0]) then LStrip(s[1..]) else s
  }

  /** `s.rstrip()`. */
  function RStrip(s: string): (r: string)
    ensures |r| <= |s| && r == s[..|r|]
    ensures forall i :: |r| <= i < |s| ==> IsSpace(s[i])
    ensures r == [] || !IsSpace(r[|r| - 1])
  {
    if s != [] && IsSpace(s[|s| - 1]) then RStrip(s[..|s| - 1]) else s
  }

  /** `s.strip()`. */
  function Strip(s: string): string {
    RStrip(LStrip(s))
  }

  function DigitValue(c: char): nat
    requires IsDigit(c)
  {
    c as int - '0' as int
  }

  function DigitChar(d: nat): (c: char)
    requires d < 10
    ensures IsDigit(c) && DigitValue(c) == d
  {
    ('0' as int + d) as char
  }

  function Pow10(n: nat): (p: nat)
    ensures p >= 1
  {
    if n == 0 then 1 else 10 * Pow10(n - 1)
  }

  /** The value of a run of decimal digits, most significant first. */
  function DigitsValue(ds: string): (v: nat)
    requires AllDigits(ds)
    ensures v < Pow10(|ds|)
  {
    if ds == [] then 0 else DigitsValue(ds[..|ds| - 1]) * 10 + DigitValue(ds[|ds| - 1])
  }

  /** Decimal rendering of a natural number, as Rust's `{}` and Python's `str()` print it. */
  function NatText(n: nat): (s: string)
    ensures s != [] && AllDigits(s)
  {
    if n < 10 then [DigitChar(n)] else NatText(n / 10) + [DigitChar(n % 10)]
  }

  /** Reading back a rendered natural number gives the number. */
  lemma {:induction false} NatTextValue(n: nat)
    ensures DigitsValue(NatText(n)) == n
  {
    if n >= 10 {
      var s := NatText(n);
      assert s[..|s| - 1] == NatText(n / 10);
      NatTextValue(n / 10);
    }
  }

  /**
   * A decimal mantissa: digits with at most one point and at least one digit
   * (`12`, `12.`, `.5`, `12.5`). Anything else is not a number.
   */
  function DecimalValue(m: string): (r: Option<real>)
    ensures r.Some? ==> m != [] && (IsDigit(m[|m| - 1]) || m[|m| - 1] == '.')
    ensures r.Some? ==> r.value >= 0.0
  {
    var d := FindFirst(m, IsPoint);
    if d == |m| then
      if m != [] && AllDigits(m) then Some(DigitsValue(m) as real) else None
    else
      var whole := m[..d];
      var frac := m[d + 1..];
      if AllDigits(whole) && AllDigits(frac) && |whole| + |frac| > 0 then
        assert frac != [] ==> m[|m| - 1] == frac[|frac| - 1];
        Some(PointValue(whole, frac))
      else None
  }

  /** The value of `whole.frac`, both runs of digits. */
  function PointValue(whole: string, frac: string): (v: real)
    requires AllDigits(whole) && AllDigits(frac)
    ensures v >= DigitsValue(whole) as real >= 0.0
  {
    DigitsValue(whole) as real + DigitsValue(frac) as real / Pow10(|frac|) as real
  }

  predicate IsPoint(c: char) { c == '.' }

  predicate IsExponentMark(c: char) { c == 'e' || c == 'E' }

  /** An exponent: an optional sign followed by at least one digit. */
  function ExponentValue(t: string): (r: Option<int>)
    ensures r.Some? ==> t != [] && IsDigit(t[|t| - 1])
  {
    if t != [] && (t[0] == '+' || t[0] == '-') then
      var ds := t[1..];
      if ds != [] && AllDigits(ds) then
        assert t[|t| - 1] == ds[|ds| - 1];
        Some(if t[0] == '-' then 0 - DigitsValue(ds) as int else DigitsValue(ds))
      else None
    else if t != [] && AllDigits(t) then Some(DigitsValue(t))
    else None
  }

  /** An unsigned number: a decimal mantissa with an optional exponent. */
  function UnsignedValue(t: string): (r: Option<real>)
    ensures r.Some? ==> t != [] && (IsDigit(t[|t| - 1]) || t[|t| - 1] == '.')
  {
    var e := FindFirst(t, IsExponentMark);
    if e == |t| then DecimalValue(t)
    else
      match (DecimalValue(t[..e]), ExponentValue(t[e + 1..]))
      case (Some(m), Some(x)) =>
        assert t[|t| - 1] == t[e + 1..][|t[e + 1..]| - 1];
        Some(if x >= 0 then m * Pow10(x) as real else m / Pow10(-x) as real)
      case _ => None
  }

  /**
   * Python's `float(s)` on decimal text: surrounding whitespace is ignored, then an
   * optional sign and an unsigned number. `None` stands for the `ValueError` it raises.
   * A number that parses always ends in a digit or a decimal point.
   */
  function ParseFloat(s: string): (r: Option<real>)
    ensures r.Some? ==> var t := Strip(s); t != [] && (IsDigit(t[|t| - 1]) || t[|t| - 1] == '.')
  {
    SignedValue(Strip(s))
  }

  /** An optional sign followed by an unsigned number. */
  function SignedValue(t: string): (r: Option<real>)
    ensures r.Some? ==> t != [] && (IsDigit(t[|t| - 1]) || t[|t| - 1] == '.')
  {
    if t != [] && (t[0] == '+' || t[0] == '-') then
      match UnsignedValue(t[1..])
      case None => None
      case Some(v) =>
        assert t[|t| - 1] == t[1..][|t[1..]| - 1];
        Some(if t[0] == '-' then -v else v)
    else UnsignedValue(t)
  }

  /** Stripping whitespace again changes nothing. */
  lemma LStripIdempotent(s: string)
    ensures LStrip(LStrip(s)) == LStrip(s)
  {
  }

  /** `float()` strips its argument itself, so leading whitespace never matters to it. */
  lemma ParseFloatIgnoresLeadingSpace(s: string)
    ensures ParseFloat(LStrip(s)) == ParseFloat(s)
  {
    LStripIdempotent(s);
    assert Strip(LStrip(s)) == Strip(s);
  }

  /** Leading whitespace of `a` is all that `lstrip` removes from `a + w` when `w` starts with a non-space. */
  lemma {:induction false} LStripAppend(a: string, w: string)
    requires w != [] && !IsSpace(w[0])
    ensures LStrip(a + w) == LStrip(a) + w
  {
    if a != [] {
      assert (a + w)[1..] == a[1..] + w;
      if IsSpace(a[0]) {
        LStripAppend(a[1..], w);
      }
    }
  }

  /** Stripping `t + w`, where `w` begins and ends with non-space characters, strips only `t`'s leading whitespace. */
  lemma StripSuffixed(t: string, w: string)
    requires w != [] && !IsSpace(w[0]) && !IsSpace(w[|w| - 1])
    ensures Strip(t + w) == LStrip(t) + w
  {
    LStripAppend(t, w);
    var x := LStrip(t) + w;
    assert x[|x| - 1] == w[|w| - 1];
    RStripKeeps(x);
  }

  /** Text that ends in a non-space is left alone by `rstrip`. */
  lemma RStripKeeps(x: string)
    requires x != [] && !IsSpace(x[|x| - 1])
    ensures RStrip(x) == x
  {
  }

  predicate IsDigitOrDot(c: char) { IsDigit(c) || c == '.' }

  /** Text made of digits and points (the regex `[\d.]+`) never parses to a negative number. */
  lemma DigitDotTextNonNegative(t: string)
    requires forall i :: 0 <= i < |t| ==> IsDigitOrDot(t[i])
    ensures ParseFloat(t).Some? ==> ParseFloat(t).value >= 0.0
  {
    assert LStrip(t) == t;
    assert RStrip(t) == t;
    assert Strip(t) == t;
    assert FindFirst(t, IsExponentMark) == |t|;
    assert UnsignedValue(t) == DecimalValue(t);
  }

  /** Plain digits read as the number they spell. */
  lemma ParseFloatDigits(s: string)
    requires s != [] && AllDigits(s)
    ensures ParseFloat(s) == Some(DigitsValue(s) as real)
  {
    DigitsStripped(s);
    DigitsUnsigned(s);
  }

  /** Digits have no whitespace to strip. */
  lemma DigitsStripped(s: string)
    requires AllDigits(s)
    ensures Strip(s) == s
  {
    assert LStrip(s) == s;
    assert RStrip(s) == s;
  }

  /** Digits without point or exponent read as the number they spell. */
  lemma DigitsUnsigned(s: string)
    requires s != [] && AllDigits(s)
    ensures UnsignedValue(s) == Some(DigitsValue(s) as real)
  {
    assert FindFirst(s, IsExponentMark) == |s|;
    assert FindFirst(s, IsPoint) == |s|;
  }

  /** A rendered natural number reads back as that number under `float()`. */
  lemma ParseFloatNatText(n: nat)
    ensures ParseFloat(NatText(n)) == Some(n as real)
  {
    NatTextValue(n);
    ParseFloatDigits(NatText(n));
  }

  /** Stripping twice strips nothing more. */
  lemma StripIdempotent(s: string)
    ensures Strip(Strip(s)) == Strip(s)
  {
    var t := Strip(s);
    assert LStrip(t) == t;
  }

  /** `float()` strips its argument itself, so stripping it first changes nothing. */
  lemma ParseFloatStripped(s: string)
    ensures ParseFloat(Strip(s)) == ParseFloat(s)
  {
    StripIdempotent(s);
  }

  /** After `lstrip`, the text ends either in trailing whitespace or in the last character `strip` keeps. */
  lemma LStripLast(s: string)
    requires Strip(s) != []
    ensures var l, t := LStrip(s), Strip(s);
      l != [] && (IsSpace(l[|l| - 1]) || l[|l| - 1] == t[|t| - 1])
  {
    var l, t := LStrip(s), Strip(s);
    assert t == l[..|t|];
    if |t| < |l| {
      assert IsSpace(l[|l| - 1]);
    }
  }

  /** `w` = `a + b` occurs at `i` exactly when `a` does and `b` follows it. */
  lemma StartsAtSplit(s: string, i: nat, a: string, b: string)
    ensures StartsAt(s, i, a + b) <==> StartsAt(s, i, a) && StartsAt(s, i + |a|, b)
  {
    if StartsAt(s, i, a) && StartsAt(s, i + |a|, b) {
      assert s[i..i + |a + b|] == s[i..i + |a|] + s[i + |a|..i + |a| + |b|];
    }
    if StartsAt(s, i, a + b) {
      assert s[i..i + |a|] == s[i..i + |a + b|][..|a|];
      assert s[i + |a|..i + |a| + |b|] == s[i..i + |a + b|][|a|..];
    }
  }

  /** A text occurs at the start of itself followed by anything. */
  lemma StartsAtPrefix(a: string, b: string)
    ensures StartsAt(a + b, 0, a)
  {
    assert (a + b)[..|a|] == a;
  }

  /** A run of `p` characters from `i` that stops at `j` is the longest one. */
  lemma {:induction false} RunEndIs(s: string, i: nat, j: nat, p: char -> bool)
    requires i <= j <= |s|
    requires forall k :: i <= k < j ==> p(s[k])
    requires j == |s| || !p(s[j])
    ensures RunEnd(s, i, p) == j
    decreases j - i
  {
    if i < j {
      RunEndIs(s, i + 1, j, p);
    }
  }

  /** A run of `p` characters from `i` to `j` is covered by the greedy run from `i`. */
  lemma {:induction false} RunEndAtLeast(s: string, i: nat, j: nat, p: char -> bool)
    requires i <= j <= |s|
    requires forall k :: i <= k < j ==> p(s[k])
    ensures j <= RunEnd(s, i, p)
    decreases j - i
  {
    if i < j {
      RunEndAtLeast(s, i + 1, j, p);
    }
  }

  /** An occurrence of a five-part text is five adjacent occurrences of its parts. */
  lemma StartsAtSplit5(s: string, i: nat, a: string, b: string, c: string, d: string, e: string)
    requires StartsAt(s, i, a + b + c + d + e)
    ensures StartsAt(s, i, a) && StartsAt(s, i + |a|, b) && StartsAt(s, i + |a| + |b|, c)
    ensures StartsAt(s, i + |a| + |b| + |c|, d) && StartsAt(s, i + |a| + |b| + |c| + |d|, e)
  {
    StartsAtSplit(s, i, a + b + c + d, e);
    StartsAtSplit(s, i, a + b + c, d);
    StartsAtSplit(s, i, a + b, c);
    StartsAtSplit(s, i, a, b);
  }

  /** Five adjacent occurrences make one occurrence of the five parts joined. */
  lemma StartsAtJoin5(s: string, i: nat, a: string, b: string, c: string, d: string, e: string)
    requires StartsAt(s, i, a) && StartsAt(s, i + |a|, b) && StartsAt(s, i + |a| + |b|, c)
    requires StartsAt(s, i + |a| + |b| + |c|, d) && StartsAt(s, i + |a| + |b| + |c| + |d|, e)
    ensures StartsAt(s, i, a + b + c + d + e)
  {
    StartsAtSplit(s, i, a, b);
    StartsAtSplit(s, i, a + b, c);
    StartsAtSplit(s, i, a + b + c, d);
    StartsAtSplit(s, i, a + b + c + d, e);
  }

  /** One character of an occurrence. */
  lemma StartsAtChar(s: string, i: nat, w: string, k: nat)
    requires StartsAt(s, i, w) && k < |w|
    ensures s[i + k] == w[k]
  {
    assert s[i..i + |w|][k] == s[i + k];
  }

  /** A greedy run over an occurrence of `w`, all of whose characters satisfy `p`, ends right after it when the next character does not. */
  lemma RunOver(s: string, i: nat, w: string, p: char -> bool)
    requires StartsAt(s, i, w)
    requires forall k :: 0 <= k < |w| ==> p(w[k])
    requires i + |w| == |s| || !p(s[i + |w|])
    ensures RunEnd(s, i, p) == i + |w|
  {
    forall k | i <= k < i + |w|
      ensures p(s[k])
    {
      StartsAtChar(s, i, w, k - i);
    }
    RunEndIs(s, i, i + |w|, p);
  }

  // ---------------------------------------------------------------------------
  // Python's ordering of strings

  /** `a < b` on Python strings: code point by code point, with a proper prefix first. */
  predicate StrLt(a: string, b: string)
    decreases |a|
  {
    b != [] && (a == [] || a[0] < b[0] || (a[0] == b[0] && StrLt(a[1..], b[1..])))
  }

  lemma {:induction false} StrLtIrreflexive(a: string)
    ensures !StrLt(a, a)
    decreases |a|
  {
    if a != [] {
      StrLtIrreflexive(a[1..]);
    }
  }

  lemma {:induction false} StrLtTrans(a: string, b: string, c: string)
    requires StrLt(a, b) && StrLt(b, c)
    ensures StrLt(a, c)
    decreases |a|
  {
    if a != [] && a[0] == b[0] && b[0] == c[0] {
      StrLtTrans(a[1..], b[1..], c[1..]);
    }
  }

  /** Two different strings are ordered one way or the other. */
  lemma {:induction false} StrLtTotal(a: string, b: string)
    requires a != b
    ensures StrLt(a, b) || StrLt(b, a)
    decreases |a|
  {
    if a != [] && b != [] && a[0] == b[0] {
      assert a == [a[0]] + a[1..] && b == [b[0]] + b[1..];
      StrLtTotal(a[1..], b[1..]);
    }
  }
}
