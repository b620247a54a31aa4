/** The Python values an instance can hold, reduced to three tags: `str`,
    `int` and `float`. A float is carried as the decimal value
    `mantissa * 10^-exponent` of its shortest round-trip representation, so
    that `str` and `==` need no floating-point arithmetic. `==` compares
    these decimal values. For an int against a float this agrees with
    Python's comparison of the binary value when the float's magnitude is
    below 2^53: there, a float whose value is a whole number has that whole
    number as its shortest text, and a float whose value is not whole
    equals no int, in Python or here. */
module Values {
  import opened Text

  /** The runtime types that a `__types__` declaration can name. */
  datatype PyType = StrType | IntType | FloatType

  datatype Value = Str(s: string) | Int(i: int) | Float(mantissa: int, exponent: nat)

  /** `type(v)`. */
  function TypeOf(v: Value): PyType {
    match v
    case Str(_) => StrType
    case Int(_) => IntType
    case Float(_, _) => FloatType
  }

  /** `isinstance(v, t)` over the three tags (no subclassing among them). */
  predicate IsInstance(v: Value, t: PyType) {
    TypeOf(v) == t
  }

  /** `t.__name__`. */
  function TypeName(t: PyType): string {
    match t
    case StrType => "str"
    case IntType => "int"
    case FloatType => "float"
  }

  function Pow10(e: nat): (r: nat)
    ensures r >= 1
  {
    if e == 0 then 1 else 10 * Pow10(e - 1)
  }

  /** `str(i)` for an int: an optional '-' and the decimal digits. */
  function ShowInt(i: int): (r: string)
    ensures |r| > 0 && NumericText(r) && '.' !in r
    ensures r[0] == '-' <==> i < 0
  {
    if i < 0 then "-" + NatStr(-i) else NatStr(i)
  }

  /** Drops trailing '0' characters. */
  function TrimZeros(s: string): string {
    if |s| > 0 && s[|s| - 1] == '0' then TrimZeros(s[..|s| - 1]) else s
  }

  /** Left-pads a digit string with '0' up to width `w`. */
  function PadZeros(s: string, w: nat): string
    decreases w - |s|
  {
    if |s| >= w then s else PadZeros("0" + s, w)
  }

  /** `str(f)` for a float in positional notation: the sign, the integer
      digits, a point, and the fraction digits. */
  function ShowFloat(m: int, e: nat): (r: string)
    ensures |r| > 0 && NumericText(r) && '.' in r
    ensures r[0] == '-' <==> m < 0
  {
    var (istr, digits) := FloatDigits(if m < 0 then -m else m, e);
    var sign := if m < 0 then "-" else "";
    NumericConcat(sign, istr);
    NumericConcat(sign + istr, ".");
    NumericConcat(sign + istr + ".", digits);
    assert (sign + istr + "." + digits)[|sign + istr|] == '.';
    sign + istr + "." + digits
  }

  /** The integer digits and the fraction digits of `a * 10^-e`: the
      fraction has no trailing zeros, and is "0" when there is none. */
  function FloatDigits(a: nat, e: nat): (r: (string, string))
    ensures AllDigits(r.0) && AllDigits(r.1) && |r.0| > 0 && |r.1| > 0
  {
    var (ip, fp) := SplitDecimal(a, e);
    (NatStr(ip), FractionDigits(fp, e))
  }

  /** The fraction `fp * 10^-e` as digits after the point: padded to `e`
      places, trailing zeros dropped, "0" when nothing is left. */
  function FractionDigits(fp: nat, e: nat): (r: string)
    ensures AllDigits(r) && |r| > 0
  {
    var padded := PadZeros(NatStr(fp), e);
    PadZerosDigits(NatStr(fp), e);
    TrimZerosDigits(padded);
    var frac := TrimZeros(padded);
    if frac == "" then "0" else frac
  }

  /** The integer part and the fraction digits (as a number) of `a * 10^-e`. */
  function SplitDecimal(a: nat, e: nat): (r: (nat, nat))
    ensures r.0 * Pow10(e) + r.1 == a && r.1 < Pow10(e)
  {
    if e == 0 then (a, 0)
    else
      var (ip, fp) := SplitDecimal(a / 10, e - 1);
      assert ip * Pow10(e) == 10 * (ip * Pow10(e - 1));
      (ip, fp * 10 + a % 10)
  }

  /** `"%s" % v`: a string shows as itself; a number as its decimal text,
      which carries a point exactly when the number is a float. */
  function Show(v: Value): (r: string)
    ensures v.Str? ==> r == v.s
    ensures !v.Str? ==> |r| > 0 && NumericText(r) && ('.' in r <==> v.Float?)
  {
    match v
    case Str(s) => s
    case Int(i) => ShowInt(i)
    case Float(m, e) => ShowFloat(m, e)
  }

  /** Python's `a == b`: strings by content; ints and floats by numeric value,
      across the two types; a string never equals a number. */
  function PyEq(a: Value, b: Value): (r: bool)
    ensures a.Str? || b.Str? ==> (r <==> a == b)
    ensures a.Int? && b.Int? ==> (r <==> a == b)
  {
    match (a, b)
    case (Str(s), Str(t)) => s == t
    case (Int(i), Int(j)) => i == j
    case (Int(i), Float(m, e)) => m == i * Pow10(e)
    case (Float(m, e), Int(j)) => m == j * Pow10(e)
    case (Float(m1, e1), Float(m2, e2)) => m1 * Pow10(e2) == m2 * Pow10(e1)
    case _ => false
  }

  /** The number an int or float value stands for, as an exact rational. */
  function NumValue(v: Value): real
    requires !v.Str?
  {
    match v
    case Int(i) => i as real
    case Float(m, e) => m as real / Pow10(e) as real
  }

  /** Between numbers, `==` is equality of the values they stand for, across
      int and float alike. */
  lemma PyEqNumeric(a: Value, b: Value)
    requires !a.Str? && !b.Str?
    ensures PyEq(a, b) <==> NumValue(a) == NumValue(b)
  {
    match (a, b)
    case (Int(i), Int(j)) =>
    case (Int(i), Float(m, e)) =>
      IntFloatEq(i, m, Pow10(e));
    case (Float(m, e), Int(j)) =>
      IntFloatEq(j, m, Pow10(e));
    case (Float(m1, e1), Float(m2, e2)) =>
      FloatFloatEq(m1, Pow10(e1), m2, Pow10(e2));
  }

  lemma IntFloatEq(i: int, m: int, p: nat)
    requires p > 0
    ensures m == i * p <==> i as real == m as real / p as real
  {
    DivEq(m as real, p as real, i as real);
    MulCast(i, p);
  }

  lemma FloatFloatEq(m1: int, p1: nat, m2: int, p2: nat)
    requires p1 > 0 && p2 > 0
    ensures m1 * p2 == m2 * p1 <==> m1 as real / p1 as real == m2 as real / p2 as real
  {
    DivDivEq(m1 as real, p1 as real, m2 as real, p2 as real);
    MulCast(m1, p2);
    MulCast(m2, p1);
  }

  lemma DivEq(x: real, p: real, y: real)
    requires p > 0.0
    ensures x / p == y <==> x == y * p
  {
  }

  lemma DivDivEq(x: real, p: real, y: real, q: real)
    requires p > 0.0 && q > 0.0
    ensures x / p == y / q <==> x * q == y * p
  {
    assert x / p == y / q <==> (x / p) * (p * q) == (y / q) * (p * q);
    assert (x / p) * (p * q) == x * q;
    assert (y / q) * (p * q) == y * p;
  }

  lemma MulCast(a: int, b: int)
    ensures (a * b) as real == a as real * b as real
  {
  }

  lemma PyEqReflexive(a: Value)
    ensures PyEq(a, a)
  {
  }

  lemma PyEqSymmetric(a: Value, b: Value)
    ensures PyEq(a, b) <==> PyEq(b, a)
  {
  }

  /** The text of an int reads back as that int. */
  lemma {:induction false} ShowIntRoundTrip(i: int)
    ensures var s := ShowInt(i);
      if i < 0 then s[0] == '-' && AllDigits(s[1..]) && ParseNat(s[1..]) == -i
      else AllDigits(s) && ParseNat(s) == i
  {
    if i < 0 {
      ParseNatStr(-i);
      assert ShowInt(i)[1..] == NatStr(-i);
    } else {
      ParseNatStr(i);
    }
  }

  lemma {:induction false} TrimZerosDigits(s: string)
    requires AllDigits(s)
    ensures AllDigits(TrimZeros(s))
    decreases |s|
  {
    if |s| > 0 && s[|s| - 1] == '0' {
      TrimZerosDigits(s[..|s| - 1]);
    }
  }

  lemma {:induction false} PadZerosDigits(s: string, w: nat)
    requires AllDigits(s)
    ensures AllDigits(PadZeros(s, w))
    decreases w - |s|
  {
    if |s| < w {
      PadZerosDigits("0" + s, w);
    }
  }

  /** Only digits, signs and points: the characters of a number's text. */
  predicate NumericText(s: string) {
    forall k :: 0 <= k < |s| ==> IsDigit(s[k]) || s[k] == '-' || s[k] == '.'
  }

  lemma NumericConcat(a: string, b: string)
    requires NumericText(a) && NumericText(b)
    ensures NumericText(a + b)
  {
    forall k | 0 <= k < |a + b|
      ensures IsDigit((a + b)[k]) || (a + b)[k] == '-' || (a + b)[k] == '.'
    {
      if k >= |a| {
        assert (a + b)[k] == b[k - |a|];
      }
    }
  }

  /** The text of a float reads back as the float: with the point removed,
      its digits read as a number `n` with `k` digits after the point, and
      `n / 10^k` is `|m| / 10^e`. */
  lemma ShowFloatReadsBack(m: int, e: nat)
    ensures var r := ShowFloat(m, e);
      ReadsAs(if m < 0 then r[1..] else r, if m < 0 then -m else m, e)
  {
    var a: nat := if m < 0 then -m else m;
    var d := FloatDigits(a, e);
    FloatDigitsValue(a, e);
    ShowFloatBody(m, e);
    PointSplit(d.0 + "." + d.1, d.0, d.1, a, e);
  }

  /** `body` is digits, a point at some `k` and digits, and reading the
      digits without the point, `k` places from the end, gives `a / 10^e`. */
  ghost predicate ReadsAs(body: string, a: nat, e: nat)
  {
    exists k :: 0 <= k < |body| && body[k] == '.'
      && AllDigits(body[..k]) && AllDigits(body[k + 1..])
      && ParseNat(body[..k] + body[k + 1..]) * Pow10(e) == a * Pow10(|body| - k - 1)
  }

  /** Digits, a point and digits: the point is found at the end of the
      integer digits, and reading around it gives back the value. */
  lemma PointSplit(body: string, istr: string, digits: string, a: nat, e: nat)
    requires body == istr + "." + digits
    requires AllDigits(istr) && AllDigits(digits)
    requires AllDigits(istr + digits)
    requires ParseNat(istr + digits) * Pow10(e) == a * Pow10(|digits|)
    ensures ReadsAs(body, a, e)
  {
    var k := |istr|;
    assert body[..k] == istr;
    assert body[k + 1..] == digits;
    assert body[k] == '.';
    assert body[..k] + body[k + 1..] == istr + digits;
    assert |body| - k - 1 == |digits|;
    ReadsAtPoint(body, k, a, e);
  }

  lemma ReadsAtPoint(body: string, k: nat, a: nat, e: nat)
    requires k < |body| && body[k] == '.'
    requires AllDigits(body[..k]) && AllDigits(body[k + 1..]) && AllDigits(body[..k] + body[k + 1..])
    requires ParseNat(body[..k] + body[k + 1..]) * Pow10(e) == a * Pow10(|body| - k - 1)
    ensures ReadsAs(body, a, e)
  {
  }

  /** Without its sign, a float's text is its integer digits, a point and
      its fraction digits. */
  lemma ShowFloatBody(m: int, e: nat)
    ensures var r := ShowFloat(m, e);
      var d := FloatDigits(if m < 0 then -m else m, e);
      (if m < 0 then r[1..] else r) == d.0 + "." + d.1
  {
    var d := FloatDigits(if m < 0 then -m else m, e);
    var sign := if m < 0 then "-" else "";
    assert ShowFloat(m, e) == sign + d.0 + "." + d.1;
    if m < 0 {
      assert (sign + d.0 + "." + d.1)[1..] == d.0 + "." + d.1;
    }
  }

  /** The digits of `a * 10^-e` stand for that number: read without the
      point, they are `a` scaled to the number of fraction digits. */
  lemma FloatDigitsValue(a: nat, e: nat)
    ensures var r := FloatDigits(a, e);
      ParseNat(r.0 + r.1) * Pow10(e) == a * Pow10(|r.1|)
  {
    var (ip, fp) := SplitDecimal(a, e);
    var digits := FractionDigits(fp, e);
    FractionDigitsValue(fp, e);
    ParseNatConcat(NatStr(ip), digits);
    ParseNatStr(ip);
    Rescale(a, ip, fp, ParseNat(digits), Pow10(e), Pow10(|digits|));
  }

  /** The fraction digits stand for `fp * 10^-e`, for `fp < 10^e`. */
  lemma FractionDigitsValue(fp: nat, e: nat)
    requires fp < Pow10(e)
    ensures ParseNat(FractionDigits(fp, e)) * Pow10(e) == fp * Pow10(|FractionDigits(fp, e)|)
  {
    var padded := PadZeros(NatStr(fp), e);
    PadZerosValue(NatStr(fp), e);
    ParseNatStr(fp);
    TrimZerosValue(padded);
    var frac := TrimZeros(padded);
    var digits := FractionDigits(fp, e);
    if fp > 0 {
      NatStrLength(fp, e);
    }
    FractionScale(fp, ParseNat(frac), ParseNat(digits), Pow10(e), Pow10(|padded|), Pow10(|frac|), Pow10(|digits|),
                  frac == "", |padded| == e);
  }

  /** The arithmetic of the fraction digits: `fp` padded to `e` digits, then
      trimmed to `f` (value `x`), then shown as `d` ("0" when `f` is empty). */
  lemma FractionScale(fp: nat, x: nat, d: nat, pe: nat, ppad: nat, pf: nat, pd: nat,
                      fracEmpty: bool, padIsE: bool)
    requires pe >= 1 && ppad >= 1
    requires fp * pf == x * ppad
    requires fracEmpty ==> x == 0 && pf == 1 && d == 0
    requires !fracEmpty ==> d == x && pd == pf
    requires fp > 0 ==> padIsE
    requires padIsE ==> ppad == pe
    ensures d * pe == fp * pd
  {
    if fracEmpty {
      assert fp == 0;
    } else if fp == 0 {
      assert x * ppad == 0;
      ZeroFactor(x, ppad);
    }
  }

  lemma ZeroFactor(x: nat, p: nat)
    requires p >= 1 && x * p == 0
    ensures x == 0
  {
  }

  lemma Rescale(a: nat, ip: nat, fp: nat, d: nat, p: nat, q: nat)
    requires ip * p + fp == a && d * p == fp * q
    ensures (ip * q + d) * p == a * q
  {
    calc {
      (ip * q + d) * p;
      ip * q * p + d * p;
      { assert ip * q * p == ip * p * q; }
      ip * p * q + fp * q;
      (ip * p + fp) * q;
    }
  }

  /** Reading the digits `x + y` reads `x` shifted left by the length of `y`. */
  lemma {:induction false} ParseNatConcat(x: string, y: string)
    requires AllDigits(x) && AllDigits(y)
    ensures AllDigits(x + y)
    ensures ParseNat(x + y) == ParseNat(x) * Pow10(|y|) + ParseNat(y)
    decreases |y|
  {
    var s := x + y;
    forall k | 0 <= k < |s|
      ensures IsDigit(s[k])
    {
      if k >= |x| {
        assert s[k] == y[k - |x|];
      }
    }
    if |y| == 0 {
      assert s == x;
    } else {
      var y' := y[..|y| - 1];
      assert s[..|s| - 1] == x + y';
      assert s[|s| - 1] == y[|y| - 1];
      ParseNatConcat(x, y');
      assert Pow10(|y|) == 10 * Pow10(|y'|);
      assert ParseNat(y) == 10 * ParseNat(y') + DigitValue(y[|y| - 1]);
      ShiftDigit(ParseNat(x), Pow10(|y'|), ParseNat(y'), DigitValue(y[|y| - 1]));
    }
  }

  lemma ShiftDigit(a: nat, p: nat, b: nat, d: nat)
    ensures 10 * (a * p + b) + d == a * (10 * p) + (10 * b + d)
  {
  }

  /** Left-padding with zeros keeps the value; the width becomes `w` unless
      the digits are already wider. */
  lemma {:induction false} PadZerosValue(s: string, w: nat)
    requires AllDigits(s)
    ensures AllDigits(PadZeros(s, w))
    ensures ParseNat(PadZeros(s, w)) == ParseNat(s)
    ensures |PadZeros(s, w)| == if |s| >= w then |s| else w
    decreases w - |s|
  {
    PadZerosDigits(s, w);
    if |s| < w {
      ParseNatConcat("0", s);
      PadZerosValue("0" + s, w);
    }
  }

  /** Dropping trailing zeros keeps the value of the digits as a fraction:
      `s / 10^|s|` is unchanged. */
  lemma {:induction false} TrimZerosValue(s: string)
    requires AllDigits(s)
    ensures AllDigits(TrimZeros(s))
    ensures ParseNat(s) * Pow10(|TrimZeros(s)|) == ParseNat(TrimZeros(s)) * Pow10(|s|)
    decreases |s|
  {
    TrimZerosDigits(s);
    if |s| > 0 && s[|s| - 1] == '0' {
      var t := s[..|s| - 1];
      TrimZerosValue(t);
      var u := TrimZeros(t);
      assert ParseNat(s) == 10 * ParseNat(t);
      assert Pow10(|s|) == 10 * Pow10(|t|);
      TimesTen(ParseNat(t), Pow10(|u|), ParseNat(u), Pow10(|t|));
    }
  }

  lemma TimesTen(a: nat, p: nat, b: nat, q: nat)
    requires a * p == b * q
    ensures (10 * a) * p == b * (10 * q)
  {
  }

  /** A positive number below `10^e` has at most `e` digits. */
  lemma {:induction false} NatStrLength(n: nat, e: nat)
    requires 0 < n < Pow10(e)
    ensures |NatStr(n)| <= e
    decreases n
  {
    assert e >= 1;
    if n >= 10 {
      assert n / 10 < Pow10(e - 1);
      NatStrLength(n / 10, e - 1);
    }
  }

  /** The text of a number never contains the ", " separator, so it cannot be
      confused with the field separator of a rendered instance. */
  lemma ShowNumberHasNoSep(v: Value)
    requires !v.Str?
    ensures !ContainsSep(Show(v))
  {
    var s := Show(v);
    forall k | 0 <= k < |s|
      ensures !SepAt(s, k)
    {
    }
  }
}
