/** The JavaScript primitive values that the brewing log's cells receive, and the
    language operations its renderers apply to them: ToBoolean (`!value`), loose
    equality with the empty string (`value == ""`), String(value) and ToInt32
    (the operand conversion of `>>` and `&`), as ECMA-262 defines them. */
module JsValues {

  /** A Number. A finite one is written as the decimal m * 10^e; the model takes that
      decimal to be the shortest one that denotes the double, which every literal
      in the normal range of doubles with at most fifteen significant digits is. -0 and +0 are both Finite(0, _). */
  datatype Number = NaN | Infinity(negative: bool) | Finite(m: int, e: int)

  /** The primitive values a record field can hold. */
  datatype JsValue = Undefined | Null | Bool(b: bool) | Num(n: Number) | Str(s: string)

  /** The exception a render can throw. */
  datatype JsError = TypeError

  /** The outcome of evaluating a JavaScript expression: a value, or a thrown error. */
  datatype Completion<T> = Normal(value: T) | Throw(error: JsError)

  function Pow10(k: nat): (p: nat)
    ensures p >= 1
  {
    if k == 0 then 1 else 10 * Pow10(k - 1)
  }

  function Pow2(k: nat): (p: nat)
    ensures p >= 1
  {
    if k == 0 then 1 else 2 * Pow2(k - 1)
  }

  const TwoTo31: int := 0x8000_0000
  const TwoTo32: int := 0x1_0000_0000

  predicate IsZero(n: Number) {
    n.Finite? && n.m == 0
  }

  /** Numeric equality of two Numbers (IsStrictlyEqual on Numbers): NaN equals nothing,
      +0 equals -0, and two decimals are equal when they denote the same rational. */
  predicate NumberEquals(x: Number, y: Number) {
    match (x, y)
    case (Finite(m1, e1), Finite(m2, e2)) =>
      var e := if e1 <= e2 then e1 else e2;
      m1 * Pow10(e1 - e) == m2 * Pow10(e2 - e)
    case (Infinity(n1), Infinity(n2)) => n1 == n2
    case _ => false
  }

  /** ToNumber of a Boolean. */
  function BoolToNumber(b: bool): Number {
    if b then Finite(1, 0) else Finite(0, 0)
  }

  /** ToNumber(""): the empty string converts to +0. */
  const EmptyStringToNumber: Number := Finite(0, 0)

  /** ToBoolean: the value is truthy (`!value` is false). The falsy values are exactly
      null and undefined, the values loosely equal to "", and NaN. */
  predicate Truthy(v: JsValue)
    ensures !Truthy(v) <==> IsNullish(v) || LooselyEqualsEmptyString(v) || v == Num(NaN)
  {
    match v
    case Undefined => false
    case Null => false
    case Bool(b) => b
    case Num(n) => !n.NaN? && !IsZero(n)
    case Str(s) => s != ""
  }

  /** `v == null`: loose equality with null holds of null and undefined only, and no
      such value is loosely equal to "" as well. */
  predicate IsNullish(v: JsValue)
    ensures IsNullish(v) ==> !LooselyEqualsEmptyString(v)
  {
    v.Undefined? || v.Null?
  }

  /** `v == ""`, IsLooselyEqual(v, "") of ECMA-262: a string is compared as it is, a
      Number with ToNumber(""), a Boolean is first converted to a Number, and null
      and undefined equal no string. So it holds exactly for "", false and the zeros. */
  predicate LooselyEqualsEmptyString(v: JsValue)
    ensures LooselyEqualsEmptyString(v) <==>
      v == Str("") || v == Bool(false) || (v.Num? && IsZero(v.n))
  {
    match v
    case Str(s) => s == ""
    case Num(n) => NumberEqualsZero(n); NumberEquals(n, EmptyStringToNumber)
    case Bool(b) => NumberEquals(BoolToNumber(b), EmptyStringToNumber)
    case Undefined => false
    case Null => false
  }

  /** A Number equals zero exactly when its decimal significand is zero. */
  lemma NumberEqualsZero(n: Number)
    ensures NumberEquals(n, Finite(0, 0)) <==> IsZero(n)
  {
    if n.Finite? {
      var e := if n.e <= 0 then n.e else 0;
      var p := Pow10(n.e - e);
      assert NumberEquals(n, Finite(0, 0)) <==> n.m * p == 0;
      if n.m != 0 {
        assert p >= 1;
        assert n.m * p != 0 by {
          if n.m > 0 { assert n.m * p >= n.m * 1; } else { assert n.m * p <= n.m * 1; }
        }
      }
    }
  }

  predicate IsDecimalDigit(c: char) {
    '0' <= c <= '9'
  }

  function DigitChar(d: nat): (c: char)
    requires d < 10
    ensures IsDecimalDigit(c) && (c as int) - ('0' as int) == d
  {
    "0123456789"[d]
  }

  /** The decimal numeral of n, without leading zeros. */
  function Digits(n: nat): (s: string)
    ensures |s| >= 1 && IsDecimalDigit(s[0])
    ensures forall i :: 0 <= i < |s| ==> IsDecimalDigit(s[i])
    decreases n
  {
    if n < 10 then [DigitChar(n)] else Digits(n / 10) + [DigitChar(n % 10)]
  }

  function Zeros(k: nat): (s: string)
    ensures |s| == k && forall i :: 0 <= i < k ==> s[i] == '0'
  {
    seq(k, _ => '0')
  }

  /** A positive integer split into its significand without trailing zeros and the
      number of zeros taken off. */
  function StripZeros(m: nat): (st: (nat, nat))
    requires m > 0
    ensures st.0 > 0 && st.0 % 10 != 0
    ensures st.0 * Pow10(st.1) == m
    decreases m
  {
    if m % 10 == 0 then
      var (s, t) := StripZeros(m / 10);
      assert s * Pow10(t + 1) == 10 * (s * Pow10(t));
      (s, t + 1)
    else
      (m, 0)
  }

  /** Number::toString(x, 10) for the positive value m * 10^e: with s the significand
      (k digits) and n such that the value is s * 10^(n - k), an integer below 10^21
      is written out, a value of at least 10^-6 below that is written with a decimal
      point, and anything else in exponential form. */
  function PositiveToString(m: nat, e: int): (r: string)
    requires m > 0
    ensures |r| > 0 && IsDecimalDigit(r[0])
  {
    var (s, t) := StripZeros(m);
    var digits := Digits(s);
    var k := |digits|;
    var n := k + e + t;
    if k <= n <= 21 then
      digits + Zeros(n - k)
    else if 0 < n <= 21 then
      digits[..n] + "." + digits[n..]
    else if -6 < n <= 0 then
      "0." + Zeros(-n) + digits
    else
      var exponent := n - 1;
      var expPart := "e" + (if exponent >= 0 then "+" else "-")
                         + Digits(if exponent >= 0 then exponent else -exponent);
      if k == 1 then digits + expPart
      else digits[..1] + "." + digits[1..] + expPart
  }

  /** Number::toString(x, 10), the String of a Number: never empty and never a lone
      minus sign. */
  function NumberToString(x: Number): (r: string)
    ensures |r| > 0 && r != "-"
  {
    match x
    case NaN => "NaN"
    case Infinity(negative) => if negative then "-Infinity" else "Infinity"
    case Finite(m, e) =>
      if m == 0 then "0"
      else if m < 0 then
        var p := PositiveToString(-m, e);
        assert |"-" + p| > 1;
        "-" + p
      else PositiveToString(m, e)
  }

  /** String(v) for a primitive value; a string is returned as it is, and no other
      value converts to the empty string or to "-". */
  function ToJsString(v: JsValue): (r: string)
    ensures v.Str? ==> r == v.s
    ensures !v.Str? ==> |r| > 0 && r != "-"
  {
    match v
    case Undefined => "undefined"
    case Null => "null"
    case Bool(b) => if b then "true" else "false"
    case Num(n) => NumberToString(n)
    case Str(s) => s
  }

  /** Multiplying by ten appends '0' to the numeral. */
  lemma DigitsTimesTen(q: nat)
    requires q > 0
    ensures Digits(q * 10) == Digits(q) + ['0']
  {
    assert (q * 10) / 10 == q && (q * 10) % 10 == 0;
  }

  lemma Pow10Step(s: nat, t: nat)
    requires t > 0
    ensures s * Pow10(t) == (s * Pow10(t - 1)) * 10
  {
    assert Pow10(t) == 10 * Pow10(t - 1);
  }

  /** Multiplying by 10^t appends t zeros to the numeral. */
  lemma {:induction false} DigitsShift(s: nat, t: nat)
    requires s > 0
    ensures Digits(s * Pow10(t)) == Digits(s) + Zeros(t)
  {
    if t > 0 {
      var q := s * Pow10(t - 1);
      assert q >= 1 by { assert Pow10(t - 1) >= 1; }
      Pow10Step(s, t);
      DigitsTimesTen(q);
      DigitsShift(s, t - 1);
      assert Zeros(t - 1) + ['0'] == Zeros(t);
      calc {
        Digits(s * Pow10(t));
        Digits(q * 10);
        Digits(q) + ['0'];
        (Digits(s) + Zeros(t - 1)) + ['0'];
        Digits(s) + (Zeros(t - 1) + ['0']);
      }
    }
  }

  /** A numeral has d digits exactly when the number lies in [10^(d-1), 10^d). */
  lemma {:induction false} DigitsLength(n: nat)
    ensures n < Pow10(|Digits(n)|)
    ensures n >= 10 ==> n >= Pow10(|Digits(n)| - 1)
    decreases n
  {
    if n >= 10 {
      DigitsLength(n / 10);
    }
  }

  /** A positive integer below 10^d has at most d digits. */
  lemma DigitsAtMost(a: nat, d: nat)
    requires 0 < a < Pow10(d)
    ensures |Digits(a)| <= d
  {
    DigitsLength(a);
    if |Digits(a)| > d && a >= 10 {
      Pow10Monotone(d, |Digits(a)| - 1);
    }
  }

  lemma PositiveIntegerToString(a: nat)
    requires 0 < a < Pow10(21)
    ensures PositiveToString(a, 0) == Digits(a)
  {
    var (s, t) := StripZeros(a);
    DigitsShift(s, t);
    assert Digits(a) == Digits(s) + Zeros(t);
    DigitsAtMost(a, 21);
  }

  /** An integer below 10^21 in magnitude is written out as its plain decimal numeral. */
  lemma IntegerToString(i: int)
    requires -(Pow10(21) as int) < i < Pow10(21)
    ensures NumberToString(Finite(i, 0)) ==
      if i == 0 then "0" else if i < 0 then "-" + Digits(-i) else Digits(i)
  {
    if i > 0 {
      PositiveIntegerToString(i);
      PositiveNumberToString(i, 0);
    } else if i < 0 {
      PositiveIntegerToString(-i);
      NegativeNumberToString(i, 0);
    }
  }

  lemma PositiveNumberToString(m: int, e: int)
    requires m > 0
    ensures NumberToString(Finite(m, e)) == PositiveToString(m, e)
  {
  }

  lemma NegativeNumberToString(m: int, e: int)
    requires m < 0
    ensures NumberToString(Finite(m, e)) == "-" + PositiveToString(-m, e)
  {
  }

  lemma {:induction false} Pow10Monotone(j: nat, k: nat)
    requires j <= k
    ensures Pow10(j) <= Pow10(k)
    decreases k
  {
    if j < k {
      Pow10Monotone(j, k - 1);
    }
  }

  /** Truncation of a finite Number toward zero. */
  function Truncate(m: int, e: int): int {
    if e >= 0 then m * Pow10(e)
    else if m >= 0 then m / Pow10(-e)
    else -((-m) / Pow10(-e))
  }

  /** ToInt32: NaN and the infinities become 0; a finite value is truncated toward zero
      and wrapped to the signed 32-bit range. */
  function ToInt32(x: Number): (r: int)
    ensures -TwoTo31 <= r < TwoTo31
    ensures x.Finite? ==> (r - Truncate(x.m, x.e)) % TwoTo32 == 0
    ensures !x.Finite? ==> r == 0
  {
    match x
    case Finite(m, e) =>
      var i := Truncate(m, e) % TwoTo32;
      if i >= TwoTo31 then i - TwoTo32 else i
    case _ => 0
  }

  /** An integer that already fits in 31 bits is unchanged by ToInt32. */
  lemma ToInt32Small(i: nat)
    requires i < TwoTo31
    ensures ToInt32(Finite(i, 0)) == i
  {
  }
}
