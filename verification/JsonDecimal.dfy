/**
 What a number is worth, in terms of the decimal numbers its digits write: the point divides by a one
 followed by zeros, an exponent multiplies or divides by one.
 */
module JsonDecimal {
  import opened Bytes
  import opened JsonDocument
  import JsonNumber

  /** The digit 1 followed by `k` zeros. */
  function OneAndZeros(k: nat): (ds: Bytes)
    ensures |ds| == k + 1 && JsonNumber.Digits(ds) && ds[0] == 0x31 && forall i :: 0 < i <= k ==> ds[i] == 0x30
  {
    [0x31] + seq(k, _ => 0x30)
  }

  function Scale(k: nat): (n: nat) { JsonNumber.Decimal(OneAndZeros(k)) }

  /** One more digit. */
  lemma DigitAdded(ds: Bytes, d: byte)
    requires JsonNumber.Digits(ds) && JsonNumber.Digit(d)
    ensures JsonNumber.Digits(ds + [d]) && JsonNumber.Decimal(ds + [d]) == 10 * JsonNumber.Decimal(ds) + (d - 0x30)
  {
    assert (ds + [d])[..|ds|] == ds;
  }

  lemma ScaleStep(k: nat)
    ensures Scale(0) == 1 && Scale(k + 1) == 10 * Scale(k)
  {
    hide OneAndZeros, JsonNumber.Decimal;
    OneAndZerosStep(k);
    NoDigits();
    DigitAdded([], 0x31);
    DigitAdded(OneAndZeros(k), 0x30);
  }

  lemma OneAndZerosStep(k: nat)
    ensures OneAndZeros(0) == [] + [0x31] && OneAndZeros(k + 1) == OneAndZeros(k) + [0x30]
  {
  }

  lemma NoDigits()
    ensures JsonNumber.Decimal([]) == 0
  {
  }

  lemma {:induction false} UpIsScale(k: nat)
    ensures JsonNumber.Pow10(k) == Scale(k) as real
  {
    hide Scale;
    ScaleStep(0);
    if k > 0 {
      UpIsScale(k - 1);
      ScaleStep(k - 1);
    }
  }

  lemma {:induction false} DownIsScale(k: nat)
    ensures JsonNumber.Pow10(0 - k) * Scale(k) as real == 1.0
  {
    hide Scale;
    ScaleStep(0);
    if k > 0 {
      DownIsScale(k - 1);
      ScaleStep(k - 1);
      Tenfold(JsonNumber.Pow10(0 - k), JsonNumber.Pow10(1 - k), Scale(k - 1) as real);
    }
  }

  lemma Tenfold(p: real, q: real, s: real)
    requires p == q / 10.0 && q * s == 1.0
    ensures p * (10.0 * s) == 1.0
  {
    assert p * 10.0 == q;
    assert p * (10.0 * s) == (p * 10.0) * s;
  }

  lemma {:induction false} PowersMeet(e: int, k: nat)
    ensures JsonNumber.Pow10(e + k) == JsonNumber.Pow10(e) * Scale(k) as real
    decreases k
  {
    hide Scale;
    ScaleStep(0);
    if k > 0 {
      PowersMeet(e, k - 1);
      ScaleStep(k - 1);
      NextPower(e + k - 1);
      assert JsonNumber.Pow10(e) * (10.0 * Scale(k - 1) as real) == 10.0 * (JsonNumber.Pow10(e) * Scale(k - 1) as real);
    }
  }

  lemma NextPower(e: int)
    ensures JsonNumber.Pow10(e + 1) == 10.0 * JsonNumber.Pow10(e)
  {
  }

  function Signed(negative: bool, n: nat): real { if negative then -(n as real) else n as real }

  /** Without an exponent, a number times the one and zeros of its fraction is the number all its digits write. */
  lemma PlainValue(n: Number)
    requires WellFormedNumber(n) && n.power == None
    ensures NumberValue(n) * Scale(|n.fraction|) as real == Signed(n.negative, JsonNumber.Decimal(n.whole + n.fraction))
  {
    hide Scale, JsonNumber.Pow10, JsonNumber.Decimal;
    var m, k := JsonNumber.Decimal(n.whole + n.fraction) as real, |n.fraction|;
    DownIsScale(k);
    var p := JsonNumber.Pow10(0 - k);
    assert (m * p) * Scale(k) as real == m * (p * Scale(k) as real);
    assert (-(m * p)) * Scale(k) as real == -((m * p) * Scale(k) as real);
  }

  lemma Moved(m: real, p: real, q: real, s: real)
    requires p * s == q
    ensures (m * p) * s == m * q && (-(m * p)) * s == -(m * q)
  {
    assert (m * p) * s == m * (p * s);
    assert (-(m * p)) * s == -((m * p) * s);
  }

  /** An exponent multiplies by a one and as many zeros as it says, or divides by it when it is negative. */
  lemma PowerValueIs(n: Number, p: Power)
    requires WellFormedNumber(n) && n.power == None && WellFormedPower(p)
    ensures var k := JsonNumber.Decimal(p.digits);
            if p.sign == [0x2D] then NumberValue(n.(power := Some(p))) * Scale(k) as real == NumberValue(n)
            else NumberValue(n.(power := Some(p))) == NumberValue(n) * Scale(k) as real
  {
    hide Scale, JsonNumber.Pow10, JsonNumber.Decimal, NumberValue;
    var f, k := |n.fraction|, JsonNumber.Decimal(p.digits);
    ValueIs(n, 0 - f);
    if p.sign == [0x2D] {
      ValueIs(n.(power := Some(p)), 0 - k - f);
      PowersMeet(0 - k - f, k);
      Moved(JsonNumber.Decimal(n.whole + n.fraction) as real, JsonNumber.Pow10(0 - k - f), JsonNumber.Pow10(0 - f),
            Scale(k) as real);
    } else {
      ValueIs(n.(power := Some(p)), k - f);
      PowersMeet(0 - f, k);
      Moved(JsonNumber.Decimal(n.whole + n.fraction) as real, JsonNumber.Pow10(0 - f), JsonNumber.Pow10(k - f),
            Scale(k) as real);
    }
  }

  lemma ValueIs(n: Number, e: int)
    requires WellFormedNumber(n) && e == PowerValue(n.power) - |n.fraction|
    ensures var m := JsonNumber.Decimal(n.whole + n.fraction) as real * JsonNumber.Pow10(e);
            NumberValue(n) == if n.negative then -m else m
  {
    hide JsonNumber.Pow10, JsonNumber.Decimal;
  }

  /** A digit written behind a fraction counts a tenth of the one before it; a zero counts nothing. */
  lemma FractionDigit(n: Number, d: byte)
    requires WellFormedNumber(n) && n.power == None && n.point && JsonNumber.Digit(d)
    ensures var more := n.(fraction := n.fraction + [d]);
            && WellFormedNumber(more)
            && (NumberValue(more) - NumberValue(n)) * Scale(|n.fraction| + 1) as real == Signed(n.negative, d - 0x30)
            && (d == 0x30 ==> NumberValue(more) == NumberValue(n))
  {
    hide Scale, JsonNumber.Decimal, NumberValue, WellFormedNumber, JsonNumber.Digits, Signed;
    var more, k := n.(fraction := n.fraction + [d]), |n.fraction|;
    FractionWellFormed(n, d);
    ScaleStep(k);
    ScalePositive(k);
    PlainValue(n);
    PlainValue(more);
    TenthsApart(NumberValue(n), NumberValue(more), Scale(k) as real, n.negative,
                JsonNumber.Decimal(n.whole + n.fraction), d - 0x30);
    if d == 0x30 {
      SignedZero(n.negative);
      Cancelled(NumberValue(more) - NumberValue(n), Scale(k + 1) as real);
    }
  }

  lemma SignedZero(negative: bool)
    ensures Signed(negative, 0) == 0.0
  {
  }

  lemma TenthsApart(x: real, y: real, s: real, negative: bool, m: nat, d: nat)
    requires x * s == Signed(negative, m) && y * (10.0 * s) == Signed(negative, 10 * m + d)
    ensures (y - x) * (10.0 * s) == Signed(negative, d)
  {
    assert (y - x) * (10.0 * s) == y * (10.0 * s) - 10.0 * (x * s);
  }

  lemma FractionWellFormed(n: Number, d: byte)
    requires WellFormedNumber(n) && n.point && JsonNumber.Digit(d)
    ensures var more := n.(fraction := n.fraction + [d]);
            && WellFormedNumber(more)
            && JsonNumber.Digits(n.whole + n.fraction) && JsonNumber.Digits(more.whole + more.fraction)
            && JsonNumber.Decimal(more.whole + more.fraction)
               == 10 * JsonNumber.Decimal(n.whole + n.fraction) + (d - 0x30)
  {
    DigitAdded(n.whole + n.fraction, d);
    assert n.whole + n.fraction + [d] == n.whole + (n.fraction + [d]);
  }

  lemma {:induction false} ScalePositive(k: nat)
    ensures Scale(k) > 0
  {
    hide Scale;
    ScaleStep(0);
    if k > 0 {
      ScalePositive(k - 1);
      ScaleStep(k - 1);
    }
  }

  lemma Cancelled(x: real, s: real)
    requires x * s == 0.0 && s > 0.0
    ensures x == 0.0
  {
  }

  // ------------------------------------------------------------- examples

  lemma DigitsOf(a: byte, b: byte, c: byte)
    requires JsonNumber.Digit(a) && JsonNumber.Digit(b) && JsonNumber.Digit(c)
    ensures JsonNumber.Decimal([a]) == a - 0x30 && JsonNumber.Decimal([a, b]) == 10 * (a - 0x30) + (b - 0x30)
    ensures JsonNumber.Decimal([a, b, c]) == 100 * (a - 0x30) + 10 * (b - 0x30) + (c - 0x30)
  {
    assert [] + [a] == [a] && [a] + [b] == [a, b] && [a, b] + [c] == [a, b, c];
    DigitAdded([], a);
    DigitAdded([a], b);
    DigitAdded([a, b], c);
  }

  lemma FirstScales()
    ensures Scale(0) == 1 && Scale(1) == 10 && Scale(2) == 100
  {
    hide Scale;
    ScaleStep(0);
    ScaleStep(1);
  }

  /** `1e2` and `100`. */
  lemma HundredTwice()
    ensures JsonNumber.StrToD(Ascii("1e2")) == (100.0, 3) && JsonNumber.StrToD(Ascii("100")) == (100.0, 3)
  {
    hide Scale, JsonNumber.StrToD, JsonNumber.Decimal;
    var n := Number(false, [0x31], false, [], None);
    var p := Power(0x65, [], [0x32]);
    var h := Number(false, [0x31, 0x30, 0x30], false, [], None);
    DigitsOf(0x31, 0x30, 0x30);
    DigitsOf(0x32, 0x30, 0x30);
    FirstScales();
    assert [0x31] + [] == [0x31] && [0x31, 0x30, 0x30] + [] == [0x31, 0x30, 0x30];
    assert Ascii("1e2") == NumberText(n.(power := Some(p)));
    assert Ascii("100") == NumberText(h);
    hide NumberText, NumberValue;
    PowerValueIs(n, p);
    PlainValue(n);
    PlainValue(h);
    NumberReads(n.(power := Some(p)));
    NumberReads(h);
  }

  /** `-1.5` and `-1.50`. */
  lemma HalfTwice()
    ensures JsonNumber.StrToD(Ascii("-1.5")) == (-1.5, 4) && JsonNumber.StrToD(Ascii("-1.50")) == (-1.5, 5)
  {
    hide Scale, JsonNumber.StrToD, JsonNumber.Decimal;
    var n := Number(true, [0x31], true, [0x35], None);
    var m := n.(fraction := [0x35] + [0x30]);
    DigitsOf(0x31, 0x35, 0x30);
    assert [0x31] + [0x35] == [0x31, 0x35];
    FirstScales();
    assert Ascii("-1.5") == NumberText(n);
    assert Ascii("-1.50") == NumberText(m);
    hide NumberText, NumberValue;
    FractionDigit(n, 0x30);
    PlainValue(n);
    NumberReads(n);
    NumberReads(m);
  }

  /** `25E-1`. */
  lemma TwoAndAHalf()
    ensures JsonNumber.StrToD(Ascii("25E-1")) == (2.5, 5)
  {
    hide Scale, JsonNumber.StrToD, JsonNumber.Decimal;
    var n := Number(false, [0x32, 0x35], false, [], None);
    var p := Power(0x45, [0x2D], [0x31]);
    DigitsOf(0x32, 0x35, 0x30);
    DigitsOf(0x31, 0x30, 0x30);
    assert [0x32, 0x35] + [] == [0x32, 0x35];
    FirstScales();
    assert Ascii("25E-1") == NumberText(n.(power := Some(p)));
    hide NumberText, NumberValue;
    PowerValueIs(n, p);
    PlainValue(n);
    NumberReads(n.(power := Some(p)));
  }
}
