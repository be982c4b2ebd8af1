/**
 Numbers: the token `parse_number` cuts out, `strtod` on it as exact decimal
 arithmetic, and the `%d` text `print_number` writes for an integer.
 */
module JsonNumber {
  import opened Bytes

  predicate Digit(b: byte) { 0x30 <= b <= 0x39 }

  function DigitValue(b: byte): nat
    requires Digit(b)
  {
    b - 0x30
  }

  /** The bytes `parse_number` collects for `strtod`. */
  predicate NumberByte(b: byte) {
    Digit(b) || b == 0x2B || b == 0x2D || b == 0x65 || b == 0x45 || b == 0x2E
  }

  /** End of the run of number bytes starting at `i`. */
  function TokenEnd(s: Bytes, i: nat): (e: nat)
    requires i <= |s|
    ensures i <= e <= |s|
    ensures forall j :: i <= j < e ==> NumberByte(s[j])
    ensures e < |s| ==> !NumberByte(s[e])
    decreases |s| - i
  {
    if i < |s| && NumberByte(s[i]) then TokenEnd(s, i + 1) else i
  }

  function DigitsEnd(t: Bytes, i: nat): (e: nat)
    requires i <= |t|
    ensures i <= e <= |t|
    ensures forall j :: i <= j < e ==> Digit(t[j])
    ensures e < |t| ==> !Digit(t[e])
    decreases |t| - i
  {
    if i < |t| && Digit(t[i]) then DigitsEnd(t, i + 1) else i
  }

  predicate Digits(ds: Bytes) { forall i :: 0 <= i < |ds| ==> Digit(ds[i]) }

  /** The decimal number written by the digits `ds`. */
  function Decimal(ds: Bytes): nat
    requires Digits(ds)
  {
    if ds == [] then 0 else 10 * Decimal(ds[..|ds| - 1]) + DigitValue(ds[|ds| - 1])
  }

  function Pow10(e: int): real
    decreases if e < 0 then -e else e
  {
    if e == 0 then 1.0 else if e > 0 then 10.0 * Pow10(e - 1) else Pow10(e + 1) / 10.0
  }

  /** The optional exponent at `i`: its value and where it ends. */
  function Exponent(t: Bytes, i: nat): (r: (int, nat))
    requires i <= |t|
    ensures i <= r.1 <= |t|
  {
    if i < |t| && (t[i] == 0x65 || t[i] == 0x45) then
      var k := if i + 1 < |t| && (t[i + 1] == 0x2B || t[i + 1] == 0x2D) then i + 2 else i + 1;
      var e := DigitsEnd(t, k);
      if e == k then (0, i)
      else ((if t[i + 1] == 0x2D then -1 else 1) * Decimal(t[k..e]), e)
    else (0, i)
  }

  /** `strtod`, rounding aside: the value and the number of bytes used, 0 when there is no number. */
  function StrToD(t: Bytes): (r: (real, nat))
    ensures r.1 <= |t|
  {
    var i := if t != [] && (t[0] == 0x2B || t[0] == 0x2D) then 1 else 0;
    var a := DigitsEnd(t, i);
    var point := a < |t| && t[a] == 0x2E;
    var f := if point then a + 1 else a;
    var b := DigitsEnd(t, f);
    if a == i && b == f then (0.0, 0)
    else
      var (x, e) := Exponent(t, b);
      assert Digits(t[i..a]) && Digits(t[f..b]);
      var m := Decimal(t[i..a] + t[f..b]) as real * Pow10(x - (b - f));
      (if i == 1 && t[0] == 0x2D then -m else m, e)
  }

  function DigitText(n: nat): (t: Bytes)
    ensures |t| > 0 && forall i :: 0 <= i < |t| ==> Digit(t[i])
    ensures Decimal(t) == n
  {
    if n < 10 then
      var t := [0x30 + n];
      assert Decimal([]) == 0 && t[..0] == [];
      t
    else
      var t := DigitText(n / 10) + [0x30 + n % 10];
      assert t[..|t| - 1] == DigitText(n / 10);
      t
  }

  /** The text of `sprintf("%d", n)`. */
  function IntText(n: int): (t: Bytes)
    ensures |t| > 0 && forall i :: 0 <= i < |t| ==> NumberByte(t[i])
    ensures t[0] == 0x2D || Digit(t[0])
  {
    if n < 0 then [0x2D] + DigitText(-n) else DigitText(n)
  }

  lemma {:induction false} DigitsEndAt(t: Bytes, i: nat, e: nat)
    requires i <= e <= |t| && (forall j :: i <= j < e ==> Digit(t[j])) && (e < |t| ==> !Digit(t[e]))
    ensures DigitsEnd(t, i) == e
    decreases e - i
  {
    if i < e { DigitsEndAt(t, i + 1, e); }
  }

  lemma {:induction false} DigitTextLength(n: nat, k: nat, limit: nat)
    requires n < limit && k >= 1 && limit == PowNat(k)
    ensures |DigitText(n)| <= k
    decreases k
  {
    if n >= 10 {
      DigitTextLength(n / 10, k - 1, limit / 10);
    }
  }

  function PowNat(k: nat): nat { if k == 0 then 1 else 10 * PowNat(k - 1) }

  /** `number_buffer[26]` is never overrun by a 32-bit integer. */
  lemma IntTextLength(n: int)
    requires -0x8000_0000 <= n <= 0x7FFF_FFFF
    ensures |IntText(n)| <= 11
  {
    assert PowNat(2) == 100 && PowNat(4) == 10000 && PowNat(6) == 1000000 && PowNat(8) == 100000000
        && PowNat(10) == 10000000000;
    DigitTextLength(if n < 0 then -n else n, 10, 10000000000);
  }

  /** Reading a printed integer back gives the integer and uses all of its text. */
  lemma IntRoundTrip(n: int)
    ensures StrToD(IntText(n)) == (n as real, |IntText(n)|)
  {
    var t := IntText(n);
    var d := DigitText(if n < 0 then -n else n);
    var i := if n < 0 then 1 else 0;
    assert t[i..] == d;
    assert t[i..|t|] == d && t[|t|..|t|] == [] && d + [] == d;
    forall j | i <= j < |t| ensures Digit(t[j]) { assert t[j] == d[j - i]; }
    DigitsEndAt(t, i, |t|);
    DigitsEndAt(t, |t|, |t|);
    assert Pow10(0) == 1.0;
  }

  lemma {:induction false} TokenEndAt(s: Bytes, i: nat, e: nat)
    requires i <= e <= |s| && (forall j :: i <= j < e ==> NumberByte(s[j])) && (e < |s| ==> !NumberByte(s[e]))
    ensures TokenEnd(s, i) == e
    decreases e - i
  {
    if i < e {
      TokenEndAt(s, i + 1, e);
    }
  }
}
