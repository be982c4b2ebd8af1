/**
 The bitwise operators of C on unsigned words of any width, as functions on naturals defined bit by
 bit from the lowest, and the masks and joins the program uses.
 */
module Bits {

  function Pow2(n: nat): (p: nat)
    ensures p > 0
  {
    if n == 0 then 1 else 2 * Pow2(n - 1)
  }

  function And(a: nat, b: nat): nat {
    if a == 0 then 0 else 2 * And(a / 2, b / 2) + if a % 2 == 1 && b % 2 == 1 then 1 else 0
  }

  function Or(a: nat, b: nat): nat {
    if a == 0 then b else 2 * Or(a / 2, b / 2) + if a % 2 == 1 || b % 2 == 1 then 1 else 0
  }

  function Xor(a: nat, b: nat): nat {
    if a == 0 then b else 2 * Xor(a / 2, b / 2) + (a + b) % 2
  }

  lemma Halves(n: nat, bit: nat)
    requires bit <= 1
    ensures (2 * n + bit) / 2 == n && (2 * n + bit) % 2 == bit
  {
  }

  /** One bit and the rest, whatever the operands. */
  lemma AndStep(a: nat, b: nat)
    ensures And(a, b) / 2 == And(a / 2, b / 2) && And(a, b) % 2 == if a % 2 == 1 && b % 2 == 1 then 1 else 0
  {
    Halves(And(a / 2, b / 2), if a % 2 == 1 && b % 2 == 1 then 1 else 0);
  }

  lemma OrStep(a: nat, b: nat)
    ensures Or(a, b) / 2 == Or(a / 2, b / 2) && Or(a, b) % 2 == if a % 2 == 1 || b % 2 == 1 then 1 else 0
  {
    Halves(Or(a / 2, b / 2), if a % 2 == 1 || b % 2 == 1 then 1 else 0);
  }

  lemma XorStep(a: nat, b: nat)
    ensures Xor(a, b) / 2 == Xor(a / 2, b / 2) && Xor(a, b) % 2 == (a + b) % 2
  {
    Halves(Xor(a / 2, b / 2), (a + b) % 2);
  }

  lemma SameHalves(a: nat, b: nat)
    requires a / 2 == b / 2 && a % 2 == b % 2
    ensures a == b
  {
  }

  /** Results stay within the width of the operands. */
  lemma {:induction false} Within(a: nat, b: nat, w: nat)
    requires a < Pow2(w) && b < Pow2(w)
    ensures And(a, b) < Pow2(w) && Or(a, b) < Pow2(w) && Xor(a, b) < Pow2(w)
  {
    if w > 0 {
      Within(a / 2, b / 2, w - 1);
      AndStep(a, b);
      OrStep(a, b);
      XorStep(a, b);
    }
  }

  lemma Parity(a: nat, m: nat)
    ensures ((a + m) % 2 + m) % 2 == a % 2
    ensures forall x: nat :: x % 2 == (a + m) % 2 ==> (x + m) % 2 == a % 2
  {
  }

  lemma {:induction false} XorTwice(a: nat, m: nat)
    ensures Xor(Xor(a, m), m) == a
    decreases a + m
  {
    if a + m > 0 {
      XorTwice(a / 2, m / 2);
      hide Xor;
      XorStep(a, m);
      XorStep(Xor(a, m), m);
      Parity(a, m);
      SameHalves(Xor(Xor(a, m), m), a);
    } else {
      assert Xor(0, 0) == 0;
    }
  }

  lemma MaskHalf(p: nat)
    requires p > 0
    ensures (2 * p - 1) / 2 == p - 1 && (2 * p - 1) % 2 == 1
  {
  }

  lemma {:induction false} AndNothing(a: nat)
    ensures And(a, 0) == 0
  {
    if a > 0 { AndNothing(a / 2); }
  }

  lemma {:induction false} Multiples(p: nat, q: nat, d: nat)
    requires q < d
    ensures p * d >= p * q + p
    decreases d
  {
    assert p * d == p * (d - 1) + p;
    if d > q + 1 { Multiples(p, q, d - 1); }
  }

  lemma Remainder(a: nat, p: nat, q: nat, r: nat)
    requires p > 0 && r < p && a == p * q + r
    ensures a % p == r && a / p == q
  {
    var d, e := a / p, a % p;
    assert a == p * d + e;
    if d > q { Multiples(p, q, d); }
    if d < q { Multiples(p, d, q); }
  }

  lemma HalfModulo(a: nat, p: nat)
    requires p > 0
    ensures a % (2 * p) == 2 * (a / 2 % p) + a % 2
    ensures a % (2 * p) / 2 == a / 2 % p && a % (2 * p) % 2 == a % 2
  {
    var q, r := a / 2 / p, a / 2 % p;
    assert a / 2 == p * q + r;
    assert a == (2 * p) * q + (2 * r + a % 2);
    Remainder(a, 2 * p, q, 2 * r + a % 2);
    Halves(r, a % 2);
  }

  /** `a & (2^k - 1)` is the remainder modulo 2^k. */
  lemma {:induction false} LowMask(a: nat, k: nat)
    ensures And(a, Pow2(k) - 1) == a % Pow2(k)
    decreases k
  {
    if k == 0 {
      AndNothing(a);
    } else {
      LowMask(a / 2, k - 1);
      MaskHalf(Pow2(k - 1));
      AndStep(a, Pow2(k) - 1);
      HalfModulo(a, Pow2(k - 1));
      hide And;
      SameHalves(And(a, Pow2(k) - 1), a % Pow2(k));
    }
  }

  lemma ProductBounds(p: int, q: int)
    requires p > 0
    ensures q < 0 ==> p * q <= -p
    ensures q >= 0 ==> p * q >= q
  {
    if q < 0 {
      Multiples(p, 0, -q);
      assert p * q == -(p * -q);
    } else if p > 1 {
      Multiples(q, 1, p);
    }
  }

  /** Whole turns of the modulus do not matter. */
  lemma Wraps(x: int, q: int, m: nat)
    requires m > 0
    ensures (x + m * q) % m == x % m
  {
    var d, r := x / m, x % m;
    var e, t := (x + m * q) / m, (x + m * q) % m;
    assert x == m * d + r && x + m * q == m * e + t;
    assert m * (d + q - e) == t - r;
    ProductBounds(m, d + q - e);
    ProductBounds(m, e - d - q);
    assert m * (e - d - q) == r - t;
  }

  lemma QuotientBound(a: nat, p: nat, q: int, r: nat)
    requires p > 0 && r < p && a == p * q + r
    ensures 0 <= q <= a
  {
    ProductBounds(p, q);
  }

  lemma Shrinks(a: nat, p: nat)
    requires p > 0
    ensures 0 <= a / p <= a
  {
    var q := a / p;
    assert a == p * q + a % p;
    QuotientBound(a, p, q, a % p);
  }

  lemma {:induction false} OrNothing(a: nat)
    ensures Or(a, 0) == a
  {
    if a > 0 { OrNothing(a / 2); }
  }

  // ------------------------------------------------------- cutting a word

  /** The word with `high` above its low `k` bits. */
  function Glued(high: nat, low: nat, k: nat): nat { high * Pow2(k) + low }

  lemma GluedHalf(high: nat, low: nat, k: nat)
    requires k > 0
    ensures Glued(high, low, k) / 2 == Glued(high, low / 2, k - 1) && Glued(high, low, k) % 2 == low % 2
  {
    assert high * Pow2(k) == 2 * (high * Pow2(k - 1));
  }

  /** The operators work on the high and the low part of a word separately. */
  lemma {:induction false} AndSplit(ah: nat, al: nat, bh: nat, bl: nat, k: nat)
    requires al < Pow2(k) && bl < Pow2(k)
    ensures And(Glued(ah, al, k), Glued(bh, bl, k)) == Glued(And(ah, bh), And(al, bl), k)
    decreases k
  {
    if k > 0 {
      AndSplit(ah, al / 2, bh, bl / 2, k - 1);
      hide Glued;
      GluedHalf(ah, al, k);
      GluedHalf(bh, bl, k);
      GluedHalf(And(ah, bh), And(al, bl), k);
      AndStep(Glued(ah, al, k), Glued(bh, bl, k));
      AndStep(al, bl);
      hide And;
      SameHalves(And(Glued(ah, al, k), Glued(bh, bl, k)), Glued(And(ah, bh), And(al, bl), k));
    }
  }

  lemma {:induction false} OrSplit(ah: nat, al: nat, bh: nat, bl: nat, k: nat)
    requires al < Pow2(k) && bl < Pow2(k)
    ensures Or(Glued(ah, al, k), Glued(bh, bl, k)) == Glued(Or(ah, bh), Or(al, bl), k)
    decreases k
  {
    if k > 0 {
      OrSplit(ah, al / 2, bh, bl / 2, k - 1);
      hide Glued;
      GluedHalf(ah, al, k);
      GluedHalf(bh, bl, k);
      GluedHalf(Or(ah, bh), Or(al, bl), k);
      OrStep(Glued(ah, al, k), Glued(bh, bl, k));
      OrStep(al, bl);
      hide Or;
      SameHalves(Or(Glued(ah, al, k), Glued(bh, bl, k)), Glued(Or(ah, bh), Or(al, bl), k));
    }
  }

  lemma Powers()
    ensures Pow2(1) == 2 && Pow2(3) == 8 && Pow2(4) == 16 && Pow2(5) == 32 && Pow2(6) == 64 && Pow2(7) == 128
    ensures Pow2(8) == 256 && Pow2(10) == 1024 && Pow2(16) == 0x1_0000
  {
    assert Pow2(2) == 4 && Pow2(9) == 512 && Pow2(12) == 4096 && Pow2(14) == 0x4000;
  }

  /** A mask whose low `k` bits are zero reads the bits above. */
  lemma HighMask(high: nat, low: nat, m: nat, k: nat)
    requires low < Pow2(k)
    ensures And(high * Pow2(k) + low, m * Pow2(k)) == And(high, m) * Pow2(k)
  {
    AndSplit(high, low, m, 0, k);
    AndNothing(low);
  }

  /** `(a << k) | b` joins a high and a low part, in either order. */
  lemma Join(a: nat, b: nat, k: nat)
    requires b < Pow2(k)
    ensures Or(a * Pow2(k), b) == a * Pow2(k) + b && Or(b, a * Pow2(k)) == a * Pow2(k) + b
  {
    OrSplit(a, 0, 0, b, k);
    OrSplit(0, b, a, 0, k);
    OrNothing(a);
    OrNothing(b);
  }

  // ------------------------------------------- the masks the program uses

  /** Bytes: `& 0x0F`, `& 0x7F`, `& 0x80`, `& 0xFF`, and setting the top bit. */
  lemma ByteMasks(b: nat)
    ensures And(b, 0x0F) == b % 0x10 && And(b, 0x7F) == b % 0x80 && And(b, 0xFF) == b % 0x100
    ensures b < 0x100 ==> (And(b, 0x80) != 0 <==> b >= 0x80)
  {
    Powers();
    hide And, Pow2;
    LowMask(b, 4);
    LowMask(b, 7);
    LowMask(b, 8);
    HighMask(b / 0x80, b % 0x80, 1, 7);
    LowMask(b / 0x80, 1);
  }

  /** Words: `& 63`, `& 504` and `& 0x3FF`. */
  lemma WordMasks(c: nat)
    ensures And(c, 63) == c % 64 && And(c, 504) == 8 * (c / 8 % 64) && And(c, 0x3FF) == c % 0x400
  {
    Powers();
    hide And, Pow2;
    LowMask(c, 6);
    LowMask(c, 10);
    HighMask(c / 8, c % 8, 63, 3);
    LowMask(c / 8, 6);
  }

  lemma GluedSix(high: nat, low: nat)
    ensures Glued(high, low, 6) == 64 * high + low && Pow2(6) == 64
  {
    Powers();
  }

  lemma SixBits(l: nat)
    requires l < 64
    ensures And(l, 63) == l
  {
    Powers();
    hide And, Pow2;
    LowMask(l, 6);
  }

  lemma LowBit(b: nat)
    ensures And(b, 1) == b % 2
  {
    Powers();
    hide And, Pow2;
    LowMask(b, 1);
  }

  lemma SecondBit(h: nat)
    ensures And(Or(h, 2), 2) == 2
  {
    hide And, Or;
    var o := Or(h, 2);
    OrStep(h, 2);
    OrStep(h / 2, 1);
    AndStep(o, 2);
    LowBit(o / 2);
    SameHalves(And(o, 2), 2);
  }

  lemma ContinuationParts(h: nat, l: nat)
    requires l < 64
    ensures And(Or(64 * h + l, 0x80), 0xBF) == 0x80 + l
  {
    hide And, Or, Pow2, Glued;
    GluedSix(h, l);
    GluedSix(2, 0);
    GluedSix(2, 63);
    OrSplit(h, l, 2, 0, 6);
    OrNothing(l);
    AndSplit(Or(h, 2), l, 2, 63, 6);
    SixBits(l);
    SecondBit(h);
    GluedSix(2, l);
  }

  /** `(c | 0x80) & 0xBF`: the low six bits under the mark of a continuation byte. */
  lemma ContinuationMask(c: nat)
    ensures And(Or(c, 0x80), 0xBF) == 0x80 + c % 0x40
  {
    var h, l := c / 64, c % 64;
    assert c == 64 * h + l;
    ContinuationParts(h, l);
  }

  // ---------------------------------------------------------- 8-bit machine

  lemma SplitByte(c: bv8)
    ensures (c as nat) / 2 == (c >> 1) as nat && (c as nat) % 2 == (c & 1) as nat
  {
  }

  /** On bytes the machine's operators are these functions. */
  lemma Machine(a: bv8, b: bv8)
    ensures And(a as nat, b as nat) == (a & b) as nat
    ensures Or(a as nat, b as nat) == (a | b) as nat
    ensures Xor(a as nat, b as nat) == (a ^ b) as nat
  {
    EightBits(a);
    EightBits(b);
    hide And, Or, Xor, Pow2;
    MachineAnd(a, b, 8);
    MachineOr(a, b, 8);
    MachineXor(a, b, 8);
  }

  lemma EightBits(a: bv8)
    ensures a as nat < Pow2(8)
  {
    assert Pow2(4) == 16 && Pow2(8) == 256;
  }

  lemma ByteZero(a: bv8)
    requires a as nat < 1
    ensures a == 0
  {
  }

  lemma AndShift(a: bv8, b: bv8)
    ensures ((a & b) as nat) / 2 == ((a >> 1) & (b >> 1)) as nat
  {
    SplitByte(a & b);
    assert (a & b) >> 1 == (a >> 1) & (b >> 1);
  }

  lemma AndLow(a: bv8, b: bv8)
    ensures var x, y := a as nat, b as nat; ((a & b) as nat) % 2 == (if x % 2 == 1 && y % 2 == 1 then 1 else 0)
  {
    SplitByte(a & b);
    SplitByte(a);
    SplitByte(b);
    AndBit(a & 1, b & 1);
    assert (a & b) & 1 == (a & 1) & (b & 1);
  }

  lemma AndBit(x: bv8, y: bv8)
    requires x <= 1 && y <= 1
    ensures (x & y) as nat == if x as nat == 1 && y as nat == 1 then 1 else 0
  {
  }

  lemma AndIs(x: nat, y: nat, r: nat)
    requires r / 2 == And(x / 2, y / 2) && r % 2 == if x % 2 == 1 && y % 2 == 1 then 1 else 0
    ensures And(x, y) == r
  {
    hide And;
    AndStep(x, y);
    SameHalves(And(x, y), r);
  }

  lemma MachineAndStep(a: bv8, b: bv8)
    requires And((a >> 1) as nat, (b >> 1) as nat) == ((a >> 1) & (b >> 1)) as nat
    ensures And(a as nat, b as nat) == (a & b) as nat
  {
    hide And;
    SplitByte(a);
    SplitByte(b);
    AndShift(a, b);
    AndLow(a, b);
    AndIs(a as nat, b as nat, (a & b) as nat);
  }

  lemma {:induction false} MachineAnd(a: bv8, b: bv8, w: nat)
    requires a as nat < Pow2(w) && b as nat < Pow2(w)
    ensures And(a as nat, b as nat) == (a & b) as nat
    decreases w
  {
    if w == 0 {
      ByteZero(a);
      ByteZero(b);
    } else {
      hide And;
      SplitByte(a);
      SplitByte(b);
      MachineAnd(a >> 1, b >> 1, w - 1);
      MachineAndStep(a, b);
    }
  }

  lemma OrShift(a: bv8, b: bv8)
    ensures ((a | b) as nat) / 2 == ((a >> 1) | (b >> 1)) as nat
  {
    SplitByte(a | b);
    assert (a | b) >> 1 == (a >> 1) | (b >> 1);
  }

  lemma OrLow(a: bv8, b: bv8)
    ensures var x, y := a as nat, b as nat; ((a | b) as nat) % 2 == (if x % 2 == 1 || y % 2 == 1 then 1 else 0)
  {
    SplitByte(a | b);
    SplitByte(a);
    SplitByte(b);
    OrBit(a & 1, b & 1);
    assert (a | b) & 1 == (a & 1) | (b & 1);
  }

  lemma OrBit(x: bv8, y: bv8)
    requires x <= 1 && y <= 1
    ensures (x | y) as nat == if x as nat == 1 || y as nat == 1 then 1 else 0
  {
  }

  lemma OrIs(x: nat, y: nat, r: nat)
    requires r / 2 == Or(x / 2, y / 2) && r % 2 == if x % 2 == 1 || y % 2 == 1 then 1 else 0
    ensures Or(x, y) == r
  {
    hide Or;
    OrStep(x, y);
    SameHalves(Or(x, y), r);
  }

  lemma MachineOrStep(a: bv8, b: bv8)
    requires Or((a >> 1) as nat, (b >> 1) as nat) == ((a >> 1) | (b >> 1)) as nat
    ensures Or(a as nat, b as nat) == (a | b) as nat
  {
    hide Or;
    SplitByte(a);
    SplitByte(b);
    OrShift(a, b);
    OrLow(a, b);
    OrIs(a as nat, b as nat, (a | b) as nat);
  }

  lemma {:induction false} MachineOr(a: bv8, b: bv8, w: nat)
    requires a as nat < Pow2(w) && b as nat < Pow2(w)
    ensures Or(a as nat, b as nat) == (a | b) as nat
    decreases w
  {
    if w == 0 {
      ByteZero(a);
      ByteZero(b);
    } else {
      hide Or;
      SplitByte(a);
      SplitByte(b);
      MachineOr(a >> 1, b >> 1, w - 1);
      MachineOrStep(a, b);
    }
  }

  lemma XorShift(a: bv8, b: bv8)
    ensures ((a ^ b) as nat) / 2 == ((a >> 1) ^ (b >> 1)) as nat
  {
    SplitByte(a ^ b);
    assert (a ^ b) >> 1 == (a >> 1) ^ (b >> 1);
  }

  lemma SumParity(x: nat, y: nat)
    ensures (x + y) % 2 == if x % 2 == y % 2 then 0 else 1
  {
  }

  lemma XorLow(a: bv8, b: bv8)
    ensures var x, y := a as nat, b as nat; ((a ^ b) as nat) % 2 == if x % 2 == y % 2 then 0 else 1
  {
    SplitByte(a ^ b);
    SplitByte(a);
    SplitByte(b);
    XorBit(a & 1, b & 1);
    assert (a ^ b) & 1 == (a & 1) ^ (b & 1);
  }

  lemma XorBit(x: bv8, y: bv8)
    requires x <= 1 && y <= 1
    ensures (x ^ y) as nat == if x == y then 0 else 1
  {
  }

  lemma XorIs(x: nat, y: nat, r: nat)
    requires r / 2 == Xor(x / 2, y / 2) && r % 2 == if x % 2 == y % 2 then 0 else 1
    ensures Xor(x, y) == r
  {
    hide Xor;
    SumParity(x, y);
    XorStep(x, y);
    SameHalves(Xor(x, y), r);
  }

  lemma MachineXorStep(a: bv8, b: bv8)
    requires Xor((a >> 1) as nat, (b >> 1) as nat) == ((a >> 1) ^ (b >> 1)) as nat
    ensures Xor(a as nat, b as nat) == (a ^ b) as nat
  {
    hide Xor;
    SplitByte(a);
    SplitByte(b);
    XorShift(a, b);
    XorLow(a, b);
    XorIs(a as nat, b as nat, (a ^ b) as nat);
  }

  lemma {:induction false} MachineXor(a: bv8, b: bv8, w: nat)
    requires a as nat < Pow2(w) && b as nat < Pow2(w)
    ensures Xor(a as nat, b as nat) == (a ^ b) as nat
    decreases w
  {
    if w == 0 {
      ByteZero(a);
      ByteZero(b);
    } else {
      hide Xor;
      SplitByte(a);
      SplitByte(b);
      MachineXor(a >> 1, b >> 1, w - 1);
      MachineXorStep(a, b);
    }
  }
}
