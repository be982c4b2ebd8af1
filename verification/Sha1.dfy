/**
 The block function of the handshake's hash. The schedule, the rounds and the constants
 are those of section 6.1.2 of FIPS 180-4; the specification below is written in the
 standard's own terms (Ch, Parity, Maj, five-term sums), the methods in the source's.
 Words are the numbers below 2^32, added modulo 2^32.
 */
module Sha1 {
  import opened Bytes
  import Bits

  const WORD: nat := 0x1_0000_0000

  type Word = n: int | 0 <= n < WORD

  datatype State = State(a: Word, b: Word, c: Word, d: Word, e: Word)

  const INITIAL := State(0x67452301, 0xEFCDAB89, 0x98BADCFE, 0x10325476, 0xC3D2E1F0)

  // ------------------------------------------------------------- words

  lemma WordWidth()
    ensures Bits.Pow2(32) == WORD
  {
    assert Bits.Pow2(8) == 0x100 && Bits.Pow2(16) == 0x1_0000 && Bits.Pow2(24) == 0x100_0000;
  }

  lemma WithinWord(x: Word, y: Word)
    ensures Bits.And(x, y) < WORD && Bits.Or(x, y) < WORD && Bits.Xor(x, y) < WORD
  {
    WordWidth();
    Bits.Within(x, y, 32);
  }

  function Plus(x: Word, y: Word): Word { (x + y) % WORD }

  function And(x: Word, y: Word): Word {
    WithinWord(x, y);
    Bits.And(x, y)
  }

  function Or(x: Word, y: Word): Word {
    WithinWord(x, y);
    Bits.Or(x, y)
  }

  function Xor(x: Word, y: Word): Word {
    WithinWord(x, y);
    Bits.Xor(x, y)
  }

  function Not(x: Word): Word { WORD - 1 - x }

  function Left(x: Word, n: nat): Word
    requires n <= 32
  {
    x * Bits.Pow2(n) % WORD
  }

  function Right(x: Word, n: nat): Word
    requires n <= 32
  {
    Bits.Shrinks(x, Bits.Pow2(n));
    x / Bits.Pow2(n)
  }

  /** ROTL of section 3.2 of FIPS 180-4. */
  function RotL(x: Word, n: nat): Word
    requires n <= 32
  {
    Or(Left(x, n), Right(x, 32 - n))
  }

  function BigEndian(b: Bytes, i: nat): Word
    requires i + 4 <= |b|
  {
    Or(Or(Or(Left(b[i], 24), Left(b[i + 1], 16)), Left(b[i + 2], 8)), b[i + 3])
  }

  lemma TwiceProduct(p: nat, q: nat)
    ensures (2 * p) * q == 2 * (p * q)
  {
  }

  lemma {:induction false} PowSum(m: nat, n: nat)
    ensures Bits.Pow2(m + n) == Bits.Pow2(m) * Bits.Pow2(n)
  {
    if m > 0 {
      PowSum(m - 1, n);
      TwiceProduct(Bits.Pow2(m - 1), Bits.Pow2(n));
    }
  }

  lemma Product(p: nat, q: nat, r: nat)
    requires p > 0 && r < q
    ensures 0 <= p * r < p * q
  {
    Bits.Multiples(p, r, q);
  }

  lemma Expand(high: nat, low: nat, p: nat, q: nat)
    ensures (high * q + low) * p == (p * q) * high + low * p
  {
  }

  lemma LeftIs(high: nat, low: nat, n: nat, x: Word)
    requires n <= 32 && low < Bits.Pow2(32 - n) && x == high * Bits.Pow2(32 - n) + low
    ensures Left(x, n) == low * Bits.Pow2(n)
  {
    var p, q := Bits.Pow2(n), Bits.Pow2(32 - n);
    WordWidth();
    PowSum(n, 32 - n);
    Product(p, q, low);
    assert x * p == WORD * high + low * p by { Expand(high, low, p, q); }
    Bits.Remainder(x * p, WORD, high, low * p);
  }

  lemma RightIs(high: nat, low: nat, n: nat, x: Word)
    requires n <= 32 && low < Bits.Pow2(n) && x == high * Bits.Pow2(n) + low
    ensures Right(x, n) == high
  {
    Bits.Remainder(x, Bits.Pow2(n), high, low);
  }

  lemma AtLeast(p: nat, high: nat, q: nat)
    requires p <= high
    ensures p * q <= high * q
  {
    assert high * q == p * q + (high - p) * q;
  }

  lemma Bounded(high: nat, low: nat, p: nat, q: nat)
    requires q > 0 && high * q + low < p * q
    ensures high < p
  {
    if p <= high { AtLeast(p, high, q); }
  }

  lemma HighFits(high: nat, low: nat, n: nat, x: Word)
    requires n <= 32 && x == high * Bits.Pow2(32 - n) + low
    ensures high < Bits.Pow2(n)
  {
    WordWidth();
    PowSum(n, 32 - n);
    Bounded(high, low, Bits.Pow2(n), Bits.Pow2(32 - n));
  }

  lemma RotLIs(x: Word, n: nat)
    requires n <= 32
    ensures RotL(x, n) == Bits.Or(Left(x, n), Right(x, 32 - n))
  {
    hide Bits.Or, Bits.Pow2, Left, Right;
  }

  /** The rotation moves the high `n` bits below the others. */
  lemma RotLMoves(high: nat, low: nat, n: nat, x: Word)
    requires n <= 32 && low < Bits.Pow2(32 - n) && x == high * Bits.Pow2(32 - n) + low
    ensures high < Bits.Pow2(n) && RotL(x, n) == low * Bits.Pow2(n) + high
  {
    HighFits(high, low, n, x);
    LeftIs(high, low, n, x);
    RightIs(high, low, 32 - n, x);
    hide *;
    Bits.Join(low, high, n);
    RotLIs(x, n);
  }

  lemma BytePowers()
    ensures Bits.Pow2(8) == 0x100 && Bits.Pow2(16) == 0x1_0000 && Bits.Pow2(24) == 0x100_0000
  {
    assert Bits.Pow2(4) == 0x10 && Bits.Pow2(12) == 0x1000 && Bits.Pow2(20) == 0x10_0000;
  }

  /** The number four bytes write, most significant first. */
  function Number(w0: nat, w1: nat, w2: nat, w3: nat): nat { 0x100_0000 * w0 + 0x1_0000 * w1 + 0x100 * w2 + w3 }

  lemma OctetsShift(w: byte)
    ensures Left(w, 24) == 0x100_0000 * w as nat && Left(w, 16) == 0x1_0000 * w as nat && Left(w, 8) == 0x100 * w as nat
  {
    BytePowers();
    hide Bits.Pow2;
  }

  lemma JoinBytes(high: nat, mid: byte, low: byte)
    ensures Bits.Or(0x100_0000 * high, 0x1_0000 * mid as nat) == 0x100_0000 * high + 0x1_0000 * mid as nat
    ensures Bits.Or(0x1_0000 * high, 0x100 * mid as nat) == 0x1_0000 * high + 0x100 * mid as nat
    ensures Bits.Or(0x100 * high, low) == 0x100 * high + low as nat
  {
    BytePowers();
    hide Bits.Or, Bits.Pow2;
    Bits.Join(high, 0x1_0000 * mid as nat, 24);
    Bits.Join(high, 0x100 * mid as nat, 16);
    Bits.Join(high, low, 8);
  }

  lemma FourJoined(w0: byte, w1: byte, w2: byte, w3: byte)
    ensures Or(Or(Or(0x100_0000 * w0 as Word, 0x1_0000 * w1 as Word), 0x100 * w2 as Word), w3)
            == Number(w0, w1, w2, w3)
  {
    hide Bits.Or;
    var v0: nat, v1: nat, v2: nat := w0, w1, w2;
    JoinBytes(v0, v1, w3);
    JoinBytes(0x100 * v0 + v1, v2, w3);
    JoinBytes(0x1_0000 * v0 + 0x100 * v1 + v2, v2, w3);
  }

  /** Four bytes joined by shifts and ORs are the number they write. */
  lemma BigEndianIs(b: Bytes, i: nat)
    requires i + 4 <= |b|
    ensures BigEndian(b, i) == Number(b[i], b[i + 1], b[i + 2], b[i + 3])
  {
    hide Left, Or;
    OctetsShift(b[i]);
    OctetsShift(b[i + 1]);
    OctetsShift(b[i + 2]);
    FourJoined(b[i], b[i + 1], b[i + 2], b[i + 3]);
  }

  // ------------------------------------------------ the standard's terms

  function Ch(x: Word, y: Word, z: Word): Word { Xor(And(x, y), And(Not(x), z)) }

  function Parity(x: Word, y: Word, z: Word): Word { Xor(Xor(x, y), z) }

  function Maj(x: Word, y: Word, z: Word): Word { Xor(Xor(And(x, y), And(x, z)), And(y, z)) }

  /** f of section 4.1.1. */
  function F(t: nat, b: Word, c: Word, d: Word): Word {
    if t < 20 then Ch(b, c, d) else if t < 40 then Parity(b, c, d) else if t < 60 then Maj(b, c, d) else Parity(b, c, d)
  }

  /** K of section 4.2.1. */
  function K(t: nat): Word {
    if t < 20 then 0x5A827999 else if t < 40 then 0x6ED9EBA1
    else if t < 60 then 0x8F1BBCDC else 0xCA62C1D6
  }

  /** Word `t` of the message schedule. */
  function W(block: Bytes, t: nat): Word
    requires |block| == 64 && t < 80
    decreases t
  {
    if t < 16 then BigEndian(block, 4 * t)
    else RotL(Xor(Xor(Xor(W(block, t - 3), W(block, t - 8)), W(block, t - 14)), W(block, t - 16)), 1)
  }

  /** The sum in step 3 of section 6.1.2, in the standard's order. */
  function Sum5(v: Word, f: Word, e: Word, k: Word, w: Word): Word {
    Plus(Plus(Plus(Plus(v, f), e), k), w)
  }

  /** Step 3 of section 6.1.2. */
  function Round(r: State, t: nat, w: Word): State {
    State(Sum5(RotL(r.a, 5), F(t, r.b, r.c, r.d), r.e, K(t), w), r.a, RotL(r.b, 30), r.c, r.d)
  }

  /** The working variables after `t` rounds. */
  function Rounds(s: State, block: Bytes, t: nat): State
    requires |block| == 64 && t <= 80
    decreases t
  {
    if t == 0 then s else Round(Rounds(s, block, t - 1), t - 1, W(block, t - 1))
  }

  function AddState(s: State, r: State): State {
    State(Plus(s.a, r.a), Plus(s.b, r.b), Plus(s.c, r.c), Plus(s.d, r.d), Plus(s.e, r.e))
  }

  function Compress(s: State, block: Bytes): State
    requires |block| == 64
  {
    AddState(s, Rounds(s, block, 80))
  }

  /** Block `n` of a message. */
  function Block(m: Bytes, n: nat): (b: Bytes)
    requires 64 * (n + 1) <= |m|
    ensures |b| == 64
  {
    m[64 * n..64 * n + 64]
  }

  /** Compress the first `n` whole blocks of `m`. */
  function Fold(m: Bytes, n: nat): State
    requires 64 * n <= |m|
  {
    if n == 0 then INITIAL else Compress(Fold(m, n - 1), Block(m, n - 1))
  }

  // -------------------------------------- the source's terms are the same

  lemma Complement(x: nat, p: nat)
    requires x < 2 * p
    ensures x / 2 < p && (2 * p - 1 - x) / 2 == p - 1 - x / 2 && (2 * p - 1 - x) % 2 != x % 2
  {
  }

  lemma OneOdd(p: nat, q: nat)
    requires p % 2 == 0 || q % 2 == 0
    ensures (p + q) % 2 == if p % 2 == 1 || q % 2 == 1 then 1 else 0
  {
  }

  lemma ChStep(x: nat, n: nat, y: nat, z: nat)
    requires x % 2 != n % 2
    requires Bits.Or(Bits.And(x / 2, y / 2), Bits.And(n / 2, z / 2))
             == Bits.Xor(Bits.And(x / 2, y / 2), Bits.And(n / 2, z / 2))
    ensures Bits.Or(Bits.And(x, y), Bits.And(n, z)) == Bits.Xor(Bits.And(x, y), Bits.And(n, z))
  {
    hide Bits.And, Bits.Or, Bits.Xor;
    Bits.AndStep(x, y);
    Bits.AndStep(n, z);
    var p, q := Bits.And(x, y), Bits.And(n, z);
    Bits.OrStep(p, q);
    Bits.XorStep(p, q);
    OneOdd(p, q);
    Bits.SameHalves(Bits.Or(p, q), Bits.Xor(p, q));
  }

  lemma {:induction false} ChBits(x: nat, y: nat, z: nat, w: nat)
    requires x < Bits.Pow2(w)
    ensures var n := Bits.Pow2(w) - 1 - x;
            Bits.Or(Bits.And(x, y), Bits.And(n, z)) == Bits.Xor(Bits.And(x, y), Bits.And(n, z))
  {
    if w > 0 {
      hide Bits.And, Bits.Or, Bits.Xor;
      ChBits(x / 2, y / 2, z / 2, w - 1);
      Complement(x, Bits.Pow2(w - 1));
      ChStep(x, Bits.Pow2(w) - 1 - x, y, z);
    }
  }

  /** The source joins the two halves of Ch with OR; they never share a bit. */
  lemma ChWithOr(x: Word, y: Word, z: Word)
    ensures Or(And(x, y), And(Not(x), z)) == Ch(x, y, z)
  {
    WordWidth();
    ChBits(x, y, z, 32);
  }

  lemma OddSum(x: nat, y: nat, z: nat, p: nat, q: nat, r: nat, pq: nat)
    requires p % 2 == if x % 2 == 1 && y % 2 == 1 then 1 else 0
    requires q % 2 == if x % 2 == 1 && z % 2 == 1 then 1 else 0
    requires r % 2 == if y % 2 == 1 && z % 2 == 1 then 1 else 0
    requires pq % 2 == (p + q) % 2
    ensures (pq + r) % 2 == if p % 2 == 1 || q % 2 == 1 || r % 2 == 1 then 1 else 0
  {
  }

  lemma {:induction false} MajBits(x: nat, y: nat, z: nat)
    ensures Bits.Or(Bits.Or(Bits.And(x, y), Bits.And(x, z)), Bits.And(y, z))
            == Bits.Xor(Bits.Xor(Bits.And(x, y), Bits.And(x, z)), Bits.And(y, z))
    decreases x + y + z
  {
    if x + y + z > 0 {
      MajBits(x / 2, y / 2, z / 2);
      hide *;
      Bits.AndStep(x, y);
      Bits.AndStep(x, z);
      Bits.AndStep(y, z);
      var p, q, r := Bits.And(x, y), Bits.And(x, z), Bits.And(y, z);
      Bits.OrStep(p, q);
      Bits.XorStep(p, q);
      Bits.OrStep(Bits.Or(p, q), r);
      Bits.XorStep(Bits.Xor(p, q), r);
      OddSum(x, y, z, p, q, r, Bits.Xor(p, q));
      Bits.SameHalves(Bits.Or(Bits.Or(p, q), r), Bits.Xor(Bits.Xor(p, q), r));
    }
  }

  lemma MajWithOr(x: Word, y: Word, z: Word)
    ensures Or(Or(And(x, y), And(x, z)), And(y, z)) == Maj(x, y, z)
  {
    MajBits(x, y, z);
  }

  lemma SumModulo(x: int, y: int)
    ensures (x % WORD + y) % WORD == (x + y) % WORD && (x + y % WORD) % WORD == (x + y) % WORD
  {
    assert x == WORD * (x / WORD) + x % WORD && y == WORD * (y / WORD) + y % WORD;
    Bits.Wraps(x % WORD + y, x / WORD, WORD);
    Bits.Wraps(x + y % WORD, y / WORD, WORD);
  }

  lemma PlusRegroups(x: Word, y: Word, z: Word)
    ensures Plus(Plus(x, y), z) == (x + y + z) % WORD == Plus(x, Plus(y, z))
  {
    SumModulo(x + y, z);
    SumModulo(x, y + z);
  }

  lemma FiveTerms(v: Word, f: Word, e: Word, k: Word, w: Word)
    ensures Sum5(v, f, e, k, w) == (v + f + e + k + w) % WORD
  {
    PlusRegroups(v, f, e);
    SumModulo(v + f + e, k);
    SumModulo(v + f + e + k, w);
  }

  /** The source adds `(f + k) + ((v + e) + w)`; that is the standard's sum. */
  lemma SumOrder(v: Word, f: Word, e: Word, k: Word, w: Word)
    ensures Plus(Plus(f, k), Plus(Plus(v, e), w)) == Sum5(v, f, e, k, w)
  {
    FiveTerms(v, f, e, k, w);
    PlusRegroups(v, e, w);
    PlusRegroups(f, k, Plus(Plus(v, e), w));
    SumModulo(f + k, v + e + w);
  }

  lemma {:induction false} FoldPrefix(m: Bytes, more: Bytes, n: nat)
    requires 64 * n <= |m|
    ensures Fold(m + more, n) == Fold(m, n)
  {
    hide Compress;
    if n > 0 {
      FoldPrefix(m, more, n - 1);
      assert Block(m + more, n - 1) == Block(m, n - 1);
    }
  }

  // -------------------------------------------------------- the methods

  lemma ScheduleStep(block: Bytes, t: nat)
    requires |block| == 64 && t < 80
    ensures t < 16 ==> W(block, t) == BigEndian(block, 4 * t)
    ensures t >= 16 ==>
      var x := Xor(Xor(Xor(W(block, t - 3), W(block, t - 8)), W(block, t - 14)), W(block, t - 16));
      W(block, t) == Or(Left(x, 1), Right(x, 31))
  {
    hide BigEndian, Xor, Or, Left, Right;
  }

  /** The schedule loops. */
  method Schedule(block: Bytes) returns (w: array<Word>)
    requires |block| == 64
    ensures fresh(w) && w.Length == 80 && forall j :: 0 <= j < 80 ==> w[j] == W(block, j)
  {
    hide *;
    w := new Word[80](_ => 0);
    var i := 0;
    while i < 16
      invariant i <= 16 && forall j :: 0 <= j < i ==> w[j] == W(block, j)
    {
      ScheduleStep(block, i);
      w[i] := BigEndian(block, 4 * i);
      i := i + 1;
    }
    while i < 80
      invariant 16 <= i <= 80 && forall j :: 0 <= j < i ==> w[j] == W(block, j)
    {
      ScheduleStep(block, i);
      var x := Xor(Xor(Xor(w[i - 3], w[i - 8]), w[i - 14]), w[i - 16]);
      w[i] := Or(Left(x, 1), Right(x, 31));
      i := i + 1;
    }
  }

  /** The round's logical function plus its constant, by the range of the round number. */
  method Mix(i: nat, b: Word, c: Word, d: Word) returns (temp: Word)
    requires i < 80
    ensures temp == Plus(F(i, b, c, d), K(i))
  {
    hide Plus, And, Or, Xor, Not, Ch, Maj;
    if i < 20 {
      ChWithOr(b, c, d);
      temp := Plus(Or(And(b, c), And(Not(b), d)), 0x5A827999);
    } else if i < 40 {
      temp := Plus(Xor(Xor(b, c), d), 0x6ED9EBA1);
    } else if i < 60 {
      MajWithOr(b, c, d);
      temp := Plus(Or(Or(And(b, c), And(b, d)), And(c, d)), 0x8F1BBCDC);
    } else {
      temp := Plus(Xor(Xor(b, c), d), 0xCA62C1D6);
    }
  }

  lemma RoundsStart(s: State, block: Bytes)
    requires |block| == 64
    ensures Rounds(s, block, 0) == s
  {
  }

  lemma RoundsStep(s: State, block: Bytes, i: nat, w: Word)
    requires |block| == 64 && i < 80 && w == W(block, i)
    ensures var r := Rounds(s, block, i);
            Rounds(s, block, i + 1)
            == State(Plus(Plus(F(i, r.b, r.c, r.d), K(i)), Plus(Plus(Or(Left(r.a, 5), Right(r.a, 27)), r.e), w)),
                     r.a, Or(Left(r.b, 30), Right(r.b, 2)), r.c, r.d)
  {
    hide F, K, W, Plus, Or, Left, Right;
    var r := Rounds(s, block, i);
    SumOrder(RotL(r.a, 5), F(i, r.b, r.c, r.d), r.e, K(i), w);
  }

  lemma CompressIs(s: State, block: Bytes, r: State)
    requires |block| == 64 && r == Rounds(s, block, 80)
    ensures Compress(s, block)
            == State(Plus(s.a, r.a), Plus(s.b, r.b), Plus(s.c, r.c), Plus(s.d, r.d), Plus(s.e, r.e))
  {
    hide Rounds, Plus;
  }

  /** `sha1_transform`. */
  method Transform(s: State, block: Bytes) returns (r: State)
    requires |block| == 64
    ensures r == Compress(s, block)
  {
    hide *;
    var w := Schedule(block);
    var a, b, c, d, e := s.a, s.b, s.c, s.d, s.e;
    var i := 0;
    RoundsStart(s, block);
    while i < 80
      invariant i <= 80 && State(a, b, c, d, e) == Rounds(s, block, i)
      invariant w.Length == 80 && forall j :: 0 <= j < 80 ==> w[j] == W(block, j)
    {
      assert w[i] == W(block, i);
      RoundsStep(s, block, i, w[i]);
      var temp := Mix(i, b, c, d);
      temp := Plus(temp, Plus(Plus(Or(Left(a, 5), Right(a, 27)), e), w[i]));
      e := d;
      d := c;
      c := Or(Left(b, 30), Right(b, 2));
      b := a;
      a := temp;
      i := i + 1;
    }
    r := State(Plus(s.a, a), Plus(s.b, b), Plus(s.c, c), Plus(s.d, d), Plus(s.e, e));
    CompressIs(s, block, State(a, b, c, d, e));
  }
}
