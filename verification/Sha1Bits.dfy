/**
 The block function of section 6.1.2 of FIPS 180-4 once more, as a relation on bits and sums that
 shares no operator with the model: a compression is a run of 80 states and 80 words, each related to
 the ones before it bit by bit. The model computes the only such compression.
 */
module Sha1Bits {
  import opened Bytes
  import opened Sha1
  import Bits

  /** Bit `i` of `x`, the lowest being bit 0. */
  function Bit(x: nat, i: nat): (b: nat)
    ensures b <= 1
  {
    if i == 0 then x % 2 else Bit(x / 2, i - 1)
  }

  // ------------------------------------------------------- bits of the model

  lemma {:induction false} BitOps(x: nat, y: nat, i: nat)
    ensures Bit(Bits.And(x, y), i) == if Bit(x, i) == 1 && Bit(y, i) == 1 then 1 else 0
    ensures Bit(Bits.Or(x, y), i) == if Bit(x, i) == 1 || Bit(y, i) == 1 then 1 else 0
    ensures Bit(Bits.Xor(x, y), i) == (Bit(x, i) + Bit(y, i)) % 2
    decreases i
  {
    hide Bits.And, Bits.Or, Bits.Xor;
    Bits.AndStep(x, y);
    Bits.OrStep(x, y);
    Bits.XorStep(x, y);
    if i > 0 { BitOps(x / 2, y / 2, i - 1); }
  }

  lemma {:induction false} BitNot(x: nat, w: nat, i: nat)
    requires x < Bits.Pow2(w) && i < w
    ensures Bit(Bits.Pow2(w) - 1 - x, i) == 1 - Bit(x, i)
    decreases i
  {
    Complement(x, Bits.Pow2(w - 1));
    if i > 0 { BitNot(x / 2, w - 1, i - 1); }
  }

  /** A word with `low` in its lowest `k` bits. */
  lemma {:induction false} BitGlued(high: nat, low: nat, k: nat, i: nat)
    requires low < Bits.Pow2(k)
    ensures Bit(Bits.Glued(high, low, k), i) == if i < k then Bit(low, i) else Bit(high, i - k)
    decreases k
  {
    if k == 0 {
    } else {
      Bits.GluedHalf(high, low, k);
      hide Bits.Glued;
      if i > 0 { BitGlued(high, low / 2, k - 1, i - 1); }
    }
  }

  lemma {:induction false} Cut(x: nat, k: nat) returns (high: nat, low: nat)
    ensures low < Bits.Pow2(k) && x == Bits.Glued(high, low, k)
    decreases k
  {
    if k == 0 {
      high, low := x, 0;
    } else {
      var l;
      high, l := Cut(x / 2, k - 1);
      low := 2 * l + x % 2;
      assert high * Bits.Pow2(k) == 2 * (high * Bits.Pow2(k - 1));
    }
  }

  /** Bit `i` of a word rotated by `n` is the bit `n` places below. */
  lemma BitRotated(x: Word, n: nat, i: nat)
    requires n <= 32 && i < 32
    ensures Bit(RotL(x, n), i) == Bit(x, if i < n then i + 32 - n else i - n)
  {
    hide RotL, Bits.Pow2, Bit;
    var high, low := Cut(x, 32 - n);
    RotLMoves(high, low, n, x);
    BitGlued(low, high, n, i);
    BitGlued(high, low, 32 - n, if i < n then i + 32 - n else i - n);
  }

  /** Words with the same bits are the same. */
  lemma {:induction false} BitsDetermine(x: nat, y: nat, w: nat)
    requires x < Bits.Pow2(w) && y < Bits.Pow2(w) && forall i :: 0 <= i < w ==> Bit(x, i) == Bit(y, i)
    ensures x == y
    decreases w
  {
    if w > 0 {
      assert Bit(x, 0) == Bit(y, 0);
      forall i | 0 <= i < w - 1 ensures Bit(x / 2, i) == Bit(y / 2, i) { assert Bit(x, i + 1) == Bit(y, i + 1); }
      BitsDetermine(x / 2, y / 2, w - 1);
    }
  }

  lemma SameWord(x: Word, y: Word)
    requires forall i :: 0 <= i < 32 ==> Bit(x, i) == Bit(y, i)
    ensures x == y
  {
    WordWidth();
    hide Bits.Pow2;
    BitsDetermine(x, y, 32);
  }

  // -------------------------------------------------- the standard, bit by bit

  /** Section 4.1.1: choose, parity, majority, parity. */
  function FBit(t: nat, x: nat, y: nat, z: nat): nat {
    if t < 20 then (if x == 1 then y else z)
    else if 40 <= t < 60 then (if x + y + z >= 2 then 1 else 0)
    else (x + y + z) % 2
  }

  /** What the square root of is, in units of 2^-30, the constant of round `t` (section 4.2.1). */
  function Radicand(t: nat): nat { if t < 20 then 2 else if t < 40 then 3 else if t < 60 then 5 else 10 }

  predicate Root(k: nat, t: nat) {
    k * k <= Radicand(t) * 0x1000_0000_0000_0000 < (k + 1) * (k + 1)
  }

  /** One round: `rot` is `a` moved up five places, `f` the function of `b`, `c` and `d`, `k` the constant. */
  predicate RoundWith(r: State, t: nat, w: Word, next: State, rot: Word, f: Word, k: Word) {
    && (forall i :: 0 <= i < 32 ==> Bit(rot, i) == Bit(r.a, (i + 27) % 32))
    && (forall i :: 0 <= i < 32 ==> Bit(f, i) == FBit(t, Bit(r.b, i), Bit(r.c, i), Bit(r.d, i)))
    && Root(k, t)
    && next.a == (rot + f + r.e + k + w) % 0x1_0000_0000
    && next.b == r.a
    && (forall i :: 0 <= i < 32 ==> Bit(next.c, i) == Bit(r.b, (i + 2) % 32))
    && next.d == r.c && next.e == r.d
  }

  ghost predicate OneRound(r: State, t: nat, w: Word, next: State) {
    exists rot, f, k :: RoundWith(r, t, w, next, rot, f, k)
  }

  /** Word `t` of the schedule: sixteen words of the block, then each bit the parity of four bits one place below. */
  predicate Scheduled(block: Bytes, w: seq<Word>, t: nat)
    requires |block| == 64 && |w| == 80 && t < 80
  {
    if t < 16 then w[t] == Number(block[4 * t], block[4 * t + 1], block[4 * t + 2], block[4 * t + 3])
    else
      forall i :: 0 <= i < 32 ==>
        var j := (i + 31) % 32;
        Bit(w[t], i) == (Bit(w[t - 3], j) + Bit(w[t - 8], j) + Bit(w[t - 14], j) + Bit(w[t - 16], j)) % 2
  }

  predicate Added(s: State, r: State, out: State) {
    && out.a == (s.a + r.a) % 0x1_0000_0000 && out.b == (s.b + r.b) % 0x1_0000_0000
    && out.c == (s.c + r.c) % 0x1_0000_0000 && out.d == (s.d + r.d) % 0x1_0000_0000
    && out.e == (s.e + r.e) % 0x1_0000_0000
  }

  ghost predicate CompressionWith(s: State, block: Bytes, out: State, w: seq<Word>, st: seq<State>)
    requires |block| == 64
  {
    && |w| == 80 && |st| == 81 && st[0] == s
    && (forall t :: 0 <= t < 80 ==> Scheduled(block, w, t))
    && (forall t :: 0 <= t < 80 ==> OneRound(st[t], t, w[t], st[t + 1]))
    && Added(s, st[80], out)
  }

  ghost predicate Compression(s: State, block: Bytes, out: State)
    requires |block| == 64
  {
    exists w, st :: CompressionWith(s, block, out, w, st)
  }

  // ------------------------------------------------------------ the constants

  lemma RoundConstants(t: nat)
    ensures Root(K(t), t)
  {
  }

  lemma {:induction false} Squares(a: nat, b: nat)
    requires a < b
    ensures (a + 1) * (a + 1) <= b * b
  {
    assert b * b == (a + 1) * (a + 1) + (b - a - 1) * (b + a + 1);
  }

  lemma RootUnique(j: nat, k: nat, t: nat)
    requires Root(j, t) && Root(k, t)
    ensures j == k
  {
    if j < k { Squares(j, k); }
    if k < j { Squares(k, j); }
  }

  /** The initial state in memory, low bytes first: 01 23 45 67 89 AB CD EF, the same backwards, and F0 E1 D2 C3. */
  lemma InitialOctets()
    ensures INITIAL.a == Number(0x67, 0x45, 0x23, 0x01) && INITIAL.b == Number(0xEF, 0xCD, 0xAB, 0x89)
    ensures INITIAL.c == Number(0x98, 0xBA, 0xDC, 0xFE) && INITIAL.d == Number(0x10, 0x32, 0x54, 0x76)
    ensures INITIAL.e == Number(0xC3, 0xD2, 0xE1, 0xF0)
  {
  }

  // ------------------------------------------------------- the model computes it

  lemma ChBit(b: Word, c: Word, d: Word, i: nat)
    requires i < 32
    ensures Bit(Ch(b, c, d), i) == if Bit(b, i) == 1 then Bit(c, i) else Bit(d, i)
  {
    hide Bit, Bits.And, Bits.Xor, Bits.Pow2;
    WordWidth();
    var x, y, z, n: nat := b, c, d, WORD - 1 - b;
    BitNot(x, 32, i);
    BitOps(x, y, i);
    BitOps(n, z, i);
    BitOps(Bits.And(x, y), Bits.And(n, z), i);
  }

  lemma MajBit(b: Word, c: Word, d: Word, i: nat)
    requires i < 32
    ensures Bit(Maj(b, c, d), i) == if Bit(b, i) + Bit(c, i) + Bit(d, i) >= 2 then 1 else 0
  {
    hide Bit, Bits.And, Bits.Xor;
    var x, y, z: nat := b, c, d;
    BitOps(x, y, i);
    BitOps(x, z, i);
    BitOps(y, z, i);
    var p, q, r := Bits.And(x, y), Bits.And(x, z), Bits.And(y, z);
    BitOps(p, q, i);
    BitOps(Bits.Xor(p, q), r, i);
  }

  lemma ParityBit(b: Word, c: Word, d: Word, i: nat)
    requires i < 32
    ensures Bit(Parity(b, c, d), i) == (Bit(b, i) + Bit(c, i) + Bit(d, i)) % 2
  {
    hide Bit, Bits.Xor;
    var x, y, z: nat := b, c, d;
    BitOps(x, y, i);
    BitOps(Bits.Xor(x, y), z, i);
  }

  lemma FBits(t: nat, b: Word, c: Word, d: Word, i: nat)
    requires i < 32
    ensures Bit(F(t, b, c, d), i) == FBit(t, Bit(b, i), Bit(c, i), Bit(d, i))
  {
    hide Bit, Ch, Maj, Parity;
    ChBit(b, c, d, i);
    ParityBit(b, c, d, i);
    MajBit(b, c, d, i);
  }

  lemma Rotations(x: Word, i: nat)
    requires i < 32
    ensures Bit(RotL(x, 5), i) == Bit(x, (i + 27) % 32)
    ensures Bit(RotL(x, 30), i) == Bit(x, (i + 2) % 32)
    ensures Bit(RotL(x, 1), i) == Bit(x, (i + 31) % 32)
  {
    hide RotL, Bit;
    BitRotated(x, 5, i);
    BitRotated(x, 30, i);
    BitRotated(x, 1, i);
  }

  lemma RoundIs(r: State, t: nat, w: Word)
    ensures RoundWith(r, t, w, Round(r, t, w), RotL(r.a, 5), F(t, r.b, r.c, r.d), K(t))
  {
    hide RotL, F, K, Bit, FBit, Root, Plus;
    RoundConstants(t);
    FiveTerms(RotL(r.a, 5), F(t, r.b, r.c, r.d), r.e, K(t), w);
    forall i | 0 <= i < 32
      ensures Bit(RotL(r.a, 5), i) == Bit(r.a, (i + 27) % 32) && Bit(RotL(r.b, 30), i) == Bit(r.b, (i + 2) % 32)
      ensures Bit(F(t, r.b, r.c, r.d), i) == FBit(t, Bit(r.b, i), Bit(r.c, i), Bit(r.d, i))
    {
      Rotations(r.a, i);
      Rotations(r.b, i);
      FBits(t, r.b, r.c, r.d, i);
    }
  }

  lemma RoundUnique(r: State, t: nat, w: Word, next: State, rot: Word, f: Word, k: Word)
    requires RoundWith(r, t, w, next, rot, f, k)
    ensures next == Round(r, t, w)
  {
    hide RotL, F, K, Bit, FBit, Root, Plus;
    RoundIs(r, t, w);
    RootUnique(k, K(t), t);
    SameWord(rot, RotL(r.a, 5));
    SameWord(f, F(t, r.b, r.c, r.d));
    SameWord(next.c, RotL(r.b, 30));
  }

  function Words(block: Bytes): (w: seq<Word>)
    requires |block| == 64
    ensures |w| == 80
  {
    seq(80, t requires 0 <= t < 80 => W(block, t))
  }

  lemma XorOfFour(x: Word, y: Word, z: Word, u: Word, i: nat)
    requires i < 32
    ensures Bit(Xor(Xor(Xor(x, y), z), u), i) == (Bit(x, i) + Bit(y, i) + Bit(z, i) + Bit(u, i)) % 2
  {
    hide Bit, Bits.Xor;
    BitOps(x, y, i);
    BitOps(Bits.Xor(x, y), z, i);
    BitOps(Bits.Xor(Bits.Xor(x, y), z), u, i);
  }

  lemma WIs(block: Bytes, t: nat)
    requires |block| == 64 && 16 <= t < 80
    ensures W(block, t) == RotL(Xor(Xor(Xor(W(block, t - 3), W(block, t - 8)), W(block, t - 14)), W(block, t - 16)), 1)
  {
    hide Xor, RotL;
  }

  /** Bit `i` of a word of the schedule. */
  lemma ScheduleBits(block: Bytes, t: nat, i: nat)
    requires |block| == 64 && 16 <= t < 80 && i < 32
    ensures var j := (i + 31) % 32;
            Bit(W(block, t), i)
            == (Bit(W(block, t - 3), j) + Bit(W(block, t - 8), j)
                + Bit(W(block, t - 14), j) + Bit(W(block, t - 16), j)) % 2
  {
    hide W, Xor, RotL, Bit;
    var x, y, z, u := W(block, t - 3), W(block, t - 8), W(block, t - 14), W(block, t - 16);
    WIs(block, t);
    Rotations(Xor(Xor(Xor(x, y), z), u), i);
    XorOfFour(x, y, z, u, (i + 31) % 32);
  }

  lemma FirstWords(block: Bytes, t: nat)
    requires |block| == 64 && t < 16
    ensures W(block, t) == Number(block[4 * t], block[4 * t + 1], block[4 * t + 2], block[4 * t + 3])
  {
    BigEndianIs(block, 4 * t);
    hide BigEndian;
  }

  lemma WordsAt(block: Bytes, t: nat)
    requires |block| == 64 && t < 80
    ensures Words(block)[t] == W(block, t)
  {
    hide W;
  }

  lemma ScheduleIs(block: Bytes, t: nat)
    requires |block| == 64 && t < 80
    ensures Scheduled(block, Words(block), t)
  {
    hide Bit, W, Words, Number;
    WordsAt(block, t);
    if t < 16 {
      FirstWords(block, t);
    } else {
      WordsAt(block, t - 3);
      WordsAt(block, t - 8);
      WordsAt(block, t - 14);
      WordsAt(block, t - 16);
      forall i | 0 <= i < 32
        ensures var w, j := Words(block), (i + 31) % 32;
                Bit(w[t], i) == (Bit(w[t - 3], j) + Bit(w[t - 8], j) + Bit(w[t - 14], j) + Bit(w[t - 16], j)) % 2
      {
        ScheduleBits(block, t, i);
      }
    }
  }

  function States(s: State, block: Bytes): (st: seq<State>)
    requires |block| == 64
    ensures |st| == 81
  {
    seq(81, t requires 0 <= t < 81 => Rounds(s, block, t))
  }

  lemma RoundIsOne(r: State, t: nat, w: Word)
    ensures OneRound(r, t, w, Round(r, t, w))
  {
    hide RoundWith, Round, RotL, F, K;
    RoundIs(r, t, w);
  }

  /** What the model compresses a block to is a compression. */
  lemma CompressIsCompression(s: State, block: Bytes)
    requires |block| == 64
    ensures Compression(s, block, Compress(s, block))
  {
    hide Round, W, OneRound, Scheduled, Words;
    var w, st := Words(block), States(s, block);
    forall t | 0 <= t < 80 ensures Scheduled(block, w, t) && OneRound(st[t], t, w[t], st[t + 1]) {
      ScheduleIs(block, t);
      WordsAt(block, t);
      RoundIsOne(st[t], t, W(block, t));
    }
    assert CompressionWith(s, block, Compress(s, block), w, st);
  }

  // ------------------------------------------------------ and nothing else is

  /** The schedule is determined by the block. */
  lemma {:induction false} ScheduleUnique(block: Bytes, w: seq<Word>, t: nat)
    requires |block| == 64 && |w| == 80 && t < 80 && forall k :: 0 <= k < 80 ==> Scheduled(block, w, k)
    ensures w[t] == W(block, t)
    decreases t
  {
    assert Scheduled(block, w, t);
    if t < 16 {
      FirstWords(block, t);
    } else {
      ScheduleUnique(block, w, t - 3);
      ScheduleUnique(block, w, t - 8);
      ScheduleUnique(block, w, t - 14);
      ScheduleUnique(block, w, t - 16);
      hide Bit, W;
      forall i | 0 <= i < 32 ensures Bit(w[t], i) == Bit(W(block, t), i) { ScheduleBits(block, t, i); }
      SameWord(w[t], W(block, t));
    }
  }

  lemma OneRoundUnique(r: State, t: nat, w: Word, next: State)
    requires OneRound(r, t, w, next)
    ensures next == Round(r, t, w)
  {
    hide RoundWith, Round;
    var rot, f, k :| RoundWith(r, t, w, next, rot, f, k);
    RoundUnique(r, t, w, next, rot, f, k);
  }

  lemma {:induction false} RunUnique(s: State, block: Bytes, w: seq<Word>, st: seq<State>, t: nat)
    requires |block| == 64 && |w| == 80 && |st| == 81 && st[0] == s && t <= 80
    requires forall k :: 0 <= k < 80 ==> Scheduled(block, w, k) && OneRound(st[k], k, w[k], st[k + 1])
    ensures st[t] == Rounds(s, block, t)
    decreases t
  {
    hide Scheduled, OneRound, Round, W;
    if t > 0 {
      RunUnique(s, block, w, st, t - 1);
      ScheduleUnique(block, w, t - 1);
      assert OneRound(st[t - 1], t - 1, w[t - 1], st[t - 1 + 1]);
      OneRoundUnique(st[t - 1], t - 1, w[t - 1], st[t]);
    }
  }

  lemma AddedIs(s: State, r: State, out: State)
    requires Added(s, r, out)
    ensures out == AddState(s, r)
  {
  }

  lemma RunDetermines(s: State, block: Bytes, out: State, w: seq<Word>, st: seq<State>)
    requires |block| == 64 && CompressionWith(s, block, out, w, st)
    ensures out == Compress(s, block)
  {
    hide Scheduled, OneRound, Rounds, Added, AddState;
    RunUnique(s, block, w, st, 80);
    AddedIs(s, st[80], out);
  }

  /** A block is compressed to `out` in the standard's sense exactly when the model computes `out`. */
  lemma CompressExactly(s: State, block: Bytes, out: State)
    requires |block| == 64
    ensures Compression(s, block, out) <==> out == Compress(s, block)
  {
    hide CompressionWith, Compress;
    CompressIsCompression(s, block);
    if Compression(s, block, out) {
      var w, st :| CompressionWith(s, block, out, w, st);
      RunDetermines(s, block, out, w, st);
    }
  }

  /** Blocks are compressed in order, each from the state the one before it left. */
  lemma BlocksInOrder(m: Bytes, n: nat)
    requires 64 * (n + 1) <= |m|
    ensures Fold(m, 0) == INITIAL && Compression(Fold(m, n), m[64 * n..64 * n + 64], Fold(m, n + 1))
  {
    CompressIsCompression(Fold(m, n), Block(m, n));
    hide Compress, Compression;
  }
}
