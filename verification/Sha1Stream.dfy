/**
 The streaming side of the handshake's hash: the 64-byte block buffer, the two-word bit
 counter with its carry, and the final padding. The padding is written with the low
 length word first, so it is not the one of section 5.1.1 of FIPS 180-4; below it is
 proved exactly when the two coincide.
 */
module Sha1Stream {
  import opened Bytes
  import opened Sha1
  import Bits

  /** How many whole blocks a message has. */
  function Whole(m: Bytes): (n: nat)
    ensures 64 * n <= |m| < 64 * n + 64
  {
    |m| / 64
  }

  /** The bytes after the last whole block. */
  function Tail(m: Bytes): (t: Bytes)
    ensures |t| < 64 && |t| == |m| - 64 * Whole(m)
  {
    m[64 * Whole(m)..]
  }

  // -------------------------------------------------- the 64-bit counter

  /** The two words of the bit count of an `n`-byte message, modulo 2^64. */
  function LowWord(n: nat): nat { 8 * n % WORD }

  function HighWord(n: nat): nat { 8 * n / WORD % WORD }

  lemma WordsInRange(n: nat)
    ensures LowWord(n) < WORD && HighWord(n) < WORD
  {
  }

  lemma HighOf(n: nat)
    ensures 8 * n / WORD == n / 0x2000_0000 && LowWord(n) == 8 * (n % 0x2000_0000)
  {
    var q, r := n / 0x2000_0000, n % 0x2000_0000;
    assert 8 * n == WORD * q + 8 * r;
  }

  lemma SumOfWords(x: nat, y: nat, c: nat)
    ensures ((x % WORD + c) % WORD + y % WORD) % WORD == (x + y + c) % WORD
  {
    var a, b := x / WORD, y / WORD;
    var s := x % WORD + c;
    assert x + y + c == s % WORD + y % WORD + WORD * (a + b + s / WORD);
    Bits.Wraps(s % WORD + y % WORD, a + b + s / WORD, WORD);
  }

  lemma LowCarry(r: nat, rl: nat)
    requires r < 0x2000_0000 && rl < 0x2000_0000
    ensures var low := (8 * r + 8 * rl) % WORD;
            var carry := if low < 8 * rl then 1 else 0;
            && (low < 8 * rl <==> r + rl >= 0x2000_0000)
            && low == 8 * (r + rl - 0x2000_0000 * carry)
  {
    if r + rl >= 0x2000_0000 {
      assert 8 * r + 8 * rl == WORD + 8 * (r + rl - 0x2000_0000);
    }
  }

  lemma SplitSum(n: nat, len: nat)
    ensures var carry := if n % 0x2000_0000 + len % 0x2000_0000 >= 0x2000_0000 then 1 else 0;
            && (n + len) / 0x2000_0000 == n / 0x2000_0000 + len / 0x2000_0000 + carry
            && (n + len) % 0x2000_0000 == n % 0x2000_0000 + len % 0x2000_0000 - 0x2000_0000 * carry
  {
  }

  lemma LowIs(n: nat)
    ensures 8 * n % WORD == 8 * (n % 0x2000_0000)
  {
    HighOf(n);
  }

  /** The source's update of the counter: add the low parts, carry on wrap, add the high part. */
  lemma CarryStep(n: nat, len: nat)
    ensures var add := 8 * len % WORD;
            var low := (LowWord(n) + add) % WORD;
            && low == LowWord(n + len)
            && ((HighWord(n) + (if low < add then 1 else 0)) % WORD + len / 0x2000_0000 % WORD) % WORD
               == HighWord(n + len)
  {
    HighOf(n);
    HighOf(len);
    HighOf(n + len);
    hide LowWord;
    SplitSum(n, len);
    var q, r := n / 0x2000_0000, n % 0x2000_0000;
    var ql, rl := len / 0x2000_0000, len % 0x2000_0000;
    LowCarry(r, rl);
    assert 8 * len % WORD == 8 * rl by { LowIs(len); }
    SumOfWords(q, ql, if r + rl >= 0x2000_0000 then 1 else 0);
  }

  lemma BufferedBytes(m: Bytes)
    ensures LowWord(|m|) / 8 % 64 == |Tail(m)|
  {
    var n := |m|;
    HighOf(n);
    var q, r := n / 0x2000_0000, n % 0x2000_0000;
    assert n == 64 * (0x80_0000 * q) + r;
  }

  /** `(count[0] >> 3) & 63` is the number of buffered bytes. */
  lemma Buffered(m: Bytes)
    ensures Bits.And(LowWord(|m|) / 8, 63) == LowWord(|m|) / 8 % 64 == |Tail(m)|
  {
    Bits.WordMasks(LowWord(|m|) / 8);
    BufferedBytes(m);
    hide LowWord, Tail, Bits.And;
  }

  /** `(count[0] & 504) == 448` says that 56 bytes are buffered. */
  lemma FullButLength(m: Bytes)
    ensures Bits.And(LowWord(|m|), 504) == 448 <==> |Tail(m)| == 56
  {
    Buffered(m);
    hide LowWord, Tail, Bits.And;
    Bits.WordMasks(LowWord(|m|));
  }

  // -------------------------------------------------------------- padding

  /** Byte `k` of a word, the least significant being byte 0. */
  function Octet(c: nat, k: nat): byte {
    if k == 0 then c % 256 else if k == 1 then c / 0x100 % 256 else if k == 2 then c / 0x1_0000 % 256
      else c / 0x100_0000 % 256
  }

  /** `(w >> (k * 8)) & 255`. */
  function ByteOf(w: Word, k: nat): (b: byte)
    requires k < 4
    ensures b == Octet(w, k)
  {
    ShiftedOctet(w, k);
    Bits.And(Right(w, 8 * k), 255)
  }

  lemma ShiftedOctet(w: Word, k: nat)
    requires k < 4
    ensures Bits.And(Right(w, 8 * k), 255) == Octet(w, k)
  {
    BytePowers();
    assert Bits.Pow2(0) == 1;
    hide Bits.And, Bits.Pow2;
    Bits.ByteMasks(Right(w, 8 * k));
  }

  /** The eight length bytes for a first and a second word. */
  function LengthField(first: nat, second: nat): (f: Bytes)
    ensures |f| == 8
  {
    seq(8, i requires 0 <= i < 8 => Octet(if i >= 4 then second else first, 3 - i % 4))
  }

  lemma FieldAt(first: Word, second: Word, i: nat)
    requires i < 8
    ensures LengthField(first, second)[i] == ByteOf(if i >= 4 then second else first, 3 - i % 4)
  {
    hide Octet;
  }

  function Zeros(k: nat): (z: Bytes)
    ensures |z| == k
  {
    seq(k, _ => 0)
  }

  /** How many zero bytes bring the length to 56 modulo 64. */
  function ZeroCount(n: nat): nat { (55 - n) % 64 }

  function PaddedWith(m: Bytes, field: Bytes): Bytes {
    m + [0x80] + Zeros(ZeroCount(|m|)) + field
  }

  /** What `sha1_final` compresses. */
  function Padded(m: Bytes): Bytes {
    PaddedWith(m, LengthField(LowWord(|m|), HighWord(|m|)))
  }

  /** Section 5.1.1 of FIPS 180-4, for messages below 2^64 bits. */
  function StandardPadded(m: Bytes): Bytes {
    PaddedWith(m, LengthField(HighWord(|m|), LowWord(|m|)))
  }

  lemma ZeroCountIs(n: nat)
    ensures ZeroCount(n) < 64 && (n + 1 + ZeroCount(n) + 8) % 64 == 0
  {
    var q := (55 - n) / 64;
    assert 55 - n == 64 * q + ZeroCount(n);
    assert n + 1 + ZeroCount(n) + 8 == 64 * (1 - q);
  }

  /** Padding ends on a block boundary, keeps the message in front and adds less than two blocks. */
  lemma PaddedIsWhole(m: Bytes)
    ensures |Padded(m)| % 64 == 0 && m <= Padded(m) && |m| + 9 <= |Padded(m)| <= |m| + 72
  {
    ZeroCountIs(|m|);
    hide LowWord, HighWord, ZeroCount, LengthField, Zeros;
    var front := m + [0x80] + Zeros(ZeroCount(|m|));
    assert |Padded(m)| == |front| + 8;
  }

  lemma OctetsRebuild(c: nat)
    requires c < WORD
    ensures c == Octet(c, 0) + 0x100 * Octet(c, 1) + 0x1_0000 * Octet(c, 2) + 0x100_0000 * Octet(c, 3)
  {
    var c1, c2, c3 := c / 0x100, c / 0x1_0000, c / 0x100_0000;
    assert c == 0x100 * c1 + c % 0x100;
    assert c1 == 0x100 * c2 + c1 % 0x100;
    assert c2 == 0x100 * c3 + c2 % 0x100;
    assert c3 < 0x100;
  }

  lemma OctetsDetermine(c: nat, d: nat)
    requires c < WORD && d < WORD
    requires Octet(c, 0) == Octet(d, 0) && Octet(c, 1) == Octet(d, 1) && Octet(c, 2) == Octet(d, 2)
             && Octet(c, 3) == Octet(d, 3)
    ensures c == d
  {
    hide Octet;
    OctetsRebuild(c);
    OctetsRebuild(d);
  }

  lemma FieldsAgree(low: nat, high: nat)
    requires low < WORD && high < WORD
    ensures LengthField(low, high) == LengthField(high, low) <==> low == high
  {
    hide Octet;
    var f, g := LengthField(low, high), LengthField(high, low);
    if f == g {
      assert f[0] == g[0] && f[1] == g[1] && f[2] == g[2] && f[3] == g[3];
      OctetsDetermine(low, high);
    }
  }

  /** The padded message is the standard's exactly when the two length words are equal. */
  lemma StandardIffWordsEqual(m: Bytes)
    ensures Padded(m) == StandardPadded(m) <==> LowWord(|m|) == HighWord(|m|)
  {
    hide LowWord, HighWord, LengthField, Zeros, ZeroCount;
    var low, high := LowWord(|m|), HighWord(|m|);
    WordsInRange(|m|);
    FieldsAgree(low, high);
    var front := m + [0x80] + Zeros(ZeroCount(|m|));
    var p, s := Padded(m), StandardPadded(m);
    assert p[|front|..] == LengthField(low, high) && s[|front|..] == LengthField(high, low);
  }

  /** The number that four bytes from `i` write, the highest first. */
  function Written(p: Bytes, i: nat): nat
    requires i + 4 <= |p|
  {
    Number(p[i], p[i + 1], p[i + 2], p[i + 3])
  }

  lemma FieldWritten(first: Word, second: Word)
    ensures var f := LengthField(first, second); Written(f, 0) == first && Written(f, 4) == second
  {
    hide Octet;
    OctetsRebuild(first);
    OctetsRebuild(second);
  }

  lemma PaddedWithBytes(m: Bytes, first: Word, second: Word)
    ensures var p := PaddedWith(m, LengthField(first, second));
            && |p| >= |m| + 9 && p[|m|] == 0x80 && (forall i :: |m| < i < |p| - 8 ==> p[i] == 0)
            && Written(p, |p| - 8) == first && Written(p, |p| - 4) == second
  {
    FieldWritten(first, second);
    hide LengthField, ZeroCount, Number;
    var f, front := LengthField(first, second), m + [0x80] + Zeros(ZeroCount(|m|));
    assert forall i :: 0 <= i < 8 ==> (front + f)[|front| + i] == f[i];
  }

  /** What stands where after the message: 0x80, zeros, and two words of the length in bits, the low one first. */
  lemma PaddingBytes(m: Bytes)
    ensures var p := Padded(m);
            && |p| >= |m| + 9 && p[|m|] == 0x80 && (forall i :: |m| < i < |p| - 8 ==> p[i] == 0)
            && Written(p, |p| - 8) == 8 * |m| % 0x1_0000_0000
            && Written(p, |p| - 4) == 8 * |m| / 0x1_0000_0000 % 0x1_0000_0000
    ensures var p := StandardPadded(m);
            && |p| >= |m| + 9 && p[|m|] == 0x80 && (forall i :: |m| < i < |p| - 8 ==> p[i] == 0)
            && Written(p, |p| - 8) == 8 * |m| / 0x1_0000_0000 % 0x1_0000_0000
            && Written(p, |p| - 4) == 8 * |m| % 0x1_0000_0000
  {
    WordsAre(|m|);
    WordsInRange(|m|);
    hide LowWord, HighWord, PaddedWith, Written;
    PaddedWithBytes(m, LowWord(|m|), HighWord(|m|));
    PaddedWithBytes(m, HighWord(|m|), LowWord(|m|));
  }

  lemma WordsAre(n: nat)
    ensures LowWord(n) == 8 * n % 0x1_0000_0000 && HighWord(n) == 8 * n / 0x1_0000_0000 % 0x1_0000_0000
  {
  }

  /** Below 2^29 bytes only the empty message is padded as the standard says. */
  lemma ShortMessages(m: Bytes)
    requires |m| < 0x2000_0000
    ensures Padded(m) == StandardPadded(m) <==> m == []
  {
    StandardIffWordsEqual(m);
  }

  /** Longer messages can be padded as the standard says: 2^32 + 1 bytes make both words 8. */
  lemma EqualWordsExist(m: Bytes)
    requires |m| == 8 * 0x2000_0000 + 1
    ensures Padded(m) == StandardPadded(m)
  {
    StandardIffWordsEqual(m);
  }

  // --------------------------------------------------------- the context

  function WordAt(s: State, i: nat): Word {
    if i == 0 then s.a else if i == 1 then s.b else if i == 2 then s.c else if i == 3 then s.d else s.e
  }

  function DigestOf(s: State): (d: Bytes)
    ensures |d| == 20
  {
    seq(20, i requires 0 <= i < 20 => Octet(WordAt(s, i / 4), 3 - i % 4))
  }

  lemma OctetsReadBack(b: Bytes, i: nat, w: Word)
    requires i + 4 <= |b|
    requires b[i] == Octet(w, 3) && b[i + 1] == Octet(w, 2) && b[i + 2] == Octet(w, 1) && b[i + 3] == Octet(w, 0)
    ensures BigEndian(b, i) == w
  {
    OctetsRebuild(w);
    hide BigEndian, Octet;
    BigEndianIs(b, i);
  }

  /** Read back as big-endian words, the digest is the state. */
  lemma DigestReadsBack(s: State, i: nat)
    requires i < 5
    ensures BigEndian(DigestOf(s), 4 * i) == WordAt(s, i)
  {
    hide BigEndian, Octet, WordAt;
    OctetsReadBack(DigestOf(s), 4 * i, WordAt(s, i));
  }

  /** No two states have the same digest. */
  lemma DigestDetermines(s: State, t: State)
    ensures DigestOf(s) == DigestOf(t) <==> s == t
  {
    hide BigEndian, DigestOf;
    if DigestOf(s) == DigestOf(t) {
      forall i | 0 <= i < 5 ensures WordAt(s, i) == WordAt(t, i) {
        DigestReadsBack(s, i);
        DigestReadsBack(t, i);
      }
      assert WordAt(s, 0) == WordAt(t, 0) && WordAt(s, 1) == WordAt(t, 1) && WordAt(s, 2) == WordAt(t, 2);
      assert WordAt(s, 3) == WordAt(t, 3) && WordAt(s, 4) == WordAt(t, 4);
    }
  }

  /** What the streaming hash computes for a whole message. */
  function HashOf(m: Bytes): (d: Bytes)
    ensures |d| == 20
  {
    DigestOf(Fold(Padded(m), Whole(Padded(m))))
  }

  /** The digest of section 6.1 of FIPS 180-4. */
  function StandardHashOf(m: Bytes): Bytes {
    DigestOf(Fold(StandardPadded(m), Whole(StandardPadded(m))))
  }

  /** Where the two length words agree, the source's digest is the standard's. */
  lemma StandardDigest(m: Bytes)
    requires LowWord(|m|) == HighWord(|m|)
    ensures HashOf(m) == StandardHashOf(m)
  {
    hide Fold, DigestOf, LowWord, HighWord;
    StandardIffWordsEqual(m);
  }

  /** `memcpy(&buffer[at], src, |src|)`. */
  method CopyInto(buffer: array<byte>, at: nat, src: Bytes)
    requires at + |src| <= buffer.Length
    modifies buffer
    ensures buffer[..] == old(buffer[..at]) + src + old(buffer[at + |src|..])
  {
    forall k | 0 <= k < |src| { buffer[at + k] := src[k]; }
  }

  lemma ZerosStep(k: nat)
    ensures Zeros(0) == [] && Zeros(k + 1) == Zeros(k) + [0]
  {
  }

  /** Zeros are needed exactly until there are `ZeroCount` of them. */
  lemma RoomAt(m: Bytes, k: nat)
    requires k <= ZeroCount(|m|)
    ensures |Tail(m + [0x80] + Zeros(k))| == 56 <==> k == ZeroCount(|m|)
  {
    var n := |m|;
    assert |m + [0x80] + Zeros(k)| == n + 1 + k;
  }

  lemma FoldNext(m: Bytes, n: nat)
    requires 64 * (n + 1) <= |m|
    ensures Fold(m, n + 1) == Compress(Fold(m, n), Block(m, n))
  {
    hide Compress;
  }

  lemma FirstBlock(before: Bytes, data: Bytes, block: Bytes)
    requires |Tail(before)| + |data| > 63
    requires block == Tail(before) + data[..64 - |Tail(before)|]
    ensures var n := Whole(before);
            64 * (n + 1) <= |before + data| && block == Block(before + data, n)
  {
  }

  lemma BlockOf(before: Bytes, data: Bytes, n: nat, i: nat)
    requires |before| + i == 64 * n && i + 64 <= |data|
    ensures data[i..i + 64] == Block(before + data, n)
  {
  }

  /** The closing `memcpy` leaves exactly the tail at the front of the buffer. */
  lemma LastBytes(before: Bytes, data: Bytes, n: nat, i: nat, j: nat, b: Bytes)
    requires i <= |data| && |before| + i == 64 * n + j && j + |data| - i < 64 <= |b|
    requires j > 0 ==> i == 0 && b[..j] == Tail(before)
    requires b[j..j + |data| - i] == data[i..]
    ensures Whole(before + data) == n && b[..|Tail(before + data)|] == Tail(before + data)
  {
    var whole := before + data;
    assert Whole(whole) == n;
    var t := Tail(whole);
    forall k | 0 <= k < |t| ensures b[k] == t[k] {
      if k < j { assert b[..j][k] == Tail(before)[k]; }
      else { assert b[j..j + |data| - i][k - j] == data[i..][k - j]; }
    }
  }

  class Context {
    var state: State
    var count0: Word
    var count1: Word
    const buffer: array<byte>
    /** Every byte hashed so far. */
    ghost var message: Bytes

    /** State, buffered tail and bit count are functions of the message alone. */
    ghost predicate Valid()
      reads this, buffer
    {
      && buffer.Length == 64
      && count0 == LowWord(|message|) && count1 == HighWord(|message|)
      && state == Fold(message, Whole(message))
      && buffer[..|Tail(message)|] == Tail(message)
    }

    /** `sha1_init`. */
    constructor ()
      ensures Valid() && message == [] && fresh(buffer)
    {
      state := INITIAL;
      count0, count1 := 0, 0;
      buffer := new byte[64];
      message := [];
    }

    /** The two counter statements of `sha1_update`. */
    method Count(len: nat)
      requires count0 == LowWord(|message|) && count1 == HighWord(|message|)
      modifies `count0, `count1
      ensures count0 == LowWord(|message| + len) && count1 == HighWord(|message| + len)
    {
      CarryStep(|message|, len);
      hide LowWord, HighWord;
      var add := 8 * len % WORD;
      count0 := (count0 + add) % WORD;
      if count0 < add {
        count1 := (count1 + 1) % WORD;
      } else {
        WordsInRange(|message|);
        assert (count1 + 0) % WORD == count1;
      }
      count1 := (count1 + len / 0x2000_0000 % WORD) % WORD;
    }

    /** `sha1_update`: however a message is cut, the context depends only on the concatenation. */
    method Update(data: Bytes)
      requires Valid()
      modifies this, buffer
      ensures Valid() && message == old(message) + data
    {
      hide Fold, LowWord, HighWord, Compress, Whole, Tail, Block;
      var i := 0;
      var j := Bits.And(count0 / 8, 63);
      Buffered(message);
      ghost var before, whole := message, message + data;
      ghost var n := Whole(before);
      Count(|data|);
      message := whole;
      FoldPrefix(before, data, n);
      if j + |data| > 63 {
        i := 64 - j;
        CopyInto(buffer, j, data[..i]);
        FirstBlock(before, data, buffer[..]);
        assert |buffer[..]| == 64;
        state := Transform(state, buffer[..]);
        n := n + 1;
        assert state == Fold(whole, n) by { FoldNext(whole, n - 1); }
        while i + 63 < |data|
          invariant i <= |data| && |before| + i == 64 * n && 64 * n <= |whole|
          invariant state == Fold(whole, n) && message == whole
          invariant count0 == LowWord(|whole|) && count1 == HighWord(|whole|)
        {
          BlockOf(before, data, n, i);
          FoldNext(whole, n);
          state := Transform(state, data[i..i + 64]);
          i := i + 64;
          n := n + 1;
        }
        j := 0;
      }
      CopyInto(buffer, j, data[i..]);
      LastBytes(before, data, n, i, j, buffer[..]);
    }

    /** The test that ends the padding loop. */
    method LastBlockHasRoom() returns (room: bool)
      requires Valid()
      ensures room <==> |Tail(message)| == 56
    {
      FullButLength(message);
      hide LowWord, Tail, Bits.And;
      room := Bits.And(count0, 504) == 448;
    }

    /** The eight count bytes: the low word's first. */
    method FinalCount() returns (finalCount: Bytes)
      requires Valid()
      ensures finalCount == LengthField(LowWord(|message|), HighWord(|message|))
    {
      hide LowWord, HighWord, Octet, LengthField, ByteOf;
      finalCount := [];
      var i := 0;
      while i < 8
        invariant i <= 8 && |finalCount| == i
        invariant forall k :: 0 <= k < i ==> finalCount[k] == LengthField(count0, count1)[k]
      {
        FieldAt(count0, count1, i);
        finalCount := finalCount + [ByteOf(if i >= 4 then count1 else count0, 3 - i % 4)];
        i := i + 1;
      }
    }

    /** `sha1_final`: terminates, and the digest is that of the message padded as written. */
    method Final() returns (digest: Bytes)
      requires Valid()
      modifies this, buffer
      ensures Valid() && message == Padded(old(message)) && Tail(message) == []
      ensures digest == HashOf(old(message))
    {
      hide Fold, LowWord, HighWord, LengthField, Octet, Zeros;
      ghost var m := message;
      var finalCount := FinalCount();
      Update([0x80]);
      ghost var k := 0;
      assert message == m + [0x80] + Zeros(0) by { ZerosStep(0); }
      var room := LastBlockHasRoom();
      while !room
        invariant Valid() && k <= ZeroCount(|m|) && message == m + [0x80] + Zeros(k)
        invariant room <==> |Tail(message)| == 56
        decreases ZeroCount(|m|) - k
      {
        RoomAt(m, k);
        ZerosStep(k);
        Update([0]);
        assert message == m + [0x80] + Zeros(k + 1);
        k := k + 1;
        room := LastBlockHasRoom();
      }
      RoomAt(m, k);
      Update(finalCount);
      PaddedIsWhole(m);
      digest := [];
      var i := 0;
      while i < 20
        invariant i <= 20 && digest == DigestOf(state)[..i]
      {
        digest := digest + [ByteOf(WordAt(state, i / 4), 3 - i % 4)];
        i := i + 1;
      }
    }
  }

  /** Two contexts that were fed the same bytes, in whatever pieces, are indistinguishable. */
  lemma ChunkingIrrelevant(x: Context, y: Context)
    requires x.Valid() && y.Valid() && x.message == y.message
    ensures x.state == y.state && x.count0 == y.count0 && x.count1 == y.count1
    ensures x.buffer[..|Tail(x.message)|] == y.buffer[..|Tail(x.message)|]
  {
    hide Fold, LowWord, HighWord, Tail;
  }

  /** Initialise, update with each chunk in turn, finish. */
  method HashChunks(chunks: seq<Bytes>) returns (digest: Bytes)
    ensures digest == HashOf(Concat(chunks))
  {
    hide Context.Valid, HashOf, Padded;
    var c := new Context();
    var i := 0;
    while i < |chunks|
      invariant i <= |chunks| && c.Valid() && fresh(c) && fresh(c.buffer) && c.message == Concat(chunks[..i])
    {
      assert chunks[..i + 1][..i] == chunks[..i];
      c.Update(chunks[i]);
      i := i + 1;
    }
    assert chunks[..i] == chunks;
    digest := c.Final();
  }
}
