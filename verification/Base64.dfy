/**
 The base64 encoder of the handshake, which pads by overwriting its own output, against
 the encoding of section 4 of RFC 4648 and a strict decoder for it.
 */
module Base64 {
  import opened Bytes
  import Bits

  const PAD: byte := 0x3D

  /** Table 1 of RFC 4648. */
  function Symbol(v: nat): byte
    requires v < 64
  {
    if v < 26 then 0x41 + v else if v < 52 then 0x61 + v - 26 else if v < 62 then 0x30 + v - 52
    else if v == 62 then 0x2B else 0x2F
  }

  function Value(b: byte): Option<nat> {
    if 0x41 <= b <= 0x5A then Some(b - 0x41) else if 0x61 <= b <= 0x7A then Some(b - 0x61 + 26)
    else if 0x30 <= b <= 0x39 then Some(b - 0x30 + 52)
    else if b == 0x2B then Some(62) else if b == 0x2F then Some(63) else None
  }

  /** The 64 symbols in order. */
  lemma Alphabet(v: nat)
    requires v < 64
    ensures v < 26 ==> Symbol(v) == "ABCDEFGHIJKLMNOPQRSTUVWXYZ"[v] as int
    ensures 26 <= v < 52 ==> Symbol(v) == "abcdefghijklmnopqrstuvwxyz"[v - 26] as int
    ensures v >= 52 ==> Symbol(v) == "0123456789+/"[v - 52] as int
    ensures PAD == '=' as int
  {
    hide Symbol;
    if v < 26 { UpperCase(v); } else if v < 52 { LowerCase(v - 26); } else { DigitsAndRest(v - 52); }
  }

  lemma UpperCase(k: nat)
    requires k < 26
    ensures Symbol(k) == "ABCDEFGHIJKLMNOPQRSTUVWXYZ"[k] as int
  {
  }

  lemma LowerCase(k: nat)
    requires k < 26
    ensures Symbol(26 + k) == "abcdefghijklmnopqrstuvwxyz"[k] as int
  {
  }

  lemma DigitsAndRest(k: nat)
    requires k < 12
    ensures Symbol(52 + k) == "0123456789+/"[k] as int
  {
  }

  lemma SymbolValue(v: nat)
    requires v < 64
    ensures Value(Symbol(v)) == Some(v) && Symbol(v) != PAD && Symbol(v) != 0
  {
  }

  lemma ValueSymbol(b: byte)
    ensures Value(b).Some? ==> Value(b).value < 64 && Symbol(Value(b).value) == b && b != PAD
  {
  }

  /** The four symbols of a 24-bit group. */
  function Quad(a: byte, b: byte, c: byte): (q: Bytes)
    ensures |q| == 4
  {
    [Symbol(a / 4), Symbol(a % 4 * 16 + b / 16), Symbol(b % 16 * 4 + c / 64), Symbol(c % 64)]
  }

  /** Section 4 of RFC 4648. */
  function Encode(x: Bytes): Bytes {
    if x == [] then []
    else if |x| == 1 then Quad(x[0], 0, 0)[..2] + [PAD, PAD]
    else if |x| == 2 then Quad(x[0], x[1], 0)[..3] + [PAD]
    else Quad(x[0], x[1], x[2]) + Encode(x[3..])
  }

  /** The strict inverse: whole groups, padding only in the last, unused bits zero. */
  function Decode(s: Bytes): Option<Bytes> {
    if s == [] then Some([])
    else if |s| < 4 then None
    else
      match (Value(s[0]), Value(s[1]), Value(s[2]), Value(s[3]))
      case (Some(p), Some(q), None, None) =>
        if s[2..] == [PAD, PAD] && q % 16 == 0 then Some([Byte(p * 4 + q / 16)]) else None
      case (Some(p), Some(q), Some(r), None) =>
        if s[3..] == [PAD] && r % 4 == 0 then Some([Byte(p * 4 + q / 16), Byte(q % 16 * 16 + r / 4)]) else None
      case (Some(p), Some(q), Some(r), Some(u)) =>
        var rest := Decode(s[4..]);
        if rest.None? then None
        else Some([Byte(p * 4 + q / 16), Byte(q % 16 * 16 + r / 4), Byte(r % 4 * 64 + u)] + rest.value)
      case _ => None
  }

  function Byte(n: nat): byte { n % 256 }

  /** Four output bytes for every three input bytes, rounded up, and never a NUL. */
  lemma {:induction false} EncodedLength(x: Bytes)
    ensures |Encode(x)| == (|x| + 2) / 3 * 4
    ensures NulFree(Encode(x))
  {
    hide Symbol;
    if |x| >= 3 {
      EncodedLength(x[3..]);
      QuadSymbols(x[0], x[1], x[2]);
    } else if |x| == 2 {
      QuadSymbols(x[0], x[1], 0);
    } else if |x| == 1 {
      QuadSymbols(x[0], 0, 0);
    }
  }

  lemma QuadSymbols(a: byte, b: byte, c: byte)
    ensures forall k :: 0 <= k < 4 ==> Quad(a, b, c)[k] != 0 && Quad(a, b, c)[k] != PAD
    ensures var q := Quad(a, b, c);
            && Value(q[0]) == Some(a / 4) && Value(q[1]) == Some(a % 4 * 16 + b / 16)
            && Value(q[2]) == Some(b % 16 * 4 + c / 64) && Value(q[3]) == Some(c % 64)
  {
    hide Symbol, Value;
    SymbolValue(a / 4);
    SymbolValue(a % 4 * 16 + b / 16);
    SymbolValue(b % 16 * 4 + c / 64);
    SymbolValue(c % 64);
  }

  /** The symbols of a group spell its 24 bits, six at a time from the highest. */
  lemma GroupNumber(a: byte, b: byte, c: byte)
    ensures var q := Quad(a, b, c);
            && (forall k :: 0 <= k < 4 ==> Value(q[k]).Some?)
            && 262144 * Value(q[0]).value + 4096 * Value(q[1]).value + 64 * Value(q[2]).value + Value(q[3]).value
               == 65536 * a + 256 * b + c
  {
    hide Value, Quad;
    QuadSymbols(a, b, c);
    assert a == a / 4 * 4 + a % 4 && b == b / 16 * 16 + b % 16 && c == c / 64 * 64 + c % 64;
  }

  lemma FirstByte(a: byte, b: byte)
    ensures Byte(a / 4 * 4 + (a % 4 * 16 + b / 16) / 16) == a
  {
  }

  lemma SecondByte(a: byte, b: byte, c: byte)
    ensures Byte((a % 4 * 16 + b / 16) % 16 * 16 + (b % 16 * 4 + c / 64) / 4) == b
  {
    assert (a % 4 * 16 + b / 16) % 16 == b / 16;
    assert (b % 16 * 4 + c / 64) / 4 == b % 16;
  }

  lemma ThirdByte(b: byte, c: byte)
    ensures Byte((b % 16 * 4 + c / 64) % 4 * 64 + c % 64) == c
  {
    assert (b % 16 * 4 + c / 64) % 4 == c / 64;
  }

  lemma GroupBytes(a: byte, b: byte, c: byte)
    ensures Byte(a / 4 * 4 + (a % 4 * 16 + b / 16) / 16) == a
    ensures Byte((a % 4 * 16 + b / 16) % 16 * 16 + (b % 16 * 4 + c / 64) / 4) == b
    ensures Byte((b % 16 * 4 + c / 64) % 4 * 64 + c % 64) == c
  {
    hide Byte;
    FirstByte(a, b);
    SecondByte(a, b, c);
    ThirdByte(b, c);
  }

  lemma DecodeTwoSymbols(s: Bytes, p: nat, q: nat)
    requires |s| == 4 && Value(s[0]) == Some(p) && Value(s[1]) == Some(q) && s[2] == PAD && s[3] == PAD && q % 16 == 0
    ensures Decode(s) == Some([Byte(p * 4 + q / 16)])
  {
    hide Byte;
    assert s[2..] == [PAD, PAD];
  }

  lemma DecodeThreeSymbols(s: Bytes, p: nat, q: nat, r: nat)
    requires |s| == 4 && Value(s[0]) == Some(p) && Value(s[1]) == Some(q) && Value(s[2]) == Some(r) && s[3] == PAD
    requires r % 4 == 0
    ensures Decode(s) == Some([Byte(p * 4 + q / 16), Byte(q % 16 * 16 + r / 4)])
  {
    hide Byte;
    assert s[3..] == [PAD];
  }

  lemma DecodeFourSymbols(s: Bytes, p: nat, q: nat, r: nat, u: nat)
    requires |s| >= 4 && Value(s[0]) == Some(p) && Value(s[1]) == Some(q) && Value(s[2]) == Some(r)
    requires Value(s[3]) == Some(u) && Decode(s[4..]).Some?
    ensures Decode(s)
            == Some([Byte(p * 4 + q / 16), Byte(q % 16 * 16 + r / 4), Byte(r % 4 * 64 + u)] + Decode(s[4..]).value)
  {
    hide Byte, Value;
  }

  lemma DecodeEncodeOne(a: byte)
    ensures Decode(Encode([a])) == Some([a])
  {
    hide Value, Quad, Byte, Decode;
    QuadSymbols(a, 0, 0);
    GroupBytes(a, 0, 0);
    var q := Quad(a, 0, 0);
    assert Encode([a]) == [q[0], q[1], PAD, PAD];
    DecodeTwoSymbols(Encode([a]), a / 4, a % 4 * 16);
  }

  lemma DecodeEncodeTwo(a: byte, b: byte)
    ensures Decode(Encode([a, b])) == Some([a, b])
  {
    hide Value, Quad, Byte, Decode;
    QuadSymbols(a, b, 0);
    GroupBytes(a, b, 0);
    var q := Quad(a, b, 0);
    assert Encode([a, b]) == [q[0], q[1], q[2], PAD];
    DecodeThreeSymbols(Encode([a, b]), a / 4, a % 4 * 16 + b / 16, b % 16 * 4);
  }

  /** Every byte string survives encoding and decoding. */
  lemma {:induction false} DecodeEncode(x: Bytes)
    ensures Decode(Encode(x)) == Some(x)
  {
    hide Value, Quad, Byte, Decode;
    if |x| >= 3 {
      var a, b, c, q := x[0], x[1], x[2], Quad(x[0], x[1], x[2]);
      QuadSymbols(a, b, c);
      GroupBytes(a, b, c);
      DecodeEncode(x[3..]);
      var s := q + Encode(x[3..]);
      assert s[4..] == Encode(x[3..]);
      DecodeFourSymbols(s, a / 4, a % 4 * 16 + b / 16, b % 16 * 4 + c / 64, c % 64);
      assert x == [a, b, c] + x[3..];
    } else if |x| == 2 {
      DecodeEncodeTwo(x[0], x[1]);
      assert x == [x[0], x[1]];
    } else if |x| == 1 {
      DecodeEncodeOne(x[0]);
      assert x == [x[0]];
    } else {
      NothingDecodes();
    }
  }

  lemma NothingDecodes()
    ensures Decode(Encode([])) == Some([])
  {
  }

  lemma BitsFirst(p: nat, q: nat)
    requires p < 64 && q < 64
    ensures var a := Byte(p * 4 + q / 16); a / 4 == p && a % 4 == q / 16
  {
  }

  lemma BitsSecond(q: nat, r: nat)
    requires q < 64 && r < 64
    ensures var b := Byte(q % 16 * 16 + r / 4); b / 16 == q % 16 && b % 16 == r / 4
  {
  }

  lemma BitsThird(r: nat, u: nat)
    requires r < 64 && u < 64
    ensures var c := Byte(r % 4 * 64 + u); c / 64 == r % 4 && c % 64 == u
  {
  }

  lemma SixBitFields(p: nat, q: nat, r: nat, u: nat)
    requires p < 64 && q < 64 && r < 64 && u < 64
    ensures var a, b, c := Byte(p * 4 + q / 16), Byte(q % 16 * 16 + r / 4), Byte(r % 4 * 64 + u);
            && a / 4 == p && a % 4 == q / 16 && b / 16 == q % 16 && b % 16 == r / 4
            && c / 64 == r % 4 && c % 64 == u
  {
    hide Byte;
    BitsFirst(p, q);
    BitsSecond(q, r);
    BitsThird(r, u);
  }

  /** The decoder accepts nothing but encodings: base64 texts and byte strings correspond one to one. */
  lemma {:induction false} EncodeDecode(s: Bytes)
    ensures Decode(s).Some? ==> Encode(Decode(s).value) == s
  {
    hide Symbol, Byte, Value;
    if s != [] && Decode(s).Some? {
      ValueSymbol(s[0]);
      ValueSymbol(s[1]);
      ValueSymbol(s[2]);
      ValueSymbol(s[3]);
      var p, q := Value(s[0]).value, Value(s[1]).value;
      if Value(s[2]).None? {
        SixBitFields(p, q, 0, 0);
        assert Encode(Decode(s).value) == [s[0], s[1], PAD, PAD];
        assert s == s[..2] + s[2..];
      } else if Value(s[3]).None? {
        var r := Value(s[2]).value;
        SixBitFields(p, q, r, 0);
        assert Encode(Decode(s).value) == [s[0], s[1], s[2], PAD];
        assert s == s[..3] + s[3..];
      } else {
        var r, u := Value(s[2]).value, Value(s[3]).value;
        SixBitFields(p, q, r, u);
        EncodeDecode(s[4..]);
        var x := Decode(s).value;
        assert x[3..] == Decode(s[4..]).value;
        assert Quad(x[0], x[1], x[2]) == s[..4];
        assert s == s[..4] + s[4..];
      }
    }
  }

  /** Section 10 of RFC 4648. */
  lemma Vectors()
    ensures Encode([]) == [] && Encode(Ascii("f")) == Ascii("Zg==") && Encode(Ascii("fo")) == Ascii("Zm8=")
    ensures Encode(Ascii("foo")) == Ascii("Zm9v") && Encode(Ascii("foob")) == Ascii("Zm9vYg==")
    ensures Encode(Ascii("fooba")) == Ascii("Zm9vYmE=") && Encode(Ascii("foobar")) == Ascii("Zm9vYmFy")
  {
    hide Encode, Quad;
    VectorTails();
    FirstGroup(Ascii("foo"), []);
    FirstGroup(Ascii("foob"), [0x62]);
    FirstGroup(Ascii("fooba"), [0x62, 0x61]);
    FirstGroup(Ascii("foobar"), [0x62, 0x61, 0x72]);
    assert Ascii("Zm9v") + Ascii("Yg==") == Ascii("Zm9vYg==");
    assert Ascii("Zm9v") + Ascii("YmE=") == Ascii("Zm9vYmE=");
    assert Ascii("Zm9v") + Ascii("YmFy") == Ascii("Zm9vYmFy");
  }

  /** Each begins with the group of "foo". */
  lemma FirstGroup(x: Bytes, rest: Bytes)
    requires x == [0x66, 0x6F, 0x6F] + rest
    ensures Encode(x) == Ascii("Zm9v") + Encode(rest)
  {
    hide Quad;
    VectorQuads();
    assert x[3..] == rest;
  }

  lemma VectorTails()
    ensures Encode([]) == [] && Encode(Ascii("f")) == Ascii("Zg==") && Encode(Ascii("fo")) == Ascii("Zm8=")
    ensures Encode([0x62]) == Ascii("Yg==") && Encode([0x62, 0x61]) == Ascii("YmE=")
    ensures Encode([0x62, 0x61, 0x72]) == Ascii("YmFy")
  {
    hide Quad;
    VectorQuads();
    var x: Bytes := [0x62, 0x61, 0x72];
    assert x[3..] == [] && Ascii("YmFy") + [] == Ascii("YmFy");
  }

  lemma VectorQuads()
    ensures Quad(0x66, 0, 0)[..2] == Ascii("Zg") && Quad(0x66, 0x6F, 0)[..3] == Ascii("Zm8")
    ensures Quad(0x66, 0x6F, 0x6F) == Ascii("Zm9v") && Quad(0x62, 0, 0)[..2] == Ascii("Yg")
    ensures Quad(0x62, 0x61, 0)[..3] == Ascii("YmE") && Quad(0x62, 0x61, 0x72) == Ascii("YmFy")
  {
  }

  /** One byte of input, or zero past the end: `i < input_len ? input[i++] : 0`. */
  method Take(input: Bytes, i: nat) returns (b: byte, next: nat)
    requires i <= |input|
    ensures b == ByteOrZero(input, i) && next == if i < |input| then i + 1 else i
  {
    if i < |input| { b, next := input[i], i + 1; } else { b, next := 0, i; }
  }

  function ByteOrZero(x: Bytes, i: nat): byte {
    if i < |x| then x[i] else 0
  }

  /** The symbols the loop writes for the group at `i`, before any padding. */
  function Group(x: Bytes, i: nat): (q: Bytes)
    ensures |q| == 4
  {
    Quad(ByteOrZero(x, i), ByteOrZero(x, i + 1), ByteOrZero(x, i + 2))
  }

  /** A whole group is a prefix of the encoding; the last partial one loses its filler symbols to padding. */
  lemma EncodeGroup(x: Bytes, i: nat)
    requires i < |x|
    ensures i + 3 <= |x| ==> Encode(x[i..]) == Group(x, i) + Encode(x[i + 3..])
    ensures i + 2 == |x| ==> Encode(x[i..]) == Group(x, i)[..3] + [PAD]
    ensures i + 1 == |x| ==> Encode(x[i..]) == Group(x, i)[..2] + [PAD, PAD]
  {
    hide Quad;
    var y := x[i..];
    if i + 3 <= |x| { assert y[3..] == x[i + 3..]; }
  }

  /** What the loop has written after `g` groups. */
  function Filled(x: Bytes, g: nat): (f: Bytes)
    ensures |f| == 4 * g
  {
    if g == 0 then [] else Filled(x, g - 1) + Group(x, 3 * (g - 1))
  }

  lemma {:induction false} FilledPrefix(x: Bytes, g: nat)
    requires 3 * g <= |x|
    ensures Filled(x, g) + Encode(x[3 * g..]) == Encode(x)
  {
    hide Encode, Group;
    if g == 0 {
      assert x[0..] == x;
    } else {
      FilledPrefix(x, g - 1);
      EncodeGroup(x, 3 * (g - 1));
    }
  }

  /** Groups written for `n` input bytes. */
  function Groups(n: nat): (g: nat)
    ensures 3 * g - 2 <= n <= 3 * g || g == n == 0
  {
    (n + 2) / 3
  }

  /** Overwriting the filler symbols of the last group with padding gives the encoding. */
  lemma FilledEncode(x: Bytes, g: nat, f: Bytes)
    requires g == Groups(|x|) && f == Filled(x, g)
    ensures |x| == 3 * g ==> f == Encode(x)
    ensures |x| == 3 * g - 2 ==> f[..|f| - 2] + [PAD, PAD] == Encode(x)
    ensures |x| == 3 * g - 1 ==> f[..|f| - 1] + [PAD] == Encode(x)
  {
    hide Encode, Group, Groups, Filled;
    if |x| == 3 * g {
      FilledPrefix(x, g);
      EncodedLength(x[3 * g..]);
      assert x[3 * g..] == [];
      assert Encode([]) == [] by { EncodedLength([]); }
    } else {
      FilledPrefix(x, g - 1);
      EncodeGroup(x, 3 * (g - 1));
      FilledStep(x, g - 1);
    }
  }

  /** `base64_encode`: pads by overwriting the last one or two symbols, and ends with a NUL. */
  method EncodeInto(input: Bytes, output: array<byte>)
    requires output.Length > 4 * Groups(|input|)
    modifies output
    ensures output[..] == Encode(input) + [0] + old(output[4 * Groups(|input|) + 1..])
  {
    hide Encode, Quad, Filled, Groups;
    var i, j := 0, 0;
    ghost var g := 0;
    ghost var end := 4 * Groups(|input|);
    ghost var rest := output[end + 1..];
    FilledStep(input, 0);
    while i < |input|
      invariant j == 4 * g && g <= Groups(|input|)
      invariant i == if 3 * g <= |input| then 3 * g else |input|
      invariant output[..j] == Filled(input, g)
      invariant output[end + 1..] == rest
    {
      var a, b, c;
      a, i := Take(input, i);
      b, i := Take(input, i);
      c, i := Take(input, i);
      assert Group(input, 3 * g) == Quad(a, b, c);
      WriteQuad(output, j, a, b, c);
      FilledStep(input, g);
      j := j + 4;
      g := g + 1;
    }
    assert g == Groups(|input|);
    Pad(output, j, input);
    assert output[..] == output[..j + 1] + output[j + 1..];
  }

  /** The terminator and the overwritten symbols. */
  method Pad(output: array<byte>, j: nat, input: Bytes)
    requires j == 4 * Groups(|input|) < output.Length && output[..j] == Filled(input, Groups(|input|))
    modifies output
    ensures output[..j + 1] == Encode(input) + [0] && output[j + 1..] == old(output[j + 1..])
  {
    hide Encode, Filled;
    ghost var f := output[..j];
    FilledEncode(input, Groups(|input|), f);
    output[j] := 0;
    if |input| % 3 == 1 {
      output[j - 2] := PAD;
      output[j - 1] := PAD;
      assert output[..j] == f[..j - 2] + [PAD, PAD];
    } else if |input| % 3 == 2 {
      output[j - 1] := PAD;
      assert output[..j] == f[..j - 1] + [PAD];
    }
    assert output[..j] == Encode(input);
  }

  lemma FilledStep(x: Bytes, g: nat)
    ensures Filled(x, 0) == [] && Filled(x, g + 1) == Filled(x, g) + Group(x, 3 * g)
  {
    hide Group;
  }

  /** `(a << 16) | (b << 8) | c`. */
  function Triple(a: nat, b: byte, c: byte): (t: nat)
    ensures t == a * 0x1_0000 + b * 0x100 + c
  {
    TripleIs(a, b, c);
    Bits.Or(Bits.Or(a * 0x1_0000, b as nat * 0x100), c)
  }

  lemma TripleIs(a: nat, b: nat, c: nat)
    requires b < 0x100 && c < 0x100
    ensures Bits.Or(Bits.Or(a * 0x1_0000, b * 0x100), c) == a * 0x1_0000 + b * 0x100 + c
  {
    Bits.Powers();
    hide Bits.Or, Bits.Pow2;
    Bits.Join(a, b * 0x100, 16);
    Bits.Join(a * 0x100 + b, c, 8);
  }

  /** `n & 0x3F`. */
  function Six(n: nat): (v: nat)
    ensures v == n % 64
  {
    Bits.WordMasks(n);
    Bits.And(n, 0x3F)
  }

  /** The four table look-ups on the 24-bit group. */
  method WriteQuad(output: array<byte>, j: nat, a: byte, b: byte, c: byte)
    requires j + 4 <= output.Length
    modifies output
    ensures output[..] == old(output[..j]) + Quad(a, b, c) + old(output[j + 4..])
  {
    hide Symbol, Triple, Six;
    TripleHigh(a, b, c);
    TripleLow(a, b, c);
    var triple := Triple(a, b, c);
    output[j] := Symbol(Six(triple / 0x4_0000));
    output[j + 1] := Symbol(Six(triple / 0x1000));
    output[j + 2] := Symbol(Six(triple / 64));
    output[j + 3] := Symbol(Six(triple));
  }

  lemma TripleHigh(a: byte, b: byte, c: byte)
    ensures var triple := a * 0x1_0000 + b * 0x100 + c;
            triple / 0x4_0000 % 64 == a / 4 && triple / 0x1000 % 64 == a % 4 * 16 + b / 16
  {
    var triple := a * 0x1_0000 + b * 0x100 + c;
    assert triple == 0x4_0000 * (a / 4) + (a % 4 * 0x1_0000 + b * 0x100 + c);
    assert triple == 0x1000 * (a * 16 + b / 16) + (b % 16 * 0x100 + c);
  }

  lemma TripleLow(a: byte, b: byte, c: byte)
    ensures var triple := a * 0x1_0000 + b * 0x100 + c;
            triple / 64 % 64 == b % 16 * 4 + c / 64 && triple % 64 == c % 64
  {
    var triple, top, mid := a * 0x1_0000 + b * 0x100 + c, a * 16 + b / 16, b % 16 * 4 + c / 64;
    assert triple == 64 * (64 * top + mid) + c % 64;
    DivMod64(64 * top + mid, c % 64);
    DivMod64(top, mid);
  }

  lemma DivMod64(q: nat, r: nat)
    requires r < 64
    ensures (64 * q + r) / 64 == q && (64 * q + r) % 64 == r
  {
  }
}
