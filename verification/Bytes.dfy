/**
 Bytes, byte strings and the small C-string vocabulary shared by every module.
 A C string is modelled by the bytes before its terminating NUL.
 */
module Bytes {

  type byte = b: int | 0 <= b < 256

  type Bytes = seq<byte>

  datatype Option<+T> = None | Some(value: T)

  const QUOTE: byte := 0x22
  const BACKSLASH: byte := 0x5C

  /** What `strlen`, `strcmp` and `strdup` see of a buffer: the bytes before the first NUL. */
  function CString(b: Bytes): (c: Bytes)
    ensures NulFree(c) && c <= b
    ensures NulFree(b) ==> c == b
    ensures |c| < |b| ==> b[|c|] == 0
  {
    if b == [] || b[0] == 0 then [] else [b[0]] + CString(b[1..])
  }

  predicate NulFree(b: Bytes) {
    forall i :: 0 <= i < |b| ==> b[i] != 0
  }

  /** The bytes of an ASCII text. */
  function Ascii(s: string): (b: Bytes)
    requires forall i :: 0 <= i < |s| ==> s[i] as int < 128
    ensures |b| == |s| && forall i :: 0 <= i < |s| ==> b[i] == s[i] as int
  {
    seq(|s|, i requires 0 <= i < |s| => s[i] as int)
  }

  lemma AsciiJoins(s: string, t: string)
    requires forall i :: 0 <= i < |s| ==> s[i] as int < 128
    requires forall i :: 0 <= i < |t| ==> t[i] as int < 128
    ensures Ascii(s + t) == Ascii(s) + Ascii(t)
  {
  }

  /** The byte stream that was cut into `chunks`. */
  function Concat(chunks: seq<Bytes>): Bytes {
    if chunks == [] then [] else Concat(chunks[..|chunks| - 1]) + chunks[|chunks| - 1]
  }

  /** What a bounded copy leaves in a buffer of `size` bytes, the last of them the terminator. */
  function Clamp(s: Bytes, size: nat): (c: Bytes)
    requires size > 0
    ensures c <= s && |c| < size && (c == s || |c| == size - 1)
  {
    if |s| >= size then s[..size - 1] else s
  }

  /** `t` occurs in `s` at offset `off`. */
  predicate At(s: Bytes, off: nat, t: Bytes) {
    off + |t| <= |s| && s[off..off + |t|] == t
  }

  lemma AtByte(s: Bytes, off: nat, t: Bytes, i: nat)
    requires At(s, off, t) && i < |t|
    ensures s[off + i] == t[i]
  {
    assert s[off..off + |t|][i] == t[i];
  }

  lemma AtSplit(s: Bytes, off: nat, a: Bytes, b: Bytes)
    requires At(s, off, a + b)
    ensures At(s, off, a) && At(s, off + |a|, b)
  {
    var t := a + b;
    assert s[off..off + |a|] == t[..|a|] == a;
    assert s[off + |a|..off + |a| + |b|] == t[|a|..] == b;
  }

  lemma AtSplit3(s: Bytes, off: nat, a: Bytes, b: Bytes, c: Bytes)
    requires At(s, off, a + b + c)
    ensures At(s, off, a) && At(s, off + |a|, b + c)
    ensures At(s, off + |a|, b) && At(s, off + |a| + |b|, c)
  {
    assert a + b + c == a + (b + c);
    AtSplit(s, off, a, b + c);
    AtSplit(s, off + |a|, b, c);
  }

  lemma AtJoin(s: Bytes, off: nat, a: Bytes, b: Bytes)
    requires At(s, off, a) && At(s, off + |a|, b)
    ensures At(s, off, a + b)
  {
    var t := a + b;
    forall j | 0 <= j < |t| ensures s[off + j] == t[j] {
      if j < |a| { AtByte(s, off, a, j); } else { AtByte(s, off + |a|, b, j - |a|); }
    }
  }
}
