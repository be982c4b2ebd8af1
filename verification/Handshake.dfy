/**
 The accept key of the WebSocket upgrade: hash the client's key joined with a fixed
 identifier, then base64. `snprintf` into 256 bytes keeps at most 255 of them.
 */
module Handshake {
  import opened Bytes
  import Base64
  import Sha1Stream

  /** The identifier of section 1.3 of RFC 6455. */
  function Guid(): (g: Bytes)
    ensures |g| == 36 && NulFree(g)
  {
    Ascii("258EAFA5-E914-47DA-95CA-C5AB0DC85B11")
  }

  const COMBINED := 256

  /** What `combined` holds, as a C string. */
  function Combined(secKey: Bytes): Bytes {
    Clamp(secKey + Guid(), COMBINED)
  }

  /** A key of up to 219 bytes, and so every 24-byte key of the protocol, is hashed with the whole identifier. */
  lemma JoinedKey(secKey: Bytes)
    ensures Combined(secKey) <= secKey + Ascii("258EAFA5-E914-47DA-95CA-C5AB0DC85B11")
    ensures |Combined(secKey)| == if |secKey| <= 219 then |secKey| + 36 else 255
  {
  }

  /** `ws_compute_accept_key`: writes nothing into a buffer shorter than the 28 symbols and their NUL. */
  method ComputeAcceptKey(secKey: Bytes, accept: array<byte>)
    modifies accept
    ensures accept.Length < 29 ==> accept[..] == old(accept[..])
    ensures accept.Length >= 29 ==>
      accept[..] == Base64.Encode(Sha1Stream.HashOf(Combined(secKey))) + [0] + old(accept[29..])
  {
    hide *;
    var digest := Sha1Stream.HashChunks([Combined(secKey)]);
    ConcatOne(Combined(secKey));
    if accept.Length >= 29 {
      DigestGroups();
      Base64.EncodeInto(digest, accept);
    }
  }

  lemma ConcatOne(m: Bytes)
    ensures Concat([m]) == m
  {
    assert [m][..0] == [];
  }

  lemma DigestGroups()
    ensures Base64.Groups(20) == 7
  {
  }

  /**
   The identifier makes the hashed text non-empty and the 256-byte buffer keeps it short, so
   the two length words always differ: no upgrade is padded as section 5.1.1 of FIPS 180-4 says.
   */
  lemma NeverStandardPadding(secKey: Bytes)
    ensures Sha1Stream.Padded(Combined(secKey)) != Sha1Stream.StandardPadded(Combined(secKey))
  {
    hide Guid;
    Sha1Stream.ShortMessages(Combined(secKey));
    hide Sha1Stream.Padded, Sha1Stream.StandardPadded;
  }

  /** What the upgrade answers always decodes to the 20-byte hash. */
  lemma AcceptKeyDecodes(secKey: Bytes)
    ensures var key := Base64.Encode(Sha1Stream.HashOf(Combined(secKey)));
            |key| == 28 && NulFree(key) && Base64.Decode(key) == Some(Sha1Stream.HashOf(Combined(secKey)))
  {
    hide *;
    var h := Sha1Stream.HashOf(Combined(secKey));
    Base64.EncodedLength(h);
    Base64.DecodeEncode(h);
  }
}
