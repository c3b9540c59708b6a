/**
  `Arrangement`: the publisher's verifying key and an expiration, serialized as the key's
  fixed-width bytes followed by the expiration behind a length prefix. The key width and the
  prefix layout belong to the key splitter and to `VariableLengthBytestring`, which are not
  part of this model: the key is taken as `KEY_LENGTH` bytes and the prefix as a 4-byte
  big-endian length. The expiration is kept as its opaque encoded bytes.
*/
module Arrangements {
  import opened Wrappers
  import opened Network
  import opened Arith

  /** Width of a serialized compressed public key. */
  const KEY_LENGTH: nat := 33
  const PREFIX_LENGTH: nat := 4
  const MAX_FIELD_LENGTH: nat := 0x1_0000_0000

  datatype Arrangement = Arrangement(publisherVerifyingKey: Bytes, expiration: Bytes)

  /** What the byte layout can carry. */
  predicate WellFormed(a: Arrangement)
  {
    |a.publisherVerifyingKey| == KEY_LENGTH && |a.expiration| < MAX_FIELD_LENGTH
  }

  datatype DecodeError = TooShort | LengthMismatch

  /** Big-endian bytes of a length, most significant first. */
  function EncodeLength(len: nat): (b: Bytes)
    requires len < MAX_FIELD_LENGTH
    ensures |b| == PREFIX_LENGTH
  {
    var h1 := len / 0x100;
    var h2 := h1 / 0x100;
    var h3 := h2 / 0x100;
    [h3 as uint8, (h2 % 0x100) as uint8, (h1 % 0x100) as uint8, (len % 0x100) as uint8]
  }

  function DecodeLength(b: Bytes): (len: nat)
    requires |b| == PREFIX_LENGTH
    ensures len < MAX_FIELD_LENGTH
  {
    ((b[0] as nat * 0x100 + b[1] as nat) * 0x100 + b[2] as nat) * 0x100 + b[3] as nat
  }

  lemma LengthRoundTrip(len: nat)
    requires len < MAX_FIELD_LENGTH
    ensures DecodeLength(EncodeLength(len)) == len
  {
    var h1 := len / 0x100;
    var h2 := h1 / 0x100;
    var h3 := h2 / 0x100;
    assert len == 0x100 * h1 + len % 0x100;
    assert h1 == 0x100 * h2 + h1 % 0x100;
    assert h2 == 0x100 * h3 + h2 % 0x100;
  }

  lemma PrefixRoundTrip(b: Bytes)
    requires |b| == PREFIX_LENGTH
    ensures EncodeLength(DecodeLength(b)) == b
  {
    var h2 := b[0] as nat * 0x100 + b[1] as nat;
    var h1 := h2 * 0x100 + b[2] as nat;
    var len := h1 * 0x100 + b[3] as nat;
    DivModUnique(len, 0x100, h1, b[3] as nat);
    DivModUnique(h1, 0x100, h2, b[2] as nat);
    DivModUnique(h2, 0x100, b[0] as nat, b[1] as nat);
  }

  /** `Arrangement.__bytes__`. */
  function ToBytes(a: Arrangement): (b: Bytes)
    requires WellFormed(a)
    ensures |b| == KEY_LENGTH + PREFIX_LENGTH + |a.expiration|
  {
    a.publisherVerifyingKey + EncodeLength(|a.expiration|) + a.expiration
  }

  /** `Arrangement.from_bytes`: the splitter refuses input that is too short or whose length does not match its prefix. */
  function FromBytes(b: Bytes): (r: Result<Arrangement, DecodeError>)
    ensures r.Ok? ==> WellFormed(r.value)
  {
    if |b| < KEY_LENGTH + PREFIX_LENGTH then Err(TooShort)
    else if DecodeLength(b[KEY_LENGTH..KEY_LENGTH + PREFIX_LENGTH]) != |b| - KEY_LENGTH - PREFIX_LENGTH then
      Err(LengthMismatch)
    else
      Ok(Arrangement(b[..KEY_LENGTH], b[KEY_LENGTH + PREFIX_LENGTH..]))
  }

  /** Parsing the bytes of an arrangement gives the arrangement back. */
  lemma RoundTrip(a: Arrangement)
    requires WellFormed(a)
    ensures FromBytes(ToBytes(a)) == Ok(a)
  {
    var b := ToBytes(a);
    assert b[..KEY_LENGTH] == a.publisherVerifyingKey;
    assert b[KEY_LENGTH..KEY_LENGTH + PREFIX_LENGTH] == EncodeLength(|a.expiration|);
    assert b[KEY_LENGTH + PREFIX_LENGTH..] == a.expiration;
    LengthRoundTrip(|a.expiration|);
  }

  /** Whatever parses re-serializes to the same bytes: the encoding is canonical. */
  lemma Canonical(b: Bytes)
    requires FromBytes(b).Ok?
    ensures ToBytes(FromBytes(b).value) == b
  {
    var prefix := b[KEY_LENGTH..KEY_LENGTH + PREFIX_LENGTH];
    PrefixRoundTrip(prefix);
    assert b == b[..KEY_LENGTH] + prefix + b[KEY_LENGTH + PREFIX_LENGTH..];
  }
}
