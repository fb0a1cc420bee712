/** The part of bincode's fixed-integer ("fixint") wire format the protocol
    relies on: little-endian fixed-width integers, u64-length-prefixed strings,
    a codec interface for the types bincode serializes, and bincode's byte
    limit on a single encode or decode (`with_limit`), where a limit of 0 means
    that no size check is made. */
module Bincode {
  import opened Wrappers

  type Byte = b: int | 0 <= b < 256

  const U64_BOUND: nat := 0x1_0000_0000_0000_0000

  /** Rust's `u64`. */
  type U64 = n: int | 0 <= n < U64_BOUND

  /** The UTF-8 bytes of a Rust string; no Rust string is long enough to
      overflow its u64 length prefix. */
  type Str = s: seq<Byte> | |s| < U64_BOUND

  function Pow256(k: nat): (r: nat)
    ensures r >= 1
  {
    if k == 0 then 1 else 256 * Pow256(k - 1)
  }

  lemma Pow256Of8()
    ensures Pow256(8) == U64_BOUND
  {
    assert Pow256(0) == 1;
    assert Pow256(1) == 0x100;
    assert Pow256(2) == 0x1_0000;
    assert Pow256(3) == 0x100_0000;
    assert Pow256(4) == 0x1_0000_0000;
    assert Pow256(5) == 0x100_0000_0000;
    assert Pow256(6) == 0x1_0000_0000_0000;
    assert Pow256(7) == 0x100_0000_0000_0000;
  }

  /** `n` written little-endian on `width` bytes. */
  function EncodeLE(n: nat, width: nat): (r: seq<Byte>)
    requires n < Pow256(width)
    ensures |r| == width
  {
    if width == 0 then [] else [n % 256] + EncodeLE(n / 256, width - 1)
  }

  /** The number whose little-endian bytes are `b`. */
  function DecodeLE(b: seq<Byte>): (r: nat)
    ensures r < Pow256(|b|)
  {
    if b == [] then 0 else b[0] + 256 * DecodeLE(b[1..])
  }

  lemma {:induction false} DecodeEncodeLE(n: nat, width: nat)
    requires n < Pow256(width)
    ensures DecodeLE(EncodeLE(n, width)) == n
  {
    if width > 0 {
      var b := EncodeLE(n, width);
      assert b[1..] == EncodeLE(n / 256, width - 1);
      DecodeEncodeLE(n / 256, width - 1);
    }
  }

  /** Every byte string is the little-endian encoding of the number it
      decodes to: a fixint integer has exactly one encoding. */
  lemma {:induction false} EncodeDecodeLE(b: seq<Byte>)
    ensures EncodeLE(DecodeLE(b), |b|) == b
  {
    if b != [] {
      var n := DecodeLE(b);
      assert n % 256 == b[0] && n / 256 == DecodeLE(b[1..]);
      EncodeDecodeLE(b[1..]);
      assert b == [b[0]] + b[1..];
    }
  }

  function EncodeU64(n: U64): (r: seq<Byte>)
    ensures |r| == 8
  {
    Pow256Of8();
    EncodeLE(n, 8)
  }

  function DecodeU64(b: seq<Byte>): (r: U64)
    requires |b| == 8
  {
    Pow256Of8();
    DecodeLE(b)
  }

  /** A string is its u64 byte length followed by its bytes. */
  function EncodeStr(s: Str): (r: seq<Byte>)
    ensures |r| == 8 + |s|
  {
    EncodeU64(|s|) + s
  }

  /** A decoded value and the number of input bytes it took. */
  datatype Decoded<+X> = Decoded(value: X, used: nat)

  function DecodeStr(b: seq<Byte>): (r: Option<Decoded<Str>>)
    ensures r.Some? ==> r.value.used == 8 + |r.value.value| <= |b|
    ensures r.Some? ==> r.value.value == b[8..r.value.used]
    ensures r.Some? ==> |b| >= 8 && |r.value.value| == DecodeU64(b[..8])
    ensures |b| >= 8 ==> (r.Some? <==> DecodeU64(b[..8]) <= |b| - 8)
  {
    if |b| < 8 then None
    else
      var n := DecodeU64(b[..8]);
      if |b| - 8 < n then None else Some(Decoded(b[8..8 + n], 8 + n))
  }

  lemma StrRoundTrip(s: Str, rest: seq<Byte>)
    ensures DecodeStr(EncodeStr(s) + rest) == Some(Decoded(s, 8 + |s|))
  {
    var b := EncodeStr(s) + rest;
    assert b[..8] == EncodeU64(|s|);
    Pow256Of8();
    DecodeEncodeLE(|s|, 8);
    assert b[8..8 + |s|] == s;
  }

  /** A decoded string field is exactly the encoding of the string it gives:
      the decoder accepts nothing but encodings. */
  lemma DecodeStrCanonical(b: seq<Byte>)
    ensures var d := DecodeStr(b);
      d.Some? ==> b[..d.value.used] == EncodeStr(d.value.value)
  {
    var d := DecodeStr(b);
    if d.Some? {
      Pow256Of8();
      EncodeDecodeLE(b[..8]);
      assert EncodeU64(|d.value.value|) == b[..8];
      assert b[..d.value.used] == b[..8] + b[8..d.value.used];
    }
  }

  /** How bincode writes and reads one type: `encode` is its serialization,
      `decode` reads one value from the front of the input and says how many
      bytes it took. */
  datatype Codec<!X> = Codec(encode: X -> seq<Byte>, decode: seq<Byte> -> Option<Decoded<X>>)

  /** A decoder never takes more bytes than it is given. */
  ghost predicate ReadsWithin<X>(c: Codec<X>)
  {
    forall b :: c.decode(b).Some? ==> c.decode(b).value.used <= |b|
  }

  /** Decoding an encoding gives the value back and takes exactly the
      encoding's bytes, whatever follows them. */
  ghost predicate RoundTrips<X(!new)>(c: Codec<X>)
  {
    forall x, rest :: c.decode(c.encode(x) + rest) == Some(Decoded(x, |c.encode(x)|))
  }

  datatype BincodeError = SizeLimit | InvalidEncoding

  /** `options.with_limit(limit).serialize_into(..)`: the size is checked
      before anything is written. */
  function EncodeLimited<X>(c: Codec<X>, x: X, limit: U64): (r: Result<seq<Byte>, BincodeError>)
    ensures r.Success? <==> limit == 0 || |c.encode(x)| <= limit
    ensures r.Success? ==> r.value == c.encode(x)
    ensures r.Failure? ==> r.error == SizeLimit
  {
    var b := c.encode(x);
    if limit != 0 && |b| > limit then Failure(SizeLimit) else Success(b)
  }

  /** `options.with_limit(limit).deserialize_from(..)`. */
  function DecodeLimited<X>(c: Codec<X>, b: seq<Byte>, limit: U64): (r: Result<Decoded<X>, BincodeError>)
    ensures r.Success? <==> c.decode(b).Some? && (limit == 0 || c.decode(b).value.used <= limit)
    ensures r.Success? ==> r.value == c.decode(b).value
    ensures c.decode(b).None? ==> r == Failure(InvalidEncoding)
  {
    match c.decode(b)
    case None => Failure(InvalidEncoding)
    case Some(d) => if limit != 0 && d.used > limit then Failure(SizeLimit) else Success(d)
  }

  /** An encoding within the limit, followed by anything, is read back. */
  lemma DecodeLimitedOfEncoding<X(!new)>(c: Codec<X>, x: X, rest: seq<Byte>, limit: U64)
    requires RoundTrips(c)
    ensures limit == 0 || |c.encode(x)| <= limit ==>
      DecodeLimited(c, c.encode(x) + rest, limit) == Success(Decoded(x, |c.encode(x)|))
    ensures limit != 0 && |c.encode(x)| > limit ==>
      DecodeLimited(c, c.encode(x) + rest, limit) == Failure(SizeLimit)
  {
    assert c.decode(c.encode(x) + rest) == Some(Decoded(x, |c.encode(x)|));
  }
}
