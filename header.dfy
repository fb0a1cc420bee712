/** The self-describing header written in front of every serialized object:
    the version constants, the versioning mode, the header record, its
    validation against the type a reader expects, and its bincode encoding. */
module Header {
  import opened Wrappers
  import opened Bincode

  /** Version of the header layout itself, "0.5". */
  const SERIALIZATION_VERSION: Str := [0x30, 0x2E, 0x35]

  /** Version of the versioning scheme, "0.1". */
  const VERSIONING_VERSION: Str := [0x30, 0x2E, 0x31]

  /** "<major>.<minor>" of the crate, fixed when the crate is built; the model
      relies on no particular value. */
  const CRATE_VERSION: Str

  /** Largest header a size-limited reader will try to read. */
  const HEADER_LENGTH_LIMIT: U64 := 1000

  /** Whether the payload is the object's versioned envelope or its raw
      encoding, with the version that governs it. */
  datatype SerializationVersioningMode =
    | Versioned(versioningVersion: Str)
    | Unversioned(crateVersion: Str)
  {
    /** The version string this mode carries. */
    function Version(): Str
    {
      match this
      case Versioned(v) => v
      case Unversioned(v) => v
    }
  }

  /** A mode this build can read: a versioned mode of the current versioning
      scheme, or an unversioned mode written by this very crate release. */
  predicate IsCurrent(m: SerializationVersioningMode)
  {
    match m
    case Versioned(v) => v == VERSIONING_VERSION
    case Unversioned(v) => v == CRATE_VERSION
  }

  /** `SerializationVersioningMode::versioned()` */
  function VersionedMode(): (m: SerializationVersioningMode)
    ensures m.Versioned? && IsCurrent(m)
  {
    Versioned(VERSIONING_VERSION)
  }

  /** `SerializationVersioningMode::unversioned()` */
  function UnversionedMode(): (m: SerializationVersioningMode)
    ensures m.Unversioned? && IsCurrent(m)
  {
    Unversioned(CRATE_VERSION)
  }

  datatype SerializationHeader = SerializationHeader(
    headerVersion: Str,
    versioningMode: SerializationVersioningMode,
    name: Str)

  /** Header of a versioned message of the type called `name`. */
  function NewVersioned(name: Str): (h: SerializationHeader)
    ensures h.headerVersion == SERIALIZATION_VERSION && h.name == name
    ensures h.versioningMode.Versioned? && IsCurrent(h.versioningMode)
    ensures Validate(h, name) == Pass
  {
    SerializationHeader(SERIALIZATION_VERSION, VersionedMode(), name)
  }

  /** Header of an unversioned message of the type called `name`. */
  function NewUnversioned(name: Str): (h: SerializationHeader)
    ensures h.headerVersion == SERIALIZATION_VERSION && h.name == name
    ensures h.versioningMode.Unversioned? && IsCurrent(h.versioningMode)
    ensures Validate(h, name) == Pass
  {
    SerializationHeader(SERIALIZATION_VERSION, UnversionedMode(), name)
  }

  datatype ValidationError =
    | VersioningVersionMismatch(got: Str)
    | CrateVersionMismatch(got: Str, typeName: Str)
    | NameMismatch(expected: Str, got: Str)

  /** Checks a header read from the wire against the type called `expected`:
      first the mode's version, then the type name. The header version is
      not looked at. */
  function Validate(h: SerializationHeader, expected: Str): (r: Outcome<ValidationError>)
    ensures r.Pass? <==> IsCurrent(h.versioningMode) && h.name == expected
    ensures h.versioningMode.Versioned? && !IsCurrent(h.versioningMode) ==>
      r == Fail(VersioningVersionMismatch(h.versioningMode.versioningVersion))
    ensures h.versioningMode.Unversioned? && !IsCurrent(h.versioningMode) ==>
      r == Fail(CrateVersionMismatch(h.versioningMode.crateVersion, h.name))
    ensures IsCurrent(h.versioningMode) && h.name != expected ==>
      r == Fail(NameMismatch(expected, h.name))
  {
    match h.versioningMode
    case Versioned(v) =>
      if v != VERSIONING_VERSION then Fail(VersioningVersionMismatch(v))
      else if h.name != expected then Fail(NameMismatch(expected, h.name))
      else Pass
    case Unversioned(v) =>
      if v != CRATE_VERSION then Fail(CrateVersionMismatch(v, h.name))
      else if h.name != expected then Fail(NameMismatch(expected, h.name))
      else Pass
  }

  lemma ValidateIgnoresHeaderVersion(h: SerializationHeader, v: Str, expected: Str)
    ensures Validate(h.(headerVersion := v), expected) == Validate(h, expected)
  {
  }

  // Bincode layout of the header: the fields in declaration order, the mode
  // as a u32 variant index (0 for Versioned, 1 for Unversioned) followed by
  // its string.

  /** Bincode's u32 variant index of the mode. */
  function VariantIndex(m: SerializationVersioningMode): (r: nat)
    ensures r < Pow256(4)
  {
    if m.Versioned? then 0 else 1
  }

  function EncodeMode(m: SerializationVersioningMode): (r: seq<Byte>)
    ensures |r| == 12 + |m.Version()|
  {
    EncodeLE(VariantIndex(m), 4) + EncodeStr(m.Version())
  }

  function DecodeMode(b: seq<Byte>): (r: Option<Decoded<SerializationVersioningMode>>)
    ensures r.Some? ==> r.value.used <= |b|
  {
    if |b| < 4 then None
    else
      var tag := DecodeLE(b[..4]);
      if tag > 1 then None
      else
        match DecodeStr(b[4..])
        case None => None
        case Some(d) =>
          Some(Decoded(if tag == 0 then Versioned(d.value) else Unversioned(d.value), 4 + d.used))
  }

  function EncodeHeader(h: SerializationHeader): (r: seq<Byte>)
    ensures |r| == 28 + |h.headerVersion| + |h.versioningMode.Version()| + |h.name|
  {
    EncodeStr(h.headerVersion) + EncodeMode(h.versioningMode) + EncodeStr(h.name)
  }

  function DecodeHeader(b: seq<Byte>): (r: Option<Decoded<SerializationHeader>>)
    ensures r.Some? ==> r.value.used <= |b|
  {
    match DecodeStr(b)
    case None => None
    case Some(hv) =>
      match DecodeMode(b[hv.used..])
      case None => None
      case Some(m) =>
        match DecodeStr(b[hv.used + m.used..])
        case None => None
        case Some(n) =>
          Some(Decoded(SerializationHeader(hv.value, m.value, n.value), hv.used + m.used + n.used))
  }

  function HeaderCodec(): Codec<SerializationHeader>
  {
    Codec(EncodeHeader, DecodeHeader)
  }

  lemma ModeRoundTrip(m: SerializationVersioningMode, rest: seq<Byte>)
    ensures DecodeMode(EncodeMode(m) + rest) == Some(Decoded(m, |EncodeMode(m)|))
  {
    var tag, str := EncodeLE(VariantIndex(m), 4), EncodeStr(m.Version());
    var b := EncodeMode(m) + rest;
    assert b == tag + (str + rest);
    assert b[..4] == tag;
    DecodeEncodeLE(VariantIndex(m), 4);
    assert b[4..] == str + rest;
    StrRoundTrip(m.Version(), rest);
  }

  /** A decoded mode is exactly the encoding of the mode it gives: a variant
      index other than 0 or 1 is refused. */
  lemma DecodeModeCanonical(b: seq<Byte>)
    ensures var d := DecodeMode(b);
      d.Some? ==> b[..d.value.used] == EncodeMode(d.value.value)
  {
    var d := DecodeMode(b);
    if d.Some? {
      var m := d.value.value;
      EncodeDecodeLE(b[..4]);
      assert EncodeLE(VariantIndex(m), 4) == b[..4];
      var str := DecodeStr(b[4..]);
      DecodeStrCanonical(b[4..]);
      assert b[4..][..str.value.used] == EncodeStr(m.Version());
      assert b[..d.value.used] == b[..4] + b[4..][..str.value.used];
    }
  }

  /** Where each field of an encoded header starts. */
  lemma HeaderFields(h: SerializationHeader, rest: seq<Byte>)
    ensures var hv, md := EncodeStr(h.headerVersion), EncodeMode(h.versioningMode);
      var b := EncodeHeader(h) + rest;
      && b == hv + (md + (EncodeStr(h.name) + rest))
      && b[|hv|..] == md + (EncodeStr(h.name) + rest)
      && b[|hv| + |md|..] == EncodeStr(h.name) + rest
  {
    var hv, md, nm := EncodeStr(h.headerVersion), EncodeMode(h.versioningMode), EncodeStr(h.name);
    var b := EncodeHeader(h) + rest;
    assert b == hv + (md + (nm + rest));
    assert b[|hv|..] == md + (nm + rest);
    assert b[|hv| + |md|..] == nm + rest;
  }

  lemma HeaderRoundTrip(h: SerializationHeader, rest: seq<Byte>)
    ensures DecodeHeader(EncodeHeader(h) + rest) == Some(Decoded(h, |EncodeHeader(h)|))
  {
    var hv, md, nm := EncodeStr(h.headerVersion), EncodeMode(h.versioningMode), EncodeStr(h.name);
    var b := EncodeHeader(h) + rest;
    HeaderFields(h, rest);
    StrRoundTrip(h.headerVersion, md + (nm + rest));
    ModeRoundTrip(h.versioningMode, nm + rest);
    StrRoundTrip(h.name, rest);
    assert DecodeStr(b) == Some(Decoded(h.headerVersion, |hv|));
    assert DecodeMode(b[|hv|..]) == Some(Decoded(h.versioningMode, |md|));
    assert DecodeStr(b[|hv| + |md|..]) == Some(Decoded(h.name, |nm|));
  }

  /** The converse of `HeaderRoundTrip`: whatever the decoder accepts from
      untrusted bytes is exactly the encoding of the header it returns. */
  lemma DecodeHeaderCanonical(b: seq<Byte>)
    ensures var d := DecodeHeader(b);
      d.Some? ==> b[..d.value.used] == EncodeHeader(d.value.value)
  {
    var d := DecodeHeader(b);
    if d.Some? {
      var hv := DecodeStr(b).value;
      var m := DecodeMode(b[hv.used..]).value;
      var n := DecodeStr(b[hv.used + m.used..]).value;
      DecodeStrCanonical(b);
      DecodeModeCanonical(b[hv.used..]);
      DecodeStrCanonical(b[hv.used + m.used..]);
      assert b[..hv.used] == EncodeStr(hv.value);
      assert b[hv.used..][..m.used] == EncodeMode(m.value);
      assert b[hv.used + m.used..][..n.used] == EncodeStr(n.value);
      assert b[..d.value.used] == b[..hv.used] + b[hv.used..][..m.used] + b[hv.used + m.used..][..n.used];
    }
  }

  /** The header codec obeys the laws every bincode codec is assumed to. */
  lemma HeaderCodecRoundTrips()
    ensures RoundTrips(HeaderCodec())
  {
    forall h, rest: seq<Byte>
      ensures HeaderCodec().decode(HeaderCodec().encode(h) + rest)
        == Some(Decoded(h, |HeaderCodec().encode(h)|))
    {
      HeaderRoundTrip(h, rest);
    }
  }

  lemma HeaderCodecReadsWithin()
    ensures ReadsWithin(HeaderCodec())
  {
  }
}
