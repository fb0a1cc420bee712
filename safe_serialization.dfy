/** Serialization with safety checks: every object is written as a header
    record followed by a payload record, and read back under a byte budget,
    with optional header validation and an optional conformance check against
    a parameter set. */
module SafeSerialization {
  import opened Wrappers
  import opened Bincode
  import opened Header
  import opened Streams

  /** What a type `T` must provide to go through the protocol: its name
      (`Named::NAME`), its bincode codec, the codec of its versioned envelope
      `E`, the conversions to and from that envelope (`Versionize`,
      `Unversionize`, which can fail), and its conformance predicate against
      parameter sets `P` (`ParameterSetConformant::is_conformant`). */
  datatype Capabilities<!T, !E, !P> = Capabilities(
    name: Str,
    plain: Codec<T>,
    envelope: Codec<E>,
    versionize: T -> E,
    unversionize: E -> Option<T>,
    isConformant: (T, P) -> bool)

  /** Every read stream obeys this: a decoder never takes bytes that are not there. */
  ghost predicate Bounded<T, E, P>(caps: Capabilities<T, E, P>)
  {
    ReadsWithin(caps.plain) && ReadsWithin(caps.envelope)
  }

  /** The collaborator laws a round trip needs: both codecs read back what
      they write, and un-versioning a fresh envelope gives the object back. */
  ghost predicate Lawful<T(!new), E(!new), P>(caps: Capabilities<T, E, P>)
  {
    && Bounded(caps)
    && RoundTrips(caps.plain)
    && RoundTrips(caps.envelope)
    && forall x :: caps.unversionize(caps.versionize(x)) == Some(x)
  }

  datatype Error =
    | HeaderEncode(cause: BincodeError)
    | PayloadEncode(cause: BincodeError)
    | SizeLimitTooSmall
    | HeaderDecode(cause: BincodeError)
    | HeaderInvalid(reason: ValidationError)
    | PayloadDecode(cause: BincodeError)
    | Reconstruction
    | NotConformant(typeName: Str)

  /** What a write call returns, and the bytes it appended to the writer,
      which are not taken back when a later record fails. */
  datatype WriteOutcome = WriteOutcome(result: Outcome<Error>, written: seq<Byte>)

  /** What a read call returns, and how many bytes it took from the reader. */
  datatype ReadOutcome<T> = ReadOutcome(result: Result<T, Error>, consumed: nat)

  /** Header length limit shared by the writer and the readers: none when
      the size limit is switched off, `HEADER_LENGTH_LIMIT` otherwise. */
  function HeaderLengthLimitFor(serializedSizeLimit: U64): (r: U64)
    ensures r == 0 <==> serializedSizeLimit == 0
    ensures r != 0 ==> r == HEADER_LENGTH_LIMIT
  {
    if serializedSizeLimit == 0 then 0 else HEADER_LENGTH_LIMIT
  }

  /** How an object is written: versioned or not, and the payload's byte
      limit (0 for none). */
  datatype SerializationConfig = SerializationConfig(
    versioned: SerializationVersioningMode,
    serializedSizeLimit: U64)
  {
    static function New(serializedSizeLimit: U64): (c: SerializationConfig)
      ensures c.versioned.Versioned? && IsCurrent(c.versioned)
      ensures c.serializedSizeLimit == serializedSizeLimit
    {
      SerializationConfig(VersionedMode(), serializedSizeLimit)
    }

    static function NewWithUnlimitedSize(): (c: SerializationConfig)
      ensures c.versioned.Versioned? && IsCurrent(c.versioned)
      ensures c.serializedSizeLimit == 0
    {
      SerializationConfig(VersionedMode(), 0)
    }

    function DisableSizeLimit(): (c: SerializationConfig)
      ensures c.serializedSizeLimit == 0 && c.versioned == versioned
    {
      this.(serializedSizeLimit := 0)
    }

    function DisableVersioning(): (c: SerializationConfig)
      ensures c.versioned.Unversioned? && IsCurrent(c.versioned)
      ensures c.serializedSizeLimit == serializedSizeLimit
    {
      this.(versioned := UnversionedMode())
    }

    /** The header this config writes for the type called `name`: it has
        the config's variant with the current version, and any reader
        expecting that type accepts it. */
    function CreateHeader(name: Str): (h: SerializationHeader)
      ensures h.headerVersion == SERIALIZATION_VERSION && h.name == name
      ensures h.versioningMode.Versioned? == versioned.Versioned?
      ensures IsCurrent(h.versioningMode)
      ensures Validate(h, name) == Pass
    {
      match versioned
      case Versioned(_) => NewVersioned(name)
      case Unversioned(_) => NewUnversioned(name)
    }

    function HeaderLengthLimit(): (r: U64)
      ensures r == 0 <==> serializedSizeLimit == 0
      ensures r != 0 ==> r == HEADER_LENGTH_LIMIT
    {
      HeaderLengthLimitFor(serializedSizeLimit)
    }

    /** The payload record's bytes: the encoded versioned envelope, or the
        object's own encoding. */
    function PayloadEncoding<T, E, P>(caps: Capabilities<T, E, P>, obj: T): seq<Byte>
    {
      match versioned
      case Versioned(_) => caps.envelope.encode(caps.versionize(obj))
      case Unversioned(_) => caps.plain.encode(obj)
    }

    /** The payload record under the size limit. */
    function EncodePayload<T, E, P>(caps: Capabilities<T, E, P>, obj: T): (r: Result<seq<Byte>, BincodeError>)
      ensures r.Success? <==> serializedSizeLimit == 0 || |PayloadEncoding(caps, obj)| <= serializedSizeLimit
      ensures r.Success? ==> r.value == PayloadEncoding(caps, obj)
    {
      match versioned
      case Versioned(_) => EncodeLimited(caps.envelope, caps.versionize(obj), serializedSizeLimit)
      case Unversioned(_) => EncodeLimited(caps.plain, obj, serializedSizeLimit)
    }

    /** What `serialize_into` does: the header under the header length
        limit, then the payload under the size limit. */
    function Serialized<T, E, P>(caps: Capabilities<T, E, P>, obj: T): (out: WriteOutcome)
      ensures out.result.Pass? <==>
        serializedSizeLimit == 0 ||
        (|EncodeHeader(CreateHeader(caps.name))| <= HEADER_LENGTH_LIMIT &&
         |PayloadEncoding(caps, obj)| <= serializedSizeLimit)
      ensures out.result.Pass? ==>
        out.written == EncodeHeader(CreateHeader(caps.name)) + PayloadEncoding(caps, obj)
      ensures out.result == Fail(HeaderEncode(SizeLimit)) ==> out.written == []
      ensures out.result == Fail(PayloadEncode(SizeLimit)) ==>
        out.written == EncodeHeader(CreateHeader(caps.name))
      ensures out.result.Fail? ==>
        out.result.error in {HeaderEncode(SizeLimit), PayloadEncode(SizeLimit)}
      ensures (serializedSizeLimit != 0 &&
               |EncodeHeader(CreateHeader(caps.name))| > HEADER_LENGTH_LIMIT) ==>
        out == WriteOutcome(Fail(HeaderEncode(SizeLimit)), [])
      ensures ((serializedSizeLimit == 0 ||
                |EncodeHeader(CreateHeader(caps.name))| <= HEADER_LENGTH_LIMIT) &&
               out.result.Fail?) ==>
        out == WriteOutcome(Fail(PayloadEncode(SizeLimit)), EncodeHeader(CreateHeader(caps.name)))
    {
      match EncodeLimited(HeaderCodec(), CreateHeader(caps.name), HeaderLengthLimit())
      case Failure(e) => WriteOutcome(Fail(HeaderEncode(e)), [])
      case Success(headerBytes) =>
        match EncodePayload(caps, obj)
        case Failure(e) => WriteOutcome(Fail(PayloadEncode(e)), headerBytes)
        case Success(payloadBytes) => WriteOutcome(Pass, headerBytes + payloadBytes)
    }

    /** Writes `obj` to `writer`: the header record first, then the payload
        record, stopping at the first record that does not fit its limit. */
    method SerializeInto<T, E, P>(caps: Capabilities<T, E, P>, obj: T, writer: ByteSink)
      returns (r: Outcome<Error>)
      modifies writer
      ensures r == Serialized(caps, obj).result
      ensures writer.bytes == old(writer.bytes) + Serialized(caps, obj).written
    {
      ghost var out := Serialized(caps, obj);
      ghost var before := writer.bytes;
      var header := EncodeLimited(HeaderCodec(), CreateHeader(caps.name), HeaderLengthLimit());
      if header.Failure? {
        assert out.written == [];
        return Fail(HeaderEncode(header.error));
      }
      SerializedPastHeader(this, caps, obj);
      writer.Write(header.value);
      var payload := EncodePayload(caps, obj);
      if payload.Failure? {
        assert out.written == header.value;
        return Fail(PayloadEncode(payload.error));
      }
      writer.Write(payload.value);
      assert out.written == header.value + payload.value;
      ConcatAssoc(before, header.value, payload.value);
      return Pass;
    }
  }

  /** Appending two records one after the other appends their concatenation. */
  lemma ConcatAssoc(a: seq<Byte>, b: seq<Byte>, c: seq<Byte>)
    ensures (a + b) + c == a + (b + c)
  {
  }

  /** Once the header is written, the outcome is that of the payload record. */
  lemma SerializedPastHeader<T, E, P>(cfg: SerializationConfig, caps: Capabilities<T, E, P>, obj: T)
    requires EncodeLimited(HeaderCodec(), cfg.CreateHeader(caps.name), cfg.HeaderLengthLimit()).Success?
    ensures var headerBytes, payload := EncodeHeader(cfg.CreateHeader(caps.name)), cfg.EncodePayload(caps, obj);
      cfg.Serialized(caps, obj) ==
        if payload.Success? then WriteOutcome(Pass, headerBytes + payload.value)
        else WriteOutcome(Fail(PayloadEncode(payload.error)), headerBytes)
  {
  }

  /** How bytes are read back without a conformance check. */
  datatype NonConformantDeserializationConfig = NonConformantDeserializationConfig(
    serializedSizeLimit: U64,
    validateHeader: bool)
  {
    function EnableConformance(): (c: DeserializationConfig)
      ensures c.serializedSizeLimit == serializedSizeLimit
      ensures c.validateHeader == validateHeader
    {
      DeserializationConfig(serializedSizeLimit, validateHeader)
    }

    /** A size limit that leaves no room for a payload once the header's
        share is taken out. */
    predicate LimitTooSmall()
    {
      serializedSizeLimit != 0 && serializedSizeLimit <= HEADER_LENGTH_LIMIT
    }

    function HeaderLengthLimit(): (r: U64)
      ensures r == 0 <==> serializedSizeLimit == 0
      ensures r != 0 ==> r == HEADER_LENGTH_LIMIT
    {
      HeaderLengthLimitFor(serializedSizeLimit)
    }

    /** The payload's byte limit, `serialized_size_limit - header_length_limit()`.
        Once small limits are rejected it cannot underflow, and it is never
        0 ("no limit") unless the size limit itself is 0. */
    function PayloadBudget(): (r: U64)
      requires !LimitTooSmall()
      ensures r == 0 <==> serializedSizeLimit == 0
      ensures r != 0 ==> r + HEADER_LENGTH_LIMIT == serializedSizeLimit
    {
      serializedSizeLimit - HeaderLengthLimit()
    }

    /** What `deserialize_from` does with the bytes `input` ahead of the
        reader's cursor. */
    function Deserialized<T, E, P>(caps: Capabilities<T, E, P>, input: seq<Byte>): (out: ReadOutcome<T>)
      requires Bounded(caps)
      ensures out.consumed <= |input|
      ensures LimitTooSmall() ==> out == ReadOutcome(Failure(SizeLimitTooSmall), 0)
      ensures serializedSizeLimit != 0 ==> out.consumed <= serializedSizeLimit
      ensures out.result.Success? ==>
        DecodeHeader(input).Some? &&
        (validateHeader ==> Validate(DecodeHeader(input).value.value, caps.name) == Pass)
    {
      if LimitTooSmall() then ReadOutcome(Failure(SizeLimitTooSmall), 0)
      else
        match DecodeLimited(HeaderCodec(), input, HeaderLengthLimit())
        case Failure(e) => ReadOutcome(Failure(HeaderDecode(e)), 0)
        case Success(header) =>
          var check := if validateHeader then Validate(header.value, caps.name) else Pass;
          if check.Fail? then ReadOutcome(Failure(HeaderInvalid(check.error)), header.used)
          else
            var payload := ReadPayload(caps, header.value.versioningMode, input[header.used..], PayloadBudget());
            ReadOutcome(payload.result, header.used + payload.consumed)
    }

    /** Reads one object from `reader`: the size-limit guard, the header
        under its own limit, the optional validation, then the payload in the
        form the header names, under the remaining budget. */
    method DeserializeFrom<T, E, P>(caps: Capabilities<T, E, P>, reader: ByteSource)
      returns (r: Result<T, Error>)
      requires reader.Valid() && Bounded(caps)
      modifies reader
      ensures reader.Valid()
      ensures var out := Deserialized(caps, old(reader.Remaining()));
        r == out.result && reader.pos == old(reader.pos) + out.consumed
    {
      if LimitTooSmall() {
        return Failure(SizeLimitTooSmall);
      }
      HeaderCodecReadsWithin();
      ghost var input := reader.Remaining();
      var header := reader.Deserialize(HeaderCodec(), HeaderLengthLimit());
      if header.Failure? {
        return Failure(HeaderDecode(header.error));
      }
      ghost var decodedHeader := DecodeLimited(HeaderCodec(), input, HeaderLengthLimit());
      assert decodedHeader == Success(Decoded(header.value, decodedHeader.value.used));
      ghost var used := decodedHeader.value.used;
      if validateHeader {
        var check := Validate(header.value, caps.name);
        if check.Fail? {
          assert Deserialized(caps, input) == ReadOutcome(Failure(HeaderInvalid(check.error)), used);
          return Failure(HeaderInvalid(check.error));
        }
      }
      DeserializedPastHeader(this, caps, input, header.value, used);
      r := ReadPayloadFrom(caps, header.value.versioningMode, reader, PayloadBudget());
    }
  }

  /** Once the header is read and accepted, the outcome is that of the
      payload read that follows it. */
  lemma DeserializedPastHeader<T, E, P>(
    cfg: NonConformantDeserializationConfig, caps: Capabilities<T, E, P>, input: seq<Byte>,
    header: SerializationHeader, used: nat)
    requires Bounded(caps) && !cfg.LimitTooSmall()
    requires DecodeLimited(HeaderCodec(), input, cfg.HeaderLengthLimit()) == Success(Decoded(header, used))
    requires cfg.validateHeader ==> Validate(header, caps.name) == Pass
    ensures used <= |input|
    ensures var payload := ReadPayload(caps, header.versioningMode, input[used..], cfg.PayloadBudget());
      cfg.Deserialized(caps, input) == ReadOutcome(payload.result, used + payload.consumed)
  {
    HeaderCodecReadsWithin();
  }

  /** Reading the payload record once the header has named its form: a
      versioned envelope to un-version, or the object itself. A failed
      decode takes no bytes; a failed reconstruction has taken the
      envelope's. */
  function ReadPayload<T, E, P>(
    caps: Capabilities<T, E, P>, mode: SerializationVersioningMode, payload: seq<Byte>, budget: U64)
    : (out: ReadOutcome<T>)
    requires Bounded(caps)
    ensures out.consumed <= |payload|
    ensures budget != 0 ==> out.consumed <= budget
    ensures mode.Versioned? ==>
      var env := DecodeLimited(caps.envelope, payload, budget);
      (out.result.Success? <==> env.Success? && caps.unversionize(env.value.value).Some?) &&
      (out.result.Success? ==>
        caps.unversionize(env.value.value) == Some(out.result.value) && out.consumed == env.value.used) &&
      (env.Success? && caps.unversionize(env.value.value).None? ==>
        out == ReadOutcome(Failure(Reconstruction), env.value.used)) &&
      (env.Failure? ==> out == ReadOutcome(Failure(PayloadDecode(env.error)), 0))
    ensures mode.Unversioned? ==>
      var dec := DecodeLimited(caps.plain, payload, budget);
      (out.result.Success? <==> dec.Success?) &&
      (out.result.Success? ==> out.result.value == dec.value.value && out.consumed == dec.value.used) &&
      (dec.Failure? ==> out == ReadOutcome(Failure(PayloadDecode(dec.error)), 0))
  {
    match mode
    case Versioned(_) =>
      (match DecodeLimited(caps.envelope, payload, budget)
       case Failure(e) => ReadOutcome(Failure(PayloadDecode(e)), 0)
       case Success(envelope) =>
         match caps.unversionize(envelope.value)
         case None => ReadOutcome(Failure(Reconstruction), envelope.used)
         case Some(x) => ReadOutcome(Success(x), envelope.used))
    case Unversioned(_) =>
      match DecodeLimited(caps.plain, payload, budget)
      case Failure(e) => ReadOutcome(Failure(PayloadDecode(e)), 0)
      case Success(decoded) => ReadOutcome(Success(decoded.value), decoded.used)
  }

  method ReadPayloadFrom<T, E, P>(
    caps: Capabilities<T, E, P>, mode: SerializationVersioningMode, reader: ByteSource, budget: U64)
    returns (r: Result<T, Error>)
    requires reader.Valid() && Bounded(caps)
    modifies reader
    ensures reader.Valid()
    ensures var out := ReadPayload(caps, mode, old(reader.Remaining()), budget);
      r == out.result && reader.pos == old(reader.pos) + out.consumed
  {
    match mode {
      case Versioned(_) =>
        var envelope := reader.Deserialize(caps.envelope, budget);
        if envelope.Failure? {
          return Failure(PayloadDecode(envelope.error));
        }
        var decoded := caps.unversionize(envelope.value);
        if decoded.None? {
          return Failure(Reconstruction);
        }
        return Success(decoded.value);
      case Unversioned(_) =>
        var decoded := reader.Deserialize(caps.plain, budget);
        if decoded.Failure? {
          return Failure(PayloadDecode(decoded.error));
        }
        return Success(decoded.value);
    }
  }

  /** How bytes are read back, ending with a conformance check against a
      parameter set. */
  datatype DeserializationConfig = DeserializationConfig(
    serializedSizeLimit: U64,
    validateHeader: bool)
  {
    /** No size check happens here: a limit that is too small is only
        rejected when reading. */
    static function New(serializedSizeLimit: U64): (c: DeserializationConfig)
      ensures c.serializedSizeLimit == serializedSizeLimit && c.validateHeader
    {
      DeserializationConfig(serializedSizeLimit, true)
    }

    static function NewWithUnlimitedSize(): (c: DeserializationConfig)
      ensures c.serializedSizeLimit == 0 && c.validateHeader
    {
      DeserializationConfig(0, true)
    }

    function DisableSizeLimit(): (c: DeserializationConfig)
      ensures c.serializedSizeLimit == 0 && c.validateHeader == validateHeader
    {
      this.(serializedSizeLimit := 0)
    }

    function DisableHeaderValidation(): (c: DeserializationConfig)
      ensures !c.validateHeader && c.serializedSizeLimit == serializedSizeLimit
    {
      this.(validateHeader := false)
    }

    function DisableConformance(): (c: NonConformantDeserializationConfig)
      ensures c.serializedSizeLimit == serializedSizeLimit
      ensures c.validateHeader == validateHeader
      ensures c.EnableConformance() == this
    {
      NonConformantDeserializationConfig(serializedSizeLimit, validateHeader)
    }

    /** What the conformant `deserialize_from` does: the non-conformant read,
        then a rejection of a decoded object that does not conform to
        `params`. */
    function Deserialized<T, E, P>(caps: Capabilities<T, E, P>, params: P, input: seq<Byte>)
      : (out: ReadOutcome<T>)
      requires Bounded(caps)
      ensures var inner := DisableConformance().Deserialized(caps, input);
        && out.consumed == inner.consumed
        && (out.result.Success? <==>
              inner.result.Success? && caps.isConformant(inner.result.value, params))
        && (out.result.Success? ==> out.result == inner.result)
        && (inner.result.Failure? ==> out.result == inner.result)
        && (inner.result.Success? && !caps.isConformant(inner.result.value, params) ==>
              out.result == Failure(NotConformant(caps.name)))
    {
      var inner := DisableConformance().Deserialized(caps, input);
      if inner.result.Success? && !caps.isConformant(inner.result.value, params)
      then inner.(result := Failure(NotConformant(caps.name)))
      else inner
    }

    method DeserializeFrom<T, E, P>(caps: Capabilities<T, E, P>, reader: ByteSource, params: P)
      returns (r: Result<T, Error>)
      requires reader.Valid() && Bounded(caps)
      modifies reader
      ensures reader.Valid()
      ensures var out := Deserialized(caps, params, old(reader.Remaining()));
        r == out.result && reader.pos == old(reader.pos) + out.consumed
    {
      r := DisableConformance().DeserializeFrom(caps, reader);
      if r.Failure? {
        return;
      }
      if !caps.isConformant(r.value, params) {
        return Failure(NotConformant(caps.name));
      }
    }
  }

  /** `safe_serialize`: `SerializationConfig::new(limit).serialize_into`. */
  method SafeSerialize<T, E, P>(caps: Capabilities<T, E, P>, obj: T, writer: ByteSink, serializedSizeLimit: U64)
    returns (r: Outcome<Error>)
    modifies writer
    ensures var out := SerializationConfig.New(serializedSizeLimit).Serialized(caps, obj);
      r == out.result && writer.bytes == old(writer.bytes) + out.written
  {
    r := SerializationConfig.New(serializedSizeLimit).SerializeInto(caps, obj, writer);
  }

  /** `safe_deserialize`: `DeserializationConfig::new(limit).disable_conformance().deserialize_from`. */
  method SafeDeserialize<T, E, P>(caps: Capabilities<T, E, P>, reader: ByteSource, serializedSizeLimit: U64)
    returns (r: Result<T, Error>)
    requires reader.Valid() && Bounded(caps)
    modifies reader
    ensures reader.Valid()
    ensures var out := DeserializationConfig.New(serializedSizeLimit).DisableConformance()
                         .Deserialized(caps, old(reader.Remaining()));
      r == out.result && reader.pos == old(reader.pos) + out.consumed
  {
    r := DeserializationConfig.New(serializedSizeLimit).DisableConformance().DeserializeFrom(caps, reader);
  }

  /** `safe_deserialize_conformant`: `DeserializationConfig::new(limit).deserialize_from`. */
  method SafeDeserializeConformant<T, E, P>(
    caps: Capabilities<T, E, P>, reader: ByteSource, serializedSizeLimit: U64, params: P)
    returns (r: Result<T, Error>)
    requires reader.Valid() && Bounded(caps)
    modifies reader
    ensures reader.Valid()
    ensures var out := DeserializationConfig.New(serializedSizeLimit)
                         .Deserialized(caps, params, old(reader.Remaining()));
      r == out.result && reader.pos == old(reader.pos) + out.consumed
  {
    r := DeserializationConfig.New(serializedSizeLimit).DeserializeFrom(caps, reader, params);
  }
}
