/** What the protocol guarantees end to end: what a reader makes of the
    bytes a writer produced, and which headers and sizes it turns away. */
module Properties {
  import opened Wrappers
  import opened Bincode
  import opened Header
  import opened SafeSerialization

  /** A header that fits the reader's header length limit is read back
      whole, whatever follows it. */
  lemma ReadHeader(cfg: NonConformantDeserializationConfig, h: SerializationHeader, tail: seq<Byte>)
    requires cfg.serializedSizeLimit == 0 || |EncodeHeader(h)| <= HEADER_LENGTH_LIMIT
    ensures DecodeLimited(HeaderCodec(), EncodeHeader(h) + tail, cfg.HeaderLengthLimit())
      == Success(Decoded(h, |EncodeHeader(h)|))
  {
    HeaderCodecRoundTrips();
    DecodeLimitedOfEncoding(HeaderCodec(), h, tail, cfg.HeaderLengthLimit());
  }

  /** Reading from an encoded header on: a header that validation turns away
      ends the read there; otherwise the payload is read in the form the
      header names, under the payload budget. */
  lemma DeserializedOfHeader<T, E, P>(
    cfg: NonConformantDeserializationConfig, caps: Capabilities<T, E, P>,
    h: SerializationHeader, tail: seq<Byte>)
    requires Bounded(caps) && !cfg.LimitTooSmall()
    requires cfg.serializedSizeLimit == 0 || |EncodeHeader(h)| <= HEADER_LENGTH_LIMIT
    ensures var out := cfg.Deserialized(caps, EncodeHeader(h) + tail);
      if cfg.validateHeader && Validate(h, caps.name).Fail?
      then out == ReadOutcome(Failure(HeaderInvalid(Validate(h, caps.name).error)), |EncodeHeader(h)|)
      else
        var payload := ReadPayload(caps, h.versioningMode, tail, cfg.PayloadBudget());
        out == ReadOutcome(payload.result, |EncodeHeader(h)| + payload.consumed)
  {
    var input := EncodeHeader(h) + tail;
    ReadHeader(cfg, h, tail);
    assert input[|EncodeHeader(h)|..] == tail;
    if !(cfg.validateHeader && Validate(h, caps.name).Fail?) {
      DeserializedPastHeader(cfg, caps, input, h, |EncodeHeader(h)|);
    }
  }

  /** The payload record a writer produced is read back as the object when
      it fits the reader's budget, and refused untouched when it does not. */
  lemma ReadPayloadOfEncoding<T(!new), E(!new), P>(
    cfg: SerializationConfig, caps: Capabilities<T, E, P>, obj: T, rest: seq<Byte>, budget: U64)
    requires Lawful(caps)
    ensures var mode, payload := cfg.CreateHeader(caps.name).versioningMode, cfg.PayloadEncoding(caps, obj);
      budget == 0 || |payload| <= budget ==>
        ReadPayload(caps, mode, payload + rest, budget) == ReadOutcome(Success(obj), |payload|)
    ensures var mode, payload := cfg.CreateHeader(caps.name).versioningMode, cfg.PayloadEncoding(caps, obj);
      budget != 0 && |payload| > budget ==>
        ReadPayload(caps, mode, payload + rest, budget) == ReadOutcome(Failure(PayloadDecode(SizeLimit)), 0)
  {
    match cfg.versioned
    case Versioned(_) =>
      DecodeLimitedOfEncoding(caps.envelope, caps.versionize(obj), rest, budget);
    case Unversioned(_) =>
      DecodeLimitedOfEncoding(caps.plain, obj, rest, budget);
  }

  /** Round trip: what a writer wrote is read back as the same object, and
      exactly its bytes are taken, by a reader with the same size limit,
      with or without header validation, provided the payload fits the
      reader's smaller budget. */
  lemma RoundTrip<T(!new), E(!new), P>(
    wcfg: SerializationConfig, rcfg: NonConformantDeserializationConfig,
    caps: Capabilities<T, E, P>, obj: T, rest: seq<Byte>)
    requires Lawful(caps)
    requires rcfg.serializedSizeLimit == wcfg.serializedSizeLimit
    requires wcfg.Serialized(caps, obj).result.Pass?
    requires wcfg.serializedSizeLimit == 0 ||
      (HEADER_LENGTH_LIMIT < wcfg.serializedSizeLimit &&
       |wcfg.PayloadEncoding(caps, obj)| <= wcfg.serializedSizeLimit - HEADER_LENGTH_LIMIT)
    ensures var written := wcfg.Serialized(caps, obj).written;
      rcfg.Deserialized(caps, written + rest) == ReadOutcome(Success(obj), |written|)
  {
    var h := wcfg.CreateHeader(caps.name);
    var payload := wcfg.PayloadEncoding(caps, obj);
    ConcatAssoc(EncodeHeader(h), payload, rest);
    DeserializedOfHeader(rcfg, caps, h, payload + rest);
    ReadPayloadOfEncoding(wcfg, caps, obj, rest, rcfg.PayloadBudget());
  }

  /** With the conformance check, the object comes back exactly when it
      conforms to the parameter set; otherwise the read fails with
      `NotConformant`, having taken the same bytes. */
  lemma ConformantRoundTrip<T(!new), E(!new), P>(
    wcfg: SerializationConfig, rcfg: DeserializationConfig,
    caps: Capabilities<T, E, P>, obj: T, params: P, rest: seq<Byte>)
    requires Lawful(caps)
    requires rcfg.serializedSizeLimit == wcfg.serializedSizeLimit
    requires wcfg.Serialized(caps, obj).result.Pass?
    requires wcfg.serializedSizeLimit == 0 ||
      (HEADER_LENGTH_LIMIT < wcfg.serializedSizeLimit &&
       |wcfg.PayloadEncoding(caps, obj)| <= wcfg.serializedSizeLimit - HEADER_LENGTH_LIMIT)
    ensures var written := wcfg.Serialized(caps, obj).written;
      rcfg.Deserialized(caps, params, written + rest) ==
        ReadOutcome(
          if caps.isConformant(obj, params) then Success(obj) else Failure(NotConformant(caps.name)),
          |written|)
  {
    RoundTrip(wcfg, rcfg.DisableConformance(), caps, obj, rest);
  }

  /** `safe_serialize` followed by `safe_deserialize` with the same limit
      gives the object back, provided the versioned envelope fits the
      reader's budget of the limit minus `HEADER_LENGTH_LIMIT`. */
  lemma SafeRoundTrip<T(!new), E(!new), P>(
    caps: Capabilities<T, E, P>, obj: T, serializedSizeLimit: U64, rest: seq<Byte>)
    requires Lawful(caps)
    requires SerializationConfig.New(serializedSizeLimit).Serialized(caps, obj).result.Pass?
    requires serializedSizeLimit == 0 ||
      (HEADER_LENGTH_LIMIT < serializedSizeLimit &&
       |caps.envelope.encode(caps.versionize(obj))| <= serializedSizeLimit - HEADER_LENGTH_LIMIT)
    ensures var written := SerializationConfig.New(serializedSizeLimit).Serialized(caps, obj).written;
      DeserializationConfig.New(serializedSizeLimit).DisableConformance().Deserialized(caps, written + rest)
        == ReadOutcome(Success(obj), |written|)
  {
    RoundTrip(SerializationConfig.New(serializedSizeLimit),
              DeserializationConfig.New(serializedSizeLimit).DisableConformance(), caps, obj, rest);
  }

  /** The writer lets the payload use the whole size limit, the reader only
      what the header's share leaves: a payload in between is written
      without complaint and then refused by a reader with the same limit. */
  lemma WriterReaderBudgetGap<T(!new), E(!new), P>(
    wcfg: SerializationConfig, rcfg: NonConformantDeserializationConfig,
    caps: Capabilities<T, E, P>, obj: T, rest: seq<Byte>)
    requires Lawful(caps)
    requires rcfg.serializedSizeLimit == wcfg.serializedSizeLimit
    requires |EncodeHeader(wcfg.CreateHeader(caps.name))| <= HEADER_LENGTH_LIMIT
    requires HEADER_LENGTH_LIMIT < wcfg.serializedSizeLimit
    requires wcfg.serializedSizeLimit - HEADER_LENGTH_LIMIT < |wcfg.PayloadEncoding(caps, obj)|
               <= wcfg.serializedSizeLimit
    ensures wcfg.Serialized(caps, obj).result.Pass?
    ensures rcfg.Deserialized(caps, wcfg.Serialized(caps, obj).written + rest) ==
      ReadOutcome(Failure(PayloadDecode(SizeLimit)), |EncodeHeader(wcfg.CreateHeader(caps.name))|)
  {
    var h := wcfg.CreateHeader(caps.name);
    var payload := wcfg.PayloadEncoding(caps, obj);
    ConcatAssoc(EncodeHeader(h), payload, rest);
    DeserializedOfHeader(rcfg, caps, h, payload + rest);
    ReadPayloadOfEncoding(wcfg, caps, obj, rest, rcfg.PayloadBudget());
  }

  /** Under a size limit, a header longer than `HEADER_LENGTH_LIMIT` is
      refused before any of it is taken, whatever payload follows. */
  lemma OversizedHeaderRejected<T, E, P>(
    cfg: NonConformantDeserializationConfig, caps: Capabilities<T, E, P>,
    h: SerializationHeader, tail: seq<Byte>)
    requires Bounded(caps) && HEADER_LENGTH_LIMIT < cfg.serializedSizeLimit
    requires |EncodeHeader(h)| > HEADER_LENGTH_LIMIT
    ensures cfg.Deserialized(caps, EncodeHeader(h) + tail) == ReadOutcome(Failure(HeaderDecode(SizeLimit)), 0)
  {
    HeaderCodecRoundTrips();
    DecodeLimitedOfEncoding(HeaderCodec(), h, tail, cfg.HeaderLengthLimit());
  }

  /** A versioned header is 34 bytes plus the type name, so under a size
      limit only names of at most 966 bytes can be written at all. */
  lemma VersionedHeaderFits<T, E, P>(cfg: SerializationConfig, caps: Capabilities<T, E, P>, obj: T)
    requires cfg.versioned.Versioned? && cfg.serializedSizeLimit != 0
    ensures |EncodeHeader(cfg.CreateHeader(caps.name))| == 34 + |caps.name|
    ensures |caps.name| > 966 ==> cfg.Serialized(caps, obj) == WriteOutcome(Fail(HeaderEncode(SizeLimit)), [])
  {
  }

  /** With validation on, a header that does not validate ends the read
      with the validation error, after the header's bytes. */
  lemma InvalidHeaderRejected<T, E, P>(
    cfg: NonConformantDeserializationConfig, caps: Capabilities<T, E, P>,
    h: SerializationHeader, tail: seq<Byte>)
    requires Bounded(caps) && !cfg.LimitTooSmall() && cfg.validateHeader
    requires cfg.serializedSizeLimit == 0 || |EncodeHeader(h)| <= HEADER_LENGTH_LIMIT
    requires Validate(h, caps.name).Fail?
    ensures cfg.Deserialized(caps, EncodeHeader(h) + tail) ==
      ReadOutcome(Failure(HeaderInvalid(Validate(h, caps.name).error)), |EncodeHeader(h)|)
  {
    DeserializedOfHeader(cfg, caps, h, tail);
  }

  /** Type identity is nominal: bytes written for one type are refused when
      read as a type of another name, even one with the very same codecs. */
  lemma ForeignTypeRejected<T, E, P>(
    wcfg: SerializationConfig, rcfg: NonConformantDeserializationConfig,
    written: Capabilities<T, E, P>, expected: Capabilities<T, E, P>, obj: T, rest: seq<Byte>)
    requires Bounded(expected) && !rcfg.LimitTooSmall() && rcfg.validateHeader
    requires rcfg.serializedSizeLimit == wcfg.serializedSizeLimit
    requires wcfg.Serialized(written, obj).result.Pass?
    requires written.name != expected.name
    ensures rcfg.Deserialized(expected, wcfg.Serialized(written, obj).written + rest) ==
      ReadOutcome(Failure(HeaderInvalid(NameMismatch(expected.name, written.name))),
                  |EncodeHeader(wcfg.CreateHeader(written.name))|)
  {
    var h := wcfg.CreateHeader(written.name);
    var payload := wcfg.PayloadEncoding(written, obj);
    ConcatAssoc(EncodeHeader(h), payload, rest);
    InvalidHeaderRejected(rcfg, expected, h, payload + rest);
  }

  /** Unversioned data written by another crate release is refused with the
      version it carries. */
  lemma StaleCrateVersionRejected<T, E, P>(
    cfg: NonConformantDeserializationConfig, caps: Capabilities<T, E, P>,
    crateVersion: Str, tail: seq<Byte>)
    requires Bounded(caps) && !cfg.LimitTooSmall() && cfg.validateHeader
    requires crateVersion != CRATE_VERSION
    requires cfg.serializedSizeLimit == 0 || |crateVersion| + |caps.name| <= 969
    ensures var h := NewUnversioned(caps.name).(versioningMode := Unversioned(crateVersion));
      cfg.Deserialized(caps, EncodeHeader(h) + tail) ==
        ReadOutcome(Failure(HeaderInvalid(CrateVersionMismatch(crateVersion, caps.name))), |EncodeHeader(h)|)
  {
    var h := NewUnversioned(caps.name).(versioningMode := Unversioned(crateVersion));
    InvalidHeaderRejected(cfg, caps, h, tail);
  }

  /** With validation off, nothing in the header but its variant matters:
      the payload is read in the form it names, whatever type name and
      versions it carries. */
  lemma UnvalidatedHeaderOnlyPicksForm<T, E, P>(
    cfg: NonConformantDeserializationConfig, caps: Capabilities<T, E, P>,
    h1: SerializationHeader, h2: SerializationHeader, tail: seq<Byte>)
    requires Bounded(caps) && !cfg.LimitTooSmall() && !cfg.validateHeader
    requires cfg.serializedSizeLimit == 0 ||
      (|EncodeHeader(h1)| <= HEADER_LENGTH_LIMIT && |EncodeHeader(h2)| <= HEADER_LENGTH_LIMIT)
    requires h1.versioningMode.Versioned? == h2.versioningMode.Versioned?
    ensures cfg.Deserialized(caps, EncodeHeader(h1) + tail).result ==
            cfg.Deserialized(caps, EncodeHeader(h2) + tail).result
    ensures cfg.Deserialized(caps, EncodeHeader(h1) + tail).consumed - |EncodeHeader(h1)| ==
            cfg.Deserialized(caps, EncodeHeader(h2) + tail).consumed - |EncodeHeader(h2)|
  {
    DeserializedOfHeader(cfg, caps, h1, tail);
    DeserializedOfHeader(cfg, caps, h2, tail);
  }

  /** Header validation can only turn a read into a `HeaderInvalid` failure:
      whatever it lets through reads exactly as it would without it. */
  lemma ValidationOnlyRejects<T, E, P>(
    cfg: NonConformantDeserializationConfig, caps: Capabilities<T, E, P>, input: seq<Byte>)
    requires Bounded(caps)
    ensures var on := cfg.(validateHeader := true).Deserialized(caps, input);
      var off := cfg.(validateHeader := false).Deserialized(caps, input);
      on == off || (on.result.Failure? && on.result.error.HeaderInvalid?)
  {
    var on, off := cfg.(validateHeader := true), cfg.(validateHeader := false);
    if !cfg.LimitTooSmall() {
      var header := DecodeLimited(HeaderCodec(), input, cfg.HeaderLengthLimit());
      if header.Success? && Validate(header.value.value, caps.name).Pass? {
        DeserializedPastHeader(on, caps, input, header.value.value, header.value.used);
        DeserializedPastHeader(off, caps, input, header.value.value, header.value.used);
      }
    }
  }

  /** Switching the conformance check off and on again gives the same
      config, in either order. */
  lemma ConformanceTransitionsInverse(r: DeserializationConfig, n: NonConformantDeserializationConfig)
    ensures r.DisableConformance().EnableConformance() == r
    ensures n.EnableConformance().DisableConformance() == n
  {
  }
}
