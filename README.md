# Safe serialization of TFHE-rs objects

This project models the header-and-budget protocol that TFHE-rs uses to write its
objects to a byte stream and to read them back safely (`tfhe/src/safe_serialization.rs`).
It then proves properties of that model.

Each object is written as two bincode records:

- a **header**, made of the header-layout version `"0.5"`, a versioning mode and the type's
  name (`Named::NAME`). The mode is either `Versioned` with the versioning-scheme version
  `"0.1"`, or `Unversioned` with the crate's `"<major>.<minor>"`.
- a **payload**: the object's versioned envelope (`Versionize`), or, when versioning is
  switched off, the object's own encoding.

The writer (`SerializationConfig`) caps the header at `HEADER_LENGTH_LIMIT` (1000 bytes) and
the payload at the whole `serialized_size_limit`. A limit of 0 means "no size check".

The reader comes in two flavours:

- `NonConformantDeserializationConfig` works as a pipeline:
  1. it rejects a nonzero limit of at most 1000;
  2. it reads the header under the 1000-byte cap;
  3. it optionally validates the header against the expected type;
  4. it reads the payload in the form the header names, under `limit - 1000`.
- `DeserializationConfig` adds a last check of the decoded object against a parameter set
  (`ParameterSetConformant::is_conformant`).

The three public wrappers `safe_serialize`, `safe_deserialize` and
`safe_deserialize_conformant` are shorthands for builder chains.

Layout:

- `wrappers.dfy`: `Option`, `Result` and `Outcome` (a `Result<(), E>`).
- `bincode.dfy`: the part of bincode's fixint format the header uses, namely little-endian
  integers and u64-length-prefixed strings. It also holds a `Codec` record for any other type
  bincode serializes, the laws such a codec is assumed to obey, and bincode's `with_limit`
  size check for one record.
- `streams.dfy`: the caller's writer and reader, as classes. The writer appends bytes. The
  reader advances a cursor.
- `header.dfy`: the constants, the versioning mode, the header, `validate`, and a concrete
  bincode encoding of the header with its round trip proved.
- `safe_serialization.dfy`: the three configs as datatypes with their builders. Each read and
  write operation has two forms: a function stating what it does (`Serialized`,
  `Deserialized`), and an imperative method over the streams (`SerializeInto`,
  `DeserializeFrom`) proved equal to that function. The file also holds the three wrappers.
- `properties.dfy`: end-to-end properties, listed below:
  - the round trip;
  - the conformant round trip;
  - the gap between the writer's and the reader's payload limits;
  - rejection of oversized headers, foreign types and stale crate versions;
  - what switching validation off changes.

`Named::NAME`, the payload codecs, `versionize`, `unversionize` and `is_conformant` belong to
the object's type. They are gathered in a `Capabilities` value. The round-trip lemmas assume
only the `Lawful` predicate about them:

- each codec reads back what it writes;
- each decoder never claims more bytes than it was given;
- un-versioning a fresh envelope gives the object back.

Two behaviours of the code differ from what its doc comments say:

- The doc comment of `DeserializationConfig::new` (lines 318-320) says that the serialization
  version is checked. `validate` (lines 107-140) never compares `header_version`: only the
  mode's version and the type name are checked (`Header.ValidateIgnoresHeaderVersion`).
- The doc comment of `DeserializationConfig::new` (lines 321-322) says that the reader's
  `serialized_size_limit` excludes the version and name serialization. Yet the reader rejects
  any nonzero limit of at most 1000 (lines 263-268), and it allows the payload only
  `limit - 1000` (lines 286 and 293). So a payload the writer accepts under the same limit can
  be refused (`Properties.WriterReaderBudgetGap`). `DeserializationConfig::new` itself
  (lines 327-332) accepts any limit: the rejection only happens in `deserialize_from`.

## Model

| member | source | states |
|---|---|---|
| Bincode.DecodeEncodeLE | tfhe/src/safe_serialization.rs:215-217 | a fixint little-endian integer decodes to the number that was encoded |
| Bincode.EncodeDecodeLE | tfhe/src/safe_serialization.rs:215-217 | the converse: every byte string is the fixint encoding of the number it decodes to, so an integer has exactly one encoding |
| Bincode.EncodeStr | tfhe/src/safe_serialization.rs:81-85 | a string field takes its 8-byte length prefix plus its bytes |
| Bincode.DecodeStr | tfhe/src/safe_serialization.rs:81-85 | a string is read iff its 8-byte length prefix is at most the bytes that follow; the decoded string is then exactly that many bytes after the prefix, and no more bytes are taken |
| Bincode.StrRoundTrip | tfhe/src/safe_serialization.rs:81-85 | a string field is read back whatever follows it, taking exactly its own bytes |
| Bincode.DecodeStrCanonical | tfhe/src/safe_serialization.rs:81-85 | the bytes a string read takes are exactly the encoding of the string it returns |
| Bincode.EncodeLimited | tfhe/src/safe_serialization.rs:220-222 | a record is written iff the limit is 0 or its encoding fits the limit; otherwise the result is a size-limit error |
| Bincode.DecodeLimited | tfhe/src/safe_serialization.rs:274-277 | a record is read iff it decodes and the limit is 0 or it took at most the limit; undecodable bytes give an encoding error |
| Bincode.DecodeLimitedOfEncoding | tfhe/src/safe_serialization.rs:274-277 | for a lawful codec, an encoding within the limit is read back, and one over the limit gives a size-limit error |
| Streams.ByteSink.Write | tfhe/src/safe_serialization.rs:220-230 | writing a record appends exactly its bytes to the writer |
| Streams.ByteSource.Deserialize | tfhe/src/safe_serialization.rs:274-277 | a successful read returns the decoded value and moves the cursor past exactly the bytes it took; a failed read returns bincode's error and leaves the cursor where it was |
| Header.VersionedMode | tfhe/src/safe_serialization.rs:57-61 | the versioned mode carries the current versioning-scheme version |
| Header.UnversionedMode | tfhe/src/safe_serialization.rs:63-67 | the unversioned mode carries this crate's version |
| Header.NewVersioned | tfhe/src/safe_serialization.rs:89-95 | the header has layout version "0.5", the type's name and the current versioned mode, and it validates for that type |
| Header.NewUnversioned | tfhe/src/safe_serialization.rs:98-104 | the header has layout version "0.5", the type's name and the current unversioned mode, and it validates for that type |
| Header.Validate | tfhe/src/safe_serialization.rs:107-140 | validation passes iff the mode's version is current and the name is the expected one; otherwise it reports the mode's version mismatch first, then the name mismatch |
| Header.ValidateIgnoresHeaderVersion | tfhe/src/safe_serialization.rs:107-140 | the header-layout version has no effect on validation |
| Header.VariantIndex | tfhe/src/safe_serialization.rs:34-45 | the mode's variant index fits bincode's u32 tag |
| Header.EncodeMode | tfhe/src/safe_serialization.rs:34-45 | an encoded mode is a 4-byte tag plus its version string |
| Header.ModeRoundTrip | tfhe/src/safe_serialization.rs:34-45 | an encoded mode decodes to the same variant and version, taking exactly its bytes |
| Header.DecodeModeCanonical | tfhe/src/safe_serialization.rs:34-45 | the bytes a mode read takes are exactly the encoding of the mode it returns, so a variant index other than 0 (Versioned) or 1 (Unversioned) is refused |
| Header.EncodeHeader | tfhe/src/safe_serialization.rs:81-85 | an encoded header takes 28 bytes plus its three strings |
| Header.DecodeHeader | tfhe/src/safe_serialization.rs:81-85 | a decoded header never takes more bytes than it is given |
| Header.HeaderRoundTrip | tfhe/src/safe_serialization.rs:81-85 | an encoded header decodes to the same header, taking exactly its bytes, whatever follows it |
| Header.DecodeHeaderCanonical | tfhe/src/safe_serialization.rs:81-85 | the converse: whatever header is read from untrusted bytes, the bytes taken are exactly that header's encoding |
| Header.HeaderCodecRoundTrips | tfhe/src/safe_serialization.rs:81-85 | the header codec obeys the round-trip law |
| Header.HeaderCodecReadsWithin | tfhe/src/safe_serialization.rs:81-85 | the header decoder never claims bytes that are not there |
| SafeSerialization.HeaderLengthLimitFor | tfhe/src/safe_serialization.rs:200-206 | the header limit is 0 exactly when the size limit is 0, and 1000 otherwise |
| SafeSerialization.SerializationConfig.New | tfhe/src/safe_serialization.rs:156-161 | the config is versioned with the current version and keeps the given limit |
| SafeSerialization.SerializationConfig.NewWithUnlimitedSize | tfhe/src/safe_serialization.rs:164-169 | the config is versioned and has no size limit |
| SafeSerialization.SerializationConfig.DisableSizeLimit | tfhe/src/safe_serialization.rs:172-177 | only the limit changes, to 0 |
| SafeSerialization.SerializationConfig.DisableVersioning | tfhe/src/safe_serialization.rs:180-185 | only the mode changes, to the current unversioned mode |
| SafeSerialization.SerializationConfig.CreateHeader | tfhe/src/safe_serialization.rs:188-197 | the header has layout version "0.5", the type's name and a current mode of the config's variant, and it validates for that type |
| SafeSerialization.SerializationConfig.HeaderLengthLimit | tfhe/src/safe_serialization.rs:200-206 | the writer's header limit is 0 exactly when the size limit is 0, and 1000 otherwise |
| SafeSerialization.SerializationConfig.EncodePayload | tfhe/src/safe_serialization.rs:224-231 | the payload is written iff the limit is 0 or its encoding (the envelope when versioned, the object when not) fits the whole limit |
| SafeSerialization.SerializationConfig.Serialized | tfhe/src/safe_serialization.rs:210-234 | a write succeeds iff there is no limit, or both the header fits 1000 bytes and the payload fits the limit; a success writes the header then the payload; a header over 1000 bytes (under a nonzero limit) fails as a header error with nothing written; any other failure is a payload error that leaves exactly the header written |
| SafeSerialization.SerializationConfig.SerializeInto | tfhe/src/safe_serialization.rs:210-234 | the method returns the outcome `Serialized` states and appends exactly the bytes it states to the writer |
| SafeSerialization.SerializedPastHeader | tfhe/src/safe_serialization.rs:219-231 | once the header is written, the write's outcome is the payload record's |
| SafeSerialization.NonConformantDeserializationConfig.EnableConformance | tfhe/src/safe_serialization.rs:300-305 | the conformant config keeps both fields |
| SafeSerialization.NonConformantDeserializationConfig.HeaderLengthLimit | tfhe/src/safe_serialization.rs:307-313 | the reader's header limit is 0 exactly when the size limit is 0, and 1000 otherwise, as for the writer |
| SafeSerialization.NonConformantDeserializationConfig.PayloadBudget | tfhe/src/safe_serialization.rs:263-293 | once small limits are rejected, `limit - header_length_limit()` cannot underflow; it is 0 (no limit) only when the limit is 0, and otherwise it is exactly the limit minus 1000 |
| SafeSerialization.NonConformantDeserializationConfig.Deserialized | tfhe/src/safe_serialization.rs:259-297 | a nonzero limit of at most 1000 fails before any byte is read; a read never takes more bytes than there are, nor more than a nonzero limit; a success implies the header decoded and, when validation is on, validated |
| SafeSerialization.NonConformantDeserializationConfig.DeserializeFrom | tfhe/src/safe_serialization.rs:259-297 | the method returns the result `Deserialized` states and advances the reader by the bytes it states |
| SafeSerialization.DeserializedPastHeader | tfhe/src/safe_serialization.rs:279-296 | once a header is read and accepted, the read's outcome is that of the payload record after it |
| SafeSerialization.ReadPayload | tfhe/src/safe_serialization.rs:283-296 | a payload read never takes more bytes than there are, nor more than a nonzero budget; a versioned read succeeds iff the envelope decodes and un-versions, returning the un-versioned object; an envelope that decodes but does not un-version fails as a reconstruction error after taking the envelope's bytes; an unversioned read succeeds iff the object decodes, returning it; a failed decode takes no bytes |
| SafeSerialization.ReadPayloadFrom | tfhe/src/safe_serialization.rs:283-296 | the method returns the result `ReadPayload` states and advances the reader by the bytes it states |
| SafeSerialization.DeserializationConfig.New | tfhe/src/safe_serialization.rs:327-332 | the config keeps the given limit, whatever it is, and validates headers |
| SafeSerialization.DeserializationConfig.NewWithUnlimitedSize | tfhe/src/safe_serialization.rs:335-340 | the config has no size limit and validates headers |
| SafeSerialization.DeserializationConfig.DisableSizeLimit | tfhe/src/safe_serialization.rs:343-348 | only the limit changes, to 0 |
| SafeSerialization.DeserializationConfig.DisableHeaderValidation | tfhe/src/safe_serialization.rs:353-358 | only header validation changes, to off |
| SafeSerialization.DeserializationConfig.DisableConformance | tfhe/src/safe_serialization.rs:361-366 | both fields are kept, and enabling conformance again gives the same config |
| SafeSerialization.DeserializationConfig.Deserialized | tfhe/src/safe_serialization.rs:370-384 | the conformant read takes the same bytes as the non-conformant one; it succeeds iff that read succeeds with a conformant object, which it then returns unchanged; it passes that read's errors on, and otherwise fails with `NotConformant` |
| SafeSerialization.DeserializationConfig.DeserializeFrom | tfhe/src/safe_serialization.rs:370-384 | the method returns the result `Deserialized` states and advances the reader by the bytes it states |
| SafeSerialization.SafeSerialize | tfhe/src/safe_serialization.rs:389-395 | it is `SerializationConfig::new(limit).serialize_into` |
| SafeSerialization.SafeDeserialize | tfhe/src/safe_serialization.rs:400-407 | it is `DeserializationConfig::new(limit).disable_conformance().deserialize_from` |
| SafeSerialization.SafeDeserializeConformant | tfhe/src/safe_serialization.rs:412-420 | it is `DeserializationConfig::new(limit).deserialize_from` |
| Properties.ReadHeader | tfhe/src/safe_serialization.rs:274-277 | a header within the reader's header limit is read back whole |
| Properties.DeserializedOfHeader | tfhe/src/safe_serialization.rs:274-296 | after an encoded header, a header that validation rejects ends the read with its error; otherwise the payload is read in the form the header's mode names, under the payload budget |
| Properties.ReadPayloadOfEncoding | tfhe/src/safe_serialization.rs:224-231 | a written payload is read back as the object within the reader's budget, and refused with a size-limit error over it |
| Properties.RoundTrip | tfhe/src/safe_serialization.rs:210-297 | a writer and a reader with the same limit, validating or not, give the object back and take exactly the written bytes, provided the payload fits `limit - 1000` |
| Properties.ConformantRoundTrip | tfhe/src/safe_serialization.rs:370-384 | a conformant read of written bytes succeeds iff the object conforms to the parameter set, and fails with `NotConformant` otherwise (the behaviour the module's tests check) |
| Properties.SafeRoundTrip | tfhe/src/safe_serialization.rs:389-407 | `safe_deserialize` gives back what `safe_serialize` wrote with the same limit, provided the versioned envelope fits `limit - 1000` (or the limit is 0) |
| Properties.WriterReaderBudgetGap | tfhe/src/safe_serialization.rs:226-293 | a payload longer than `limit - 1000` but within `limit` is written successfully, then refused by a reader with the same limit |
| Properties.OversizedHeaderRejected | tfhe/src/safe_serialization.rs:70-74 | under a size limit, a header over 1000 bytes is refused before any byte is taken, whatever follows it |
| Properties.VersionedHeaderFits | tfhe/src/safe_serialization.rs:219-222 | a versioned header is 34 bytes plus the name, so with a limit set a type name over 966 bytes cannot be written at all |
| Properties.InvalidHeaderRejected | tfhe/src/safe_serialization.rs:279-281 | with validation on, a header that fails validation ends the read with that error |
| Properties.ForeignTypeRejected | tfhe/src/safe_serialization.rs:131-137 | bytes written for one type name are refused with a name mismatch when read as another type, whatever the codecs |
| Properties.StaleCrateVersionRejected | tfhe/src/safe_serialization.rs:120-127 | unversioned data from another crate release is refused, naming the version it carries |
| Properties.UnvalidatedHeaderOnlyPicksForm | tfhe/src/safe_serialization.rs:279-296 | with validation off, only the header's variant affects the result: names and versions are ignored |
| Properties.ValidationOnlyRejects | tfhe/src/safe_serialization.rs:279-281 | validation can only turn a read into a `HeaderInvalid` failure; any read it lets through is the same as without it |
| Properties.ConformanceTransitionsInverse | tfhe/src/safe_serialization.rs:300-305 | disabling and re-enabling conformance are inverse, in either order |

## Left out

- Errors of the writer and the reader themselves (`std::io` failures): the streams in the model never fail.
- Error messages: every failure is an error kind (`SafeSerialization.Error`) instead of the source's formatted `String` or `bincode::Error`.
- The `Display` implementation of the versioning mode (lines 47-54): it is only used in messages.
- UTF-8: a decoded string field is any byte sequence. Bincode would also reject bytes that are not valid UTF-8, as an encoding error.
- How much of the stream a failed read consumes. The model says that a record which fails to decode takes none of its bytes. Bincode stops wherever it detected the error.
- The object's own encodings, `Versionize`, `Unversionize` and `ParameterSetConformant::is_conformant`. They belong to the object's type and are parameters of the model (`Capabilities`). The round-trip properties assume the `Lawful` predicate about them instead of proving it.
- Bincode's own internals. The model keeps the fixint layout of the header and the `with_limit` check on one record, with a limit of 0 meaning that no size check is made, as the source's documentation of the size limit says. It also checks a record's size before writing any of it.
- `CRATE_VERSION` is an uninterpreted constant. Its construction from the `CARGO_PKG_VERSION_*` variables at build time is not modelled.
- The key generation, encryption and decryption in the module's tests. Only the tests' protocol-level claims are modelled (`Properties.ConformantRoundTrip`).
- Bytes as `Bincode.Byte`, an integer subset type, rather than `bv8`. No bitwise operation is needed.
