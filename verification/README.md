# yauzl-deflate64 bridge, modelled in Dafny

`yauzl-deflate64` patches the `yauzl` ZIP reader so that entries compressed
with Deflate64 (method 9), which yauzl cannot inflate, are decoded by the
external Info-ZIP `funzip` program. For such an entry the patched
`openReadStream` asks yauzl for the raw compressed bytes, spawns `funzip`,
writes a synthesized single-entry ZIP local file header to its stdin, pipes
the raw bytes after it and hands `funzip`'s stdout to the caller, with a
`destroy` method that, on its first call only, unpipes the source from that
stdout stream and destroys the source.

The model covers the logic of `lib/patch.js`:

- `little_endian.dfy` (`LittleEndian`): unsigned little-endian fields, as
  `Buffer.writeUInt16LE`/`writeUInt32LE` write them, with their decoder.
- `header_synthesis.dfy` (`HeaderSynthesis`): the `Entry` metadata, the
  local file header built in `makeFunzipStream` (PKWARE APPNOTE.TXT
  section 4.3.7) with its Zip64 extended information extra field (section
  4.5.3), the `flags & ~8` that clears the data-descriptor bit (section
  4.4.4), and `writeUInt64LE`'s split into two 32-bit words.
- `header_reader.dfy` (`HeaderReader`): an independent reader of a local
  file header and its extra fields, following sections 4.3.7, 4.4.8, 4.4.9,
  4.5.1 and 4.5.3 of APPNOTE.TXT. It stands for what `funzip` has to
  recover; the round-trip lemmas connect the writer to it.
- `js_values.dfy` (`JsValues`): the JavaScript value semantics the options
  code relies on: truthiness, `x == null`, `x == true`, `x + ''` and
  string-to-number conversion, over safe integers.
- `options.dfy` (`Options`): conformance of the `funzip` and `funzipPath`
  options, and the method constants.
- `routing.dfy` (`Routing`): the decision whether a read is bridged and the
  options forwarded to yauzl's own `openReadStream`.
- `teardown.dfy` (`Teardown`): the one-shot `destroyed` guard of `destroy`,
  and which of `funzip`'s ends the source stays piped to.
- `wrappers.dfy` (`Wrappers`): `Option`.

`lib/patch.js` has no join of source end, process exit and output end,
never kills `funzip` on teardown, and never writes to the entry; its only
lifecycle state is the `destroyed` flag.

## Model

| member | source | states |
|---|---|---|
| LittleEndian.DecodeEncode | lib/patch.js:143-154 | a value written as an n-byte little-endian field reads back as the same value |
| LittleEndian.EncodeDecode | lib/patch.js:143-154 | the little-endian encoding is onto: any n bytes are the encoding of the value they read as |
| LittleEndian.DecodeAppend | lib/patch.js:176-177 | a field written as a low part followed by a high part reads as low + 2^(8·width of low) · high |
| HeaderSynthesis.ClearDataDescriptorBit | lib/patch.js:145 | the flags written have bit 3 clear, bits 0-2 and every bit from 4 up unchanged, and differ from the input by 0 or 8 |
| HeaderSynthesis.SplitWords | lib/patch.js:172-174 | the low and high words are each below 2^32 and low + high · 2^32 equals the size |
| HeaderSynthesis.WriteUInt64LE | lib/patch.js:172-178 | the two 32-bit words together are 8 bytes, are the 8-byte little-endian encoding of the size, and read back as it |
| HeaderSynthesis.Zip64FieldLayout | lib/patch.js:155-159 | the Zip64 field holds tag 0x0001, data length 16, then the uncompressed size, then the compressed size |
| HeaderSynthesis.HeaderLayout | lib/patch.js:142-160 | for either zip64 choice: the length is 31 plus the extra field length written at offset 28; every field sits at its APPNOTE offset with the copied or fixed value; the Zip64 sizes sit at 35 and 43 |
| HeaderSynthesis.AsWrittenLayout | lib/patch.js:139-160 | the extra field length is 20 exactly when a size is at least 2^32, otherwise 0; the signature, version, cleared flags, method, time, date and CRC-32 are at offsets 0-14, name length 1 at 26 and name byte 65 at 30; the 32-bit sizes are both 0xFFFFFFFF in the Zip64 case and otherwise the exact sizes |
| HeaderReader.FixedFieldsBeforePayload | lib/patch.js:162-166 | once the payload is written after the header, the stream's first bytes still read as the header's fields |
| HeaderReader.Zip64FieldFound | lib/patch.js:155-159 | a reader looking up tag 0x0001 in the extra field finds the Zip64 field and recovers the compressed and uncompressed sizes |
| HeaderReader.ReadBackFor | lib/patch.js:139-166 | a header with either zip64 choice, followed by any payload, is read back field for field exactly when it carries the Zip64 field or neither size is 0xFFFFFFFF |
| HeaderReader.AsWrittenReadBack | lib/patch.js:139-166 | the header as the source writes it is read back, with the data starting right after it, exactly when a size reaches 2^32 or neither size is 0xFFFFFFFF |
| HeaderReader.SentinelSizeUnreadable | lib/patch.js:139-151 | an entry of exactly 0xFFFFFFFF uncompressed bytes (and under 2^32 compressed) gets no Zip64 field, so its header cannot be read back whatever follows it, while the sentinel-safe header can |
| HeaderReader.ReadBack | lib/patch.js:139-166 | the header with the sentinel-safe zip64 choice is always read back, whatever payload follows |
| Options.ConformFunzipAsWrittenStable | lib/patch.js:36-43 | conforming the conformed list again gives the same list, for every option value |
| Options.LooselyTrueFunzip | lib/patch.js:39-40 | `1`, `"1"` and `[1]` are loosely equal to `true` and become `[9]` |
| Options.ConformFunzipAsWritten | lib/patch.js:36-43 | a method is enabled exactly when the option is truthy and loosely equal to `true` and the method is 9, or the option is not loosely `true` and is an array containing it or is that non-zero number; a non-array option yields at most one element |
| Options.Configure | lib/patch.js:36-51 | the stored `funzip` list enables exactly the methods the loose test selects, a falsy path is stored as "funzip" and a truthy string path is stored unchanged |
| Options.ConfigureCorrected | lib/patch.js:36-51 | with the strict `=== true` test, the stored list enables exactly the methods `true`, an array or a non-zero number name, and a falsy path is stored as "funzip" |
| Routing.LooselyTrueFunzipRouting | lib/patch.js:73-80 | with `funzip: 1`, conformed by the loose test of line 39, the code as written bridges a method-9 read and not a method-1 read, and the strict test does the opposite |
| Options.ConformFunzip | lib/patch.js:36-43 | a method is enabled exactly when the option is `true` and the method is 9, or the option is an array containing it, or the option is that non-zero number; a non-array option yields at most one element |
| Options.ConformAgreement | lib/patch.js:39-40 | the loose and the strict `true` test give the same list exactly when the value is `true` itself or not loosely equal to `true` |
| Options.ConformFunzipPath | lib/patch.js:44 | a falsy path becomes "funzip"; a string is kept; a number becomes a string that reads back as that number; a truthy non-array value never becomes "" |
| Options.ConformFunzipPathStable | lib/patch.js:44 | conforming a conformed path again keeps it exactly when it is not empty |
| Routing.PlanRead | lib/patch.js:62-83 | a read is bridged exactly when the method is in the list, `decompress` is null, undefined or truthy, and `start` and `end` are null or undefined; a bridged read forwards the same properties with `decompress` set to false; any other read forwards the options unchanged; missing options read as `{}` |
| Routing.ForwardedNotRebridged | lib/patch.js:73-83 | planning a read again with the forwarded options forwards the same options and does not bridge: the forwarded options are a fixed point |
| Routing.MoreMethodsMoreBridging | lib/patch.js:76 | adding methods to the list leaves every bridged read's plan unchanged |
| Routing.FunzipTrueBridgesDeflate64 | lib/patch.js:73-81 | with `funzip: true` and `decompress: true`, a Deflate64 entry is bridged with `decompress: false` forwarded, a Deflate entry is not |
| Teardown.DestroyIdempotent | lib/patch.js:101-107 | a second `destroy` changes nothing |
| Teardown.DestroyTimesConsistent | lib/patch.js:101-107 | any number of `destroy` calls keeps the flag and the effects on the source in step, and one call or more sets the flag |
| Teardown.DestroyRepeatedly | lib/patch.js:101-107 | from a fresh stream, any positive number of `destroy` calls unpipes the source from the returned stdout stream and destroys it exactly once, in that order, and the source stays piped into stdin, where line 166 put it; zero calls do nothing |

## Left out

- Spawning `funzip`, its `error`, `exit` and `stderr` handlers, and the stream I/O of `stdin.write` and `stream.pipe` (lib/patch.js:126-136, 162-169): process and stream I/O. The byte order they produce, the header followed by the payload, is modelled (`HeaderReader.FixedFieldsBeforePayload`). Line 133 emits the `Error` object as an event name rather than as an `'error'` event, so a non-zero exit code is not reported; no exit-code error path is modelled.
- Teardown reach (lib/patch.js:102-106, 166-169): the source is piped into `funzip`'s stdin, but `destroy` unpipes it from the returned stdout stream, so the unpipe detaches nothing (`Teardown.DestroyRepeatedly` states that the source stays piped into stdin). The assignment replaces stdout's own `destroy`, so stdout is never destroyed, and stdin is never ended. What `funzip` then does with an open stdin is process behaviour and is not modelled.
- Forwarding of source stream errors to the output stream (lib/patch.js:98): event plumbing.
- The `yauzl-clone` patching, the `ZipFile` fields that store the conformed options, and the callback plumbing (lib/patch.js:27-33, 47-53, 58-61, 86-98, 113): runtime patching of a library that is not part of this model.
- The write at lib/patch.js:88 restores `decompress` on the forwarded copy after yauzl returns; it never touches the caller's object, and the copy is not observed afterwards. With value semantics the caller's options cannot change.
- Aliasing: `funzip = COMPRESS_ALL` shares one array between all `ZipFile`s; the model has value semantics and cannot express later mutation of that array.
- lib/index.js (clone and patch yauzl, no logic of its own), foo.js (a scratch script) and test/all.test.js (integration tests that need the `funzip` binary; their CRC and length errors come from `funzip`).
- JavaScript numbers are modelled as safe integers: NaN, Infinity, fractions and -0 are not values of `JsValue`, and string-to-number conversion recognises only an optionally signed run of decimal digits (fraction, exponent, hexadecimal, octal, binary and "Infinity" forms read as NaN). Objects, functions and symbols are not values of `JsValue`.
- Routing.PlanRead: an options argument that is truthy but not a plain object is not modelled; `None` stands for both a missing and a falsy options argument.
- Buffer range errors: the 16-bit and 32-bit fields must fit their widths and sizes must be below 2^64 (`WellFormed`); `writeUInt16LE`/`writeUInt32LE` would throw otherwise, and JavaScript loses precision above 2^53, which is not modelled.

## Findings

| source | as written | input that shows it | evidently intended | confidence | as-written member | corrected member |
|---|---|---|---|---|---|---|
| lib/patch.js:139 | Zip64 is chosen when a size is `>= FOUR_GIB` (2^32) | an entry whose uncompressed size is exactly 4294967295: its 32-bit field holds 0xFFFFFFFF, the value APPNOTE.TXT sections 4.4.8-4.4.9 reserve to mean "see the Zip64 field", and no Zip64 field is written | choose Zip64 when a size is `>= 0xFFFFFFFF`, so the sentinel never stands for itself | medium; not executed | HeaderReader.SentinelSizeUnreadable | HeaderReader.ReadBack |
| lib/patch.js:39 | `funzip == true` is loose equality | `funzip: [1]` (also `1` or `"1"`) enables `[9]` instead of method 1 | `funzip === true`, so only `true` itself selects `COMPRESS_ALL` | low; not executed | Options.LooselyTrueFunzip | Options.ConformFunzip |

`HeaderSynthesis.LocalHeaderAsWritten`, `Options.ConformFunzipAsWritten` and
`Options.Configure` model the code as written; `HeaderSynthesis.LocalHeader`,
`Options.ConformFunzip` and `Options.ConfigureCorrected` are the corrected
definitions. `Routing.LooselyTrueFunzipRouting` shows the two configurations
routing `funzip: 1` differently.
