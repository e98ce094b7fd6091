/**
 * Synthesis of the single-entry ZIP local file header (PKWARE APPNOTE.TXT
 * section 4.3.7) that the Deflate64 bridge writes to the external `funzip`
 * process ahead of an entry's raw compressed bytes.
 */
module HeaderSynthesis {
  import opened LittleEndian

  const FOUR_GIB: nat := 0x1_0000_0000
  const TWO_POW_64: nat := 0x1_0000_0000_0000_0000
  const LFH_LENGTH: nat := 30
  const LFH_SIGNATURE: nat := 0x04034b50
  /** Bit 3 of the general purpose flags: sizes follow the data in a data descriptor (section 4.4.4). */
  const DATA_DESCRIPTOR_BIT: nat := 8
  /** The all-ones 32-bit size that points a reader at the Zip64 field (sections 4.4.8 and 4.4.9). */
  const SIZE_SENTINEL: nat := 0xFFFF_FFFF
  /** The placeholder file name, the single byte 'A'. */
  const FILE_NAME_BYTE: uint8 := 65
  /** Zip64 extended information extra field (section 4.5.3): tag, data length, whole field length. */
  const ZIP64_TAG: nat := 0x0001
  const ZIP64_DATA_LENGTH: nat := 16
  const ZIP64_FIELD_LENGTH: nat := 20

  /** The fields of a yauzl `Entry` that the header copies. */
  datatype Entry = Entry(
    versionNeededToExtract: nat,
    generalPurposeBitFlag: nat,
    compressionMethod: nat,
    lastModFileTime: nat,
    lastModFileDate: nat,
    crc32: nat,
    compressedSize: nat,
    uncompressedSize: nat)

  /** Every field fits the width `Buffer` is asked to write it at; sizes fit 64 bits. */
  predicate WellFormed(e: Entry) {
    && e.versionNeededToExtract < 0x1_0000
    && e.generalPurposeBitFlag < 0x1_0000
    && e.compressionMethod < 0x1_0000
    && e.lastModFileTime < 0x1_0000
    && e.lastModFileDate < 0x1_0000
    && e.crc32 < FOUR_GIB
    && e.compressedSize < TWO_POW_64
    && e.uncompressedSize < TWO_POW_64
  }

  /** Bit i of x. */
  function Bit(x: nat, i: nat): bool {
    (x / Pow2(i)) % 2 == 1
  }

  function Pow2(i: nat): (p: nat)
    ensures p > 0
  {
    if i == 0 then 1 else 2 * Pow2(i - 1)
  }

  /**
   * `flags & ~8`: bit 3 is cleared, the three bits below it and every bit
   * above it are kept.
   */
  function ClearDataDescriptorBit(flags: nat): (r: nat)
    requires flags < 0x1_0000
    ensures r < 0x1_0000
    ensures !Bit(r, 3)
    ensures r % 8 == flags % 8
    ensures r / 16 == flags / 16
    ensures r == flags || r + DATA_DESCRIPTOR_BIT == flags
  {
    flags / 16 * 16 + flags % 8
  }

  /** `writeUInt64LE`'s split of a size into a low and a high 32-bit word. */
  function SplitWords(num: nat): (words: (nat, nat))
    requires num < TWO_POW_64
    ensures words.0 < FOUR_GIB && words.1 < FOUR_GIB
    ensures words.0 + words.1 * FOUR_GIB == num
  {
    var lower := num % FOUR_GIB;
    var upper := (num - lower) / FOUR_GIB;
    (lower, upper)
  }

  /**
   * `writeUInt64LE`: the low word then the high word, each as 32-bit
   * little-endian; together they are the 8-byte little-endian encoding of
   * `num` and read back as it.
   */
  function WriteUInt64LE(num: nat): (r: seq<uint8>)
    requires num < TWO_POW_64
    ensures |r| == 8
    ensures Decode(r) == num
    ensures r == Encode(num, 8)
  {
    var words := SplitWords(num);
    var low, high := Encode(words.0, 4), Encode(words.1, 4);
    DecodeAppend(low, high);
    DecodeEncode(words.0, 4);
    DecodeEncode(words.1, 4);
    EncodeDecode(low + high);
    low + high
  }

  /** The zip64 decision as the source makes it: a size does not fit in 32 bits. */
  predicate NeedsZip64AsWritten(e: Entry) {
    e.compressedSize >= FOUR_GIB || e.uncompressedSize >= FOUR_GIB
  }

  /**
   * The zip64 decision that keeps the 32-bit fields unambiguous: a size that
   * is itself the sentinel must also move to the Zip64 field.
   */
  predicate NeedsZip64(e: Entry) {
    e.compressedSize >= SIZE_SENTINEL || e.uncompressedSize >= SIZE_SENTINEL
  }

  /** The header may be written with the given zip64 choice. */
  predicate Fits(e: Entry, zip64: bool) {
    WellFormed(e) && (!zip64 ==> e.compressedSize < FOUR_GIB && e.uncompressedSize < FOUR_GIB)
  }

  /** The 20-byte Zip64 field: tag, data length 16, uncompressed size, compressed size. */
  function Zip64Field(e: Entry): (r: seq<uint8>)
    requires WellFormed(e)
    ensures |r| == ZIP64_FIELD_LENGTH
  {
    Encode(ZIP64_TAG, 2) + Encode(ZIP64_DATA_LENGTH, 2)
    + WriteUInt64LE(e.uncompressedSize) + WriteUInt64LE(e.compressedSize)
  }

  /** A 32-bit size field: the sentinel when the true size goes to the Zip64 field. */
  function Size32(size: nat, zip64: bool): (r: nat)
    requires !zip64 ==> size < FOUR_GIB
    ensures r < FOUR_GIB
  {
    if zip64 then SIZE_SENTINEL else size
  }

  /** Bytes 0..13: signature, version needed, flags, method, mod time, mod date. */
  function LeadingFields(e: Entry): (r: seq<uint8>)
    requires WellFormed(e)
    ensures |r| == 14
  {
    Encode(LFH_SIGNATURE, 4)
    + Encode(e.versionNeededToExtract, 2)
    + Encode(ClearDataDescriptorBit(e.generalPurposeBitFlag), 2)
    + Encode(e.compressionMethod, 2)
    + Encode(e.lastModFileTime, 2)
    + Encode(e.lastModFileDate, 2)
  }

  /** Bytes 14..29: CRC-32, the two 32-bit sizes, file name length, extra field length. */
  function TrailingFields(e: Entry, zip64: bool): (r: seq<uint8>)
    requires Fits(e, zip64)
    ensures |r| == 16
  {
    Encode(e.crc32, 4)
    + Encode(Size32(e.compressedSize, zip64), 4)
    + Encode(Size32(e.uncompressedSize, zip64), 4)
    + Encode(1, 2)
    + Encode(if zip64 then ZIP64_FIELD_LENGTH else 0, 2)
  }

  /** The 30 fixed bytes: leading then trailing fields. */
  function FixedFields(e: Entry, zip64: bool): (r: seq<uint8>)
    requires Fits(e, zip64)
    ensures |r| == LFH_LENGTH
  {
    LeadingFields(e) + TrailingFields(e, zip64)
  }

  /** The placeholder file name followed by the extra field, if any. */
  function NameAndExtraField(e: Entry, zip64: bool): (r: seq<uint8>)
    requires WellFormed(e)
    ensures |r| == 1 + (if zip64 then ZIP64_FIELD_LENGTH else 0)
  {
    [FILE_NAME_BYTE] + (if zip64 then Zip64Field(e) else [])
  }

  /** The local file header for `e`, with or without the Zip64 field. */
  function HeaderFor(e: Entry, zip64: bool): (h: seq<uint8>)
    requires Fits(e, zip64)
  {
    FixedFields(e, zip64) + NameAndExtraField(e, zip64)
  }

  /** The header exactly as `makeFunzipStream` builds it. */
  function LocalHeaderAsWritten(e: Entry): seq<uint8>
    requires WellFormed(e)
  {
    HeaderFor(e, NeedsZip64AsWritten(e))
  }

  /** The header with the sentinel-safe zip64 decision. */
  function LocalHeader(e: Entry): seq<uint8>
    requires WellFormed(e)
  {
    HeaderFor(e, NeedsZip64(e))
  }

  lemma LeadingFieldsLayout(e: Entry)
    requires WellFormed(e)
    ensures var a := LeadingFields(e);
      && ReadAt(a, 0, 4) == LFH_SIGNATURE
      && ReadAt(a, 4, 2) == e.versionNeededToExtract
      && ReadAt(a, 6, 2) == ClearDataDescriptorBit(e.generalPurposeBitFlag)
      && ReadAt(a, 8, 2) == e.compressionMethod
      && ReadAt(a, 10, 2) == e.lastModFileTime
      && ReadAt(a, 12, 2) == e.lastModFileDate
  {
    var p0 := Encode(LFH_SIGNATURE, 4);
    var p1 := Encode(e.versionNeededToExtract, 2);
    var p2 := Encode(ClearDataDescriptorBit(e.generalPurposeBitFlag), 2);
    var p3 := Encode(e.compressionMethod, 2);
    var p4 := Encode(e.lastModFileTime, 2);
    var p5 := Encode(e.lastModFileDate, 2);
    var x1 := p0 + p1;
    var x2 := x1 + p2;
    var x3 := x2 + p3;
    var x4 := x3 + p4;
    assert LeadingFields(e) == x4 + p5;
    ReadWhole(LFH_SIGNATURE, 4);
    ReadWhole(e.versionNeededToExtract, 2);
    ReadWhole(ClearDataDescriptorBit(e.generalPurposeBitFlag), 2);
    ReadWhole(e.compressionMethod, 2);
    ReadWhole(e.lastModFileTime, 2);
    ReadWhole(e.lastModFileDate, 2);
    // signature
    ReadPrefix(x4, p5, 0, 4); ReadPrefix(x3, p4, 0, 4); ReadPrefix(x2, p3, 0, 4);
    ReadPrefix(x1, p2, 0, 4); ReadPrefix(p0, p1, 0, 4);
    // version needed
    ReadPrefix(x4, p5, 4, 2); ReadPrefix(x3, p4, 4, 2); ReadPrefix(x2, p3, 4, 2);
    ReadPrefix(x1, p2, 4, 2); ReadSuffix(p0, p1, 0, 2);
    // flags
    ReadPrefix(x4, p5, 6, 2); ReadPrefix(x3, p4, 6, 2); ReadPrefix(x2, p3, 6, 2);
    ReadSuffix(x1, p2, 0, 2);
    // method
    ReadPrefix(x4, p5, 8, 2); ReadPrefix(x3, p4, 8, 2); ReadSuffix(x2, p3, 0, 2);
    // time
    ReadPrefix(x4, p5, 10, 2); ReadSuffix(x3, p4, 0, 2);
    // date
    ReadSuffix(x4, p5, 0, 2);
  }

  lemma TrailingFieldsLayout(e: Entry, zip64: bool)
    requires Fits(e, zip64)
    ensures var b := TrailingFields(e, zip64);
      && ReadAt(b, 0, 4) == e.crc32
      && ReadAt(b, 4, 4) == Size32(e.compressedSize, zip64)
      && ReadAt(b, 8, 4) == Size32(e.uncompressedSize, zip64)
      && ReadAt(b, 12, 2) == 1
      && ReadAt(b, 14, 2) == (if zip64 then ZIP64_FIELD_LENGTH else 0)
  {
    var extraFieldLength := if zip64 then ZIP64_FIELD_LENGTH else 0;
    var p0 := Encode(e.crc32, 4);
    var p1 := Encode(Size32(e.compressedSize, zip64), 4);
    var p2 := Encode(Size32(e.uncompressedSize, zip64), 4);
    var p3 := Encode(1, 2);
    var p4 := Encode(extraFieldLength, 2);
    var x1 := p0 + p1;
    var x2 := x1 + p2;
    var x3 := x2 + p3;
    assert TrailingFields(e, zip64) == x3 + p4;
    ReadWhole(e.crc32, 4);
    ReadWhole(Size32(e.compressedSize, zip64), 4);
    ReadWhole(Size32(e.uncompressedSize, zip64), 4);
    ReadWhole(1, 2);
    ReadWhole(extraFieldLength, 2);
    // CRC-32
    ReadPrefix(x3, p4, 0, 4); ReadPrefix(x2, p3, 0, 4); ReadPrefix(x1, p2, 0, 4);
    ReadPrefix(p0, p1, 0, 4);
    // compressed size
    ReadPrefix(x3, p4, 4, 4); ReadPrefix(x2, p3, 4, 4); ReadPrefix(x1, p2, 4, 4);
    ReadSuffix(p0, p1, 0, 4);
    // uncompressed size
    ReadPrefix(x3, p4, 8, 4); ReadPrefix(x2, p3, 8, 4); ReadSuffix(x1, p2, 0, 4);
    // file name length
    ReadPrefix(x3, p4, 12, 2); ReadSuffix(x2, p3, 0, 2);
    // extra field length
    ReadSuffix(x3, p4, 0, 2);
  }

  lemma FixedFieldsLayout(e: Entry, zip64: bool)
    requires Fits(e, zip64)
    ensures var f := FixedFields(e, zip64);
      && ReadAt(f, 0, 4) == LFH_SIGNATURE
      && ReadAt(f, 4, 2) == e.versionNeededToExtract
      && ReadAt(f, 6, 2) == ClearDataDescriptorBit(e.generalPurposeBitFlag)
      && ReadAt(f, 8, 2) == e.compressionMethod
      && ReadAt(f, 10, 2) == e.lastModFileTime
      && ReadAt(f, 12, 2) == e.lastModFileDate
      && ReadAt(f, 14, 4) == e.crc32
      && ReadAt(f, 18, 4) == Size32(e.compressedSize, zip64)
      && ReadAt(f, 22, 4) == Size32(e.uncompressedSize, zip64)
      && ReadAt(f, 26, 2) == 1
      && ReadAt(f, 28, 2) == (if zip64 then ZIP64_FIELD_LENGTH else 0)
  {
    var a, b := LeadingFields(e), TrailingFields(e, zip64);
    LeadingFieldsLayout(e);
    TrailingFieldsLayout(e, zip64);
    ReadPrefix(a, b, 0, 4);
    ReadPrefix(a, b, 4, 2);
    ReadPrefix(a, b, 6, 2);
    ReadPrefix(a, b, 8, 2);
    ReadPrefix(a, b, 10, 2);
    ReadPrefix(a, b, 12, 2);
    ReadSuffix(a, b, 0, 4);
    ReadSuffix(a, b, 4, 4);
    ReadSuffix(a, b, 8, 4);
    ReadSuffix(a, b, 12, 2);
    ReadSuffix(a, b, 14, 2);
  }

  /** Where each field of the header sits and what it holds. */
  lemma HeaderLayout(e: Entry, zip64: bool)
    requires Fits(e, zip64)
    ensures var h := HeaderFor(e, zip64);
      && |h| == LFH_LENGTH + 1 + (if zip64 then ZIP64_FIELD_LENGTH else 0)
      && ReadAt(h, 0, 4) == LFH_SIGNATURE
      && ReadAt(h, 4, 2) == e.versionNeededToExtract
      && ReadAt(h, 6, 2) == ClearDataDescriptorBit(e.generalPurposeBitFlag)
      && ReadAt(h, 8, 2) == e.compressionMethod
      && ReadAt(h, 10, 2) == e.lastModFileTime
      && ReadAt(h, 12, 2) == e.lastModFileDate
      && ReadAt(h, 14, 4) == e.crc32
      && ReadAt(h, 18, 4) == Size32(e.compressedSize, zip64)
      && ReadAt(h, 22, 4) == Size32(e.uncompressedSize, zip64)
      && ReadAt(h, 26, 2) == 1
      && ReadAt(h, 28, 2) == |h| - (LFH_LENGTH + 1)
      && h[LFH_LENGTH] == FILE_NAME_BYTE
      && h[LFH_LENGTH + 1..] == (if zip64 then Zip64Field(e) else [])
      && (zip64 ==>
            && ReadAt(h, 31, 2) == ZIP64_TAG
            && ReadAt(h, 33, 2) == ZIP64_DATA_LENGTH
            && ReadAt(h, 35, 8) == e.uncompressedSize
            && ReadAt(h, 43, 8) == e.compressedSize)
  {
    var f := FixedFields(e, zip64);
    var rest := NameAndExtraField(e, zip64);
    var h := HeaderFor(e, zip64);
    FixedFieldsLayout(e, zip64);
    ReadPrefix(f, rest, 0, 4);
    ReadPrefix(f, rest, 4, 2);
    ReadPrefix(f, rest, 6, 2);
    ReadPrefix(f, rest, 8, 2);
    ReadPrefix(f, rest, 10, 2);
    ReadPrefix(f, rest, 12, 2);
    ReadPrefix(f, rest, 14, 4);
    ReadPrefix(f, rest, 18, 4);
    ReadPrefix(f, rest, 22, 4);
    ReadPrefix(f, rest, 26, 2);
    ReadPrefix(f, rest, 28, 2);
    assert h[LFH_LENGTH] == rest[0];
    assert h[LFH_LENGTH + 1..] == rest[1..];
    if zip64 {
      var z := Zip64Field(e);
      Zip64FieldLayout(e);
      ReadSuffix([FILE_NAME_BYTE], z, 0, 2);
      ReadSuffix([FILE_NAME_BYTE], z, 2, 2);
      ReadSuffix([FILE_NAME_BYTE], z, 4, 8);
      ReadSuffix([FILE_NAME_BYTE], z, 12, 8);
      ReadSuffix(f, rest, 1, 2);
      ReadSuffix(f, rest, 3, 2);
      ReadSuffix(f, rest, 5, 8);
      ReadSuffix(f, rest, 13, 8);
    }
  }

  /** Where the Zip64 field keeps its tag, length and the two true sizes. */
  lemma Zip64FieldLayout(e: Entry)
    requires WellFormed(e)
    ensures var z := Zip64Field(e);
      && ReadAt(z, 0, 2) == ZIP64_TAG
      && ReadAt(z, 2, 2) == ZIP64_DATA_LENGTH
      && ReadAt(z, 4, 8) == e.uncompressedSize
      && ReadAt(z, 12, 8) == e.compressedSize
  {
    var p0 := Encode(ZIP64_TAG, 2);
    var p1 := Encode(ZIP64_DATA_LENGTH, 2);
    var p2 := WriteUInt64LE(e.uncompressedSize);
    var p3 := WriteUInt64LE(e.compressedSize);
    var x1 := p0 + p1;
    var x2 := x1 + p2;
    assert Zip64Field(e) == x2 + p3;
    ReadWhole(ZIP64_TAG, 2);
    ReadWhole(ZIP64_DATA_LENGTH, 2);
    ReadWhole(e.uncompressedSize, 8);
    ReadWhole(e.compressedSize, 8);
    // tag
    ReadPrefix(x2, p3, 0, 2); ReadPrefix(x1, p2, 0, 2); ReadPrefix(p0, p1, 0, 2);
    // data length
    ReadPrefix(x2, p3, 2, 2); ReadPrefix(x1, p2, 2, 2); ReadSuffix(p0, p1, 0, 2);
    // uncompressed size
    ReadPrefix(x2, p3, 4, 8); ReadSuffix(x1, p2, 0, 8);
    // compressed size
    ReadSuffix(x2, p3, 0, 8);
  }

  /**
   * The header `makeFunzipStream` writes: 31 bytes plus a 20-byte Zip64
   * field exactly when a size reaches 4 GiB, the extra field length at
   * offset 28 saying which; the metadata copied at fixed offsets; the 32-bit
   * sizes replaced by the sentinel in the Zip64 case and otherwise exact; and
   * the Zip64 field carrying the uncompressed then the compressed size.
   */
  lemma AsWrittenLayout(e: Entry)
    requires WellFormed(e)
    ensures var h := LocalHeaderAsWritten(e);
      var zip64 := e.compressedSize >= FOUR_GIB || e.uncompressedSize >= FOUR_GIB;
      && ReadAt(h, 28, 2) == (if zip64 then 20 else 0)
      && |h| == 31 + ReadAt(h, 28, 2)
      && ReadAt(h, 0, 4) == 0x04034b50
      && ReadAt(h, 4, 2) == e.versionNeededToExtract
      && ReadAt(h, 6, 2) == ClearDataDescriptorBit(e.generalPurposeBitFlag)
      && ReadAt(h, 8, 2) == e.compressionMethod
      && ReadAt(h, 10, 2) == e.lastModFileTime
      && ReadAt(h, 12, 2) == e.lastModFileDate
      && ReadAt(h, 14, 4) == e.crc32
      && ReadAt(h, 26, 2) == 1
      && h[30] == 65
      && (zip64 ==>
            && ReadAt(h, 18, 4) == 0xFFFF_FFFF
            && ReadAt(h, 22, 4) == 0xFFFF_FFFF
            && ReadAt(h, 31, 2) == 0x0001
            && ReadAt(h, 33, 2) == 16
            && ReadAt(h, 35, 8) == e.uncompressedSize
            && ReadAt(h, 43, 8) == e.compressedSize)
      && (!zip64 ==>
            && e.compressedSize < FOUR_GIB && ReadAt(h, 18, 4) == e.compressedSize
            && e.uncompressedSize < FOUR_GIB && ReadAt(h, 22, 4) == e.uncompressedSize)
  {
    HeaderLayout(e, NeedsZip64AsWritten(e));
  }
}
