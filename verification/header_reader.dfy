/**
 * A reader for one ZIP local file header as PKWARE APPNOTE.TXT defines it
 * (section 4.3.7, extra fields in section 4.5.1, the Zip64 extended
 * information field in section 4.5.3). It stands for what the external
 * decoder must recover from the synthesized header, and is written
 * independently of the writer so that the two can be checked against each
 * other.
 */
module HeaderReader {
  import opened Wrappers
  import opened LittleEndian
  import opened HeaderSynthesis

  /** What a reader learns from a local file header. */
  datatype LocalFileHeader = LocalFileHeader(
    versionNeededToExtract: nat,
    generalPurposeBitFlag: nat,
    compressionMethod: nat,
    lastModFileTime: nat,
    lastModFileDate: nat,
    crc32: nat,
    compressedSize: nat,
    uncompressedSize: nat,
    fileName: seq<uint8>,
    dataOffset: nat)

  /**
   * The data of the first extra field record tagged `tag`. Each record is a
   * 2-byte tag, a 2-byte data length and that many bytes of data; a record
   * running past the end of the extra field makes the field unreadable.
   */
  function FindExtraField(extra: seq<uint8>, tag: nat): (r: Option<seq<uint8>>)
    ensures r.Some? ==> |r.value| + 4 <= |extra|
    decreases |extra|
  {
    if |extra| < 4 then None
    else
      var length := ReadAt(extra, 2, 2);
      if |extra| < 4 + length then None
      else if ReadAt(extra, 0, 2) == tag then Some(extra[4..4 + length])
      else
        FindExtraField(extra[4 + length..], tag)
  }

  /**
   * The true sizes: the 32-bit fields, unless either holds the sentinel, in
   * which case both come from the Zip64 field (a local header's Zip64 field
   * carries both, uncompressed first).
   */
  function TrueSizes(compressed32: nat, uncompressed32: nat, extra: seq<uint8>): Option<(nat, nat)>
  {
    if compressed32 != SIZE_SENTINEL && uncompressed32 != SIZE_SENTINEL then
      Some((compressed32, uncompressed32))
    else
      match FindExtraField(extra, ZIP64_TAG)
      case None => None
      case Some(data) =>
        if |data| < ZIP64_DATA_LENGTH then None
        else Some((ReadAt(data, 8, 8), ReadAt(data, 0, 8)))
  }

  /** Reads the local file header at the start of `bs`; the entry's data begins at `dataOffset`. */
  function ParseLocalHeader(bs: seq<uint8>): (r: Option<LocalFileHeader>)
    ensures r.Some? ==> LFH_LENGTH <= r.value.dataOffset <= |bs|
  {
    if |bs| < LFH_LENGTH || ReadAt(bs, 0, 4) != LFH_SIGNATURE then None
    else
      var nameLength := ReadAt(bs, 26, 2);
      var extraLength := ReadAt(bs, 28, 2);
      var dataOffset := LFH_LENGTH + nameLength + extraLength;
      if |bs| < dataOffset then None
      else
        var extra := bs[LFH_LENGTH + nameLength..dataOffset];
        match TrueSizes(ReadAt(bs, 18, 4), ReadAt(bs, 22, 4), extra)
        case None => None
        case Some(sizes) =>
          Some(LocalFileHeader(
            ReadAt(bs, 4, 2), ReadAt(bs, 6, 2), ReadAt(bs, 8, 2),
            ReadAt(bs, 10, 2), ReadAt(bs, 12, 2), ReadAt(bs, 14, 4),
            sizes.0, sizes.1,
            bs[LFH_LENGTH..LFH_LENGTH + nameLength], dataOffset))
  }

  /** What a reader should learn from the header synthesized for `e`. */
  function Expected(e: Entry, headerLength: nat): LocalFileHeader
    requires WellFormed(e)
  {
    LocalFileHeader(
      e.versionNeededToExtract, ClearDataDescriptorBit(e.generalPurposeBitFlag),
      e.compressionMethod, e.lastModFileTime, e.lastModFileDate, e.crc32,
      e.compressedSize, e.uncompressedSize, [FILE_NAME_BYTE], headerLength)
  }

  /** The fixed fields of a header read the same with a payload after it. */
  lemma FixedFieldsBeforePayload(e: Entry, zip64: bool, payload: seq<uint8>)
    requires Fits(e, zip64)
    ensures var h := HeaderFor(e, zip64);
      var bs := h + payload;
      && |bs| >= |h| == LFH_LENGTH + 1 + ReadAt(bs, 28, 2)
      && ReadAt(bs, 0, 4) == LFH_SIGNATURE
      && ReadAt(bs, 4, 2) == e.versionNeededToExtract
      && ReadAt(bs, 6, 2) == ClearDataDescriptorBit(e.generalPurposeBitFlag)
      && ReadAt(bs, 8, 2) == e.compressionMethod
      && ReadAt(bs, 10, 2) == e.lastModFileTime
      && ReadAt(bs, 12, 2) == e.lastModFileDate
      && ReadAt(bs, 14, 4) == e.crc32
      && ReadAt(bs, 18, 4) == Size32(e.compressedSize, zip64)
      && ReadAt(bs, 22, 4) == Size32(e.uncompressedSize, zip64)
      && ReadAt(bs, 26, 2) == 1
      && bs[LFH_LENGTH..LFH_LENGTH + 1] == [FILE_NAME_BYTE]
      && bs[LFH_LENGTH + 1..|h|] == (if zip64 then Zip64Field(e) else [])
  {
    var h := HeaderFor(e, zip64);
    HeaderLayout(e, zip64);
    ReadPrefix(h, payload, 0, 4);
    ReadPrefix(h, payload, 4, 2);
    ReadPrefix(h, payload, 6, 2);
    ReadPrefix(h, payload, 8, 2);
    ReadPrefix(h, payload, 10, 2);
    ReadPrefix(h, payload, 12, 2);
    ReadPrefix(h, payload, 14, 4);
    ReadPrefix(h, payload, 18, 4);
    ReadPrefix(h, payload, 22, 4);
    ReadPrefix(h, payload, 26, 2);
    ReadPrefix(h, payload, 28, 2);
    assert (h + payload)[LFH_LENGTH + 1..|h|] == h[LFH_LENGTH + 1..];
  }

  /** The Zip64 field the writer appends is found by tag and yields both sizes. */
  lemma Zip64FieldFound(e: Entry)
    requires WellFormed(e)
    ensures TrueSizes(SIZE_SENTINEL, SIZE_SENTINEL, Zip64Field(e))
            == Some((e.compressedSize, e.uncompressedSize))
  {
    var z := Zip64Field(e);
    Zip64FieldLayout(e);
    assert FindExtraField(z, ZIP64_TAG) == Some(z[4..20]);
    ReadSuffix(z[..4], z[4..20], 0, 8);
    ReadSuffix(z[..4], z[4..20], 8, 8);
    assert z[..4] + z[4..20] == z;
  }

  /**
   * Reading a header written with a given zip64 choice, followed by any
   * payload: it is read back field for field exactly when the 32-bit size
   * fields are unambiguous, that is, when the Zip64 field is written or
   * neither size equals the sentinel.
   */
  lemma ReadBackFor(e: Entry, zip64: bool, payload: seq<uint8>)
    requires Fits(e, zip64)
    ensures var r := ParseLocalHeader(HeaderFor(e, zip64) + payload);
      && (r.Some? <==> zip64 || (e.compressedSize != SIZE_SENTINEL && e.uncompressedSize != SIZE_SENTINEL))
      && (r.Some? ==> r.value == Expected(e, |HeaderFor(e, zip64)|))
  {
    FixedFieldsBeforePayload(e, zip64, payload);
    if zip64 {
      Zip64FieldFound(e);
    }
  }

  /** The sentinel-safe header is always read back, whatever payload follows it. */
  lemma ReadBack(e: Entry, payload: seq<uint8>)
    requires WellFormed(e)
    ensures ParseLocalHeader(LocalHeader(e) + payload) == Some(Expected(e, |LocalHeader(e)|))
  {
    ReadBackFor(e, NeedsZip64(e), payload);
  }

  /**
   * The header as `makeFunzipStream` writes it is read back exactly when it
   * either carries the Zip64 field or neither size is 0xFFFFFFFF.
   */
  lemma AsWrittenReadBack(e: Entry, payload: seq<uint8>)
    requires WellFormed(e)
    ensures var r := ParseLocalHeader(LocalHeaderAsWritten(e) + payload);
      && (r.Some? <==> NeedsZip64AsWritten(e)
                       || (e.compressedSize != SIZE_SENTINEL && e.uncompressedSize != SIZE_SENTINEL))
      && (r.Some? ==> r.value == Expected(e, |LocalHeaderAsWritten(e)|))
  {
    ReadBackFor(e, NeedsZip64AsWritten(e), payload);
  }

  /**
   * An entry of exactly 0xFFFFFFFF uncompressed bytes and fewer than 2^32
   * compressed bytes: the source writes the sentinel as its 32-bit size
   * with no Zip64 field, and a reader that follows section 4.4.9 cannot
   * recover the size; the sentinel-safe header is read back.
   */
  lemma SentinelSizeUnreadable(e: Entry, payload: seq<uint8>)
    requires WellFormed(e)
    requires e.uncompressedSize == SIZE_SENTINEL && e.compressedSize < FOUR_GIB
    ensures !NeedsZip64AsWritten(e) && NeedsZip64(e)
    ensures ParseLocalHeader(LocalHeaderAsWritten(e) + payload) == None
    ensures ParseLocalHeader(LocalHeader(e) + payload) == Some(Expected(e, |LocalHeader(e)|))
  {
    AsWrittenReadBack(e, payload);
    ReadBack(e, payload);
  }
}
