/**
 * The client's minimal ZIP reader: walk the local file headers of PKWARE's
 * APPNOTE.TXT (section 4.3.7) from the start of the buffer and keep the
 * stored (compression method 0, section 4.4.5) entries whose name ends in
 * ".png", ignoring case.
 */
module ZipReader {
  import opened Wrappers
  import opened Sequences

  /** An octet of the archive. */
  newtype byte = b: int | 0 <= b < 0x100

  const LocalFileHeaderSig := 0x04034b50
  /** Fixed part of a local file header, in bytes. */
  const LocalHeaderSize := 30
  const MethodStored := 0

  /** ".png" as ASCII bytes. */
  const PngSuffix: seq<byte> := [0x2E, 0x70, 0x6E, 0x67]

  datatype PngEntry = PngEntry(name: seq<byte>, data: seq<byte>)

  /** Why a read would leave the buffer. */
  datatype ZipError =
    | TruncatedHeader(at: int)   // the fixed 30-byte header at `at` runs past the end
    | NameOutOfBounds(at: int)   // the name of the header at `at` runs past the end
    | DataOutOfBounds(at: int)   // the data of the entry whose header is at `at` runs past the end

  // ---------------------------------------------------------------------------
  // Little-endian reads (`DataView.getUint16/getUint32(offset, true)`)

  function LeU16(buf: seq<byte>, i: int): (v: int)
    requires 0 <= i && i + 2 <= |buf|
    ensures 0 <= v < 0x1_0000
  {
    buf[i] as int + 0x100 * buf[i + 1] as int
  }

  function LeU32(buf: seq<byte>, i: int): (v: int)
    requires 0 <= i && i + 4 <= |buf|
    ensures 0 <= v < 0x1_0000_0000
  {
    LeU16(buf, i) + 0x1_0000 * LeU16(buf, i + 2)
  }

  // ---------------------------------------------------------------------------
  // Entry selection

  /** ASCII lower-casing of one byte; every other byte is left alone. */
  function LowerByte(b: byte): byte
  {
    if 0x41 <= b <= 0x5A then b + 0x20 else b
  }

  /** `toLowerCase`, on the raw name bytes. */
  function LowerAscii(s: seq<byte>): (t: seq<byte>)
    ensures |t| == |s|
  {
    seq(|s|, i requires 0 <= i < |s| => LowerByte(s[i]))
  }

  /** `fileName.toLowerCase().endsWith(".png")`: the last four bytes, lower-cased, are ".png". */
  predicate IsPngName(name: seq<byte>)
  {
    var n := |name|;
    && 4 <= n
    && LowerByte(name[n - 4]) == PngSuffix[0] && LowerByte(name[n - 3]) == PngSuffix[1]
    && LowerByte(name[n - 2]) == PngSuffix[2] && LowerByte(name[n - 1]) == PngSuffix[3]
  }

  /** The byte-wise test is the lower-case-then-compare of the reader. */
  lemma PngNameLowered(name: seq<byte>)
    ensures IsPngName(name) <==> EndsWith(LowerAscii(name), PngSuffix)
  {
    var t := LowerAscii(name);
    if 4 <= |name| {
      var tail := t[|t| - 4 ..];
      assert tail == [t[|t| - 4], t[|t| - 3], t[|t| - 2], t[|t| - 1]];
    }
  }

  /** `compressedSize || uncompressedSize`. */
  function DataSize(compressedSize: int, uncompressedSize: int): (d: int)
    ensures compressedSize != 0 ==> d == compressedSize
    ensures compressedSize == 0 ==> d == uncompressedSize
    ensures d == 0 <==> compressedSize == 0 && uncompressedSize == 0
  {
    if compressedSize != 0 then compressedSize else uncompressedSize
  }

  /** `xs` in front of the entries of `r`; an error stays that error. */
  function Prepend(xs: seq<PngEntry>, r: Result<seq<PngEntry>, ZipError>): Result<seq<PngEntry>, ZipError>
  {
    match r
    case Ok(es) => Ok(xs + es)
    case Err(e) => Err(e)
  }

  // ---------------------------------------------------------------------------
  // The walk

  /** The fields of a local file header that the reader uses. */
  datatype LocalHeader = LocalHeader(
    compressionMethod: int, compressedSize: int, uncompressedSize: int, nameLen: int, extraLen: int)

  /** The little-endian fields at offsets 8, 18, 22, 26 and 28 of the header at `offset`. */
  function ReadHeader(buf: seq<byte>, offset: nat): (h: LocalHeader)
    requires offset + LocalHeaderSize <= |buf|
    ensures 0 <= h.compressionMethod < 0x1_0000 && 0 <= h.nameLen < 0x1_0000 && 0 <= h.extraLen < 0x1_0000
    ensures 0 <= h.compressedSize < 0x1_0000_0000 && 0 <= h.uncompressedSize < 0x1_0000_0000
  {
    LocalHeader(
      LeU16(buf, offset + 8), LeU32(buf, offset + 18), LeU32(buf, offset + 22),
      LeU16(buf, offset + 26), LeU16(buf, offset + 28))
  }

  /** The outcome of one turn of the reader's loop. */
  datatype Step =
    | Stop                                          // leave the loop
    | Fail(error: ZipError)                         // a read would leave the buffer
    | Advance(emitted: seq<PngEntry>, next: nat)    // emit these entries, continue at `next`

  /**
   * One turn of the loop at `offset`: stop once at most four bytes remain or
   * the signature is not a local header's; otherwise read the header, the
   * name and (for a stored ".png") the data, and move past the data.
   */
  function StepAt(buf: seq<byte>, offset: nat): (s: Step)
    ensures s.Advance? ==> s.next >= offset + LocalHeaderSize && |s.emitted| <= 1
    ensures s.Fail? ==> s.error.at == offset < |buf| - 4
  {
    if offset >= |buf| - 4 || LeU32(buf, offset) != LocalFileHeaderSig then Stop
    else if offset + LocalHeaderSize > |buf| then Fail(TruncatedHeader(offset))
    else
      var h := ReadHeader(buf, offset);
      var nameOffset := offset + LocalHeaderSize;
      if nameOffset + h.nameLen > |buf| then Fail(NameOutOfBounds(offset))
      else
        var name := buf[nameOffset .. nameOffset + h.nameLen];
        var dataOffset := nameOffset + h.nameLen + h.extraLen;
        var dataSize := DataSize(h.compressedSize, h.uncompressedSize);
        if IsPngName(name) && h.compressionMethod == MethodStored then
          if dataOffset + dataSize > |buf| then Fail(DataOutOfBounds(offset))
          else Advance([PngEntry(name, buf[dataOffset .. dataOffset + dataSize])], dataOffset + dataSize)
        else
          Advance([], dataOffset + dataSize)
  }

  /** What the reader produces from the header at `offset` onwards. */
  function Walk(buf: seq<byte>, offset: nat): (r: Result<seq<PngEntry>, ZipError>)
    ensures r.Err? ==> offset <= r.error.at < |buf| - 4
    decreases |buf| - offset
  {
    match StepAt(buf, offset)
    case Stop => Ok([])
    case Fail(e) => Err(e)
    case Advance(emitted, next) => Prepend(emitted, Walk(buf, next))
  }

  function ExtractPngs(buf: seq<byte>): (r: Result<seq<PngEntry>, ZipError>)
    ensures r.Err? ==> 0 <= r.error.at < |buf| - 4
  {
    Walk(buf, 0)
  }

  lemma PrependAppend(xs: seq<PngEntry>, ys: seq<PngEntry>, r: Result<seq<PngEntry>, ZipError>)
    ensures Prepend(xs, Prepend(ys, r)) == Prepend(xs + ys, r)
  {
    match r
    case Ok(es) => assert xs + (ys + es) == (xs + ys) + es;
    case Err(_) =>
  }

  lemma PrependNothing(r: Result<seq<PngEntry>, ZipError>)
    ensures Prepend([], r) == r
  {
    match r
    case Ok(es) => assert [] + es == es;
    case Err(_) =>
  }

  /**
   * The body of `extractPngsFromZip`'s loop at `offset`: check the signature,
   * read the header, slice the name and, for a stored ".png", the data.
   */
  method ReadEntryAt(buf: seq<byte>, offset: nat) returns (step: Step)
    requires offset < |buf| - 4
    ensures step == StepAt(buf, offset)
  {
    var signature := LeU32(buf, offset);
    if signature != LocalFileHeaderSig {
      return Stop;
    }
    if offset + LocalHeaderSize > |buf| {
      return Fail(TruncatedHeader(offset));
    }
    var h := ReadHeader(buf, offset);

    if offset + LocalHeaderSize + h.nameLen > |buf| {
      return Fail(NameOutOfBounds(offset));
    }
    var fileName := buf[offset + LocalHeaderSize .. offset + LocalHeaderSize + h.nameLen];

    var dataOffset := offset + LocalHeaderSize + h.nameLen + h.extraLen;
    var dataSize := DataSize(h.compressedSize, h.uncompressedSize);

    if IsPngName(fileName) && h.compressionMethod == MethodStored {
      if dataOffset + dataSize > |buf| {
        return Fail(DataOutOfBounds(offset));
      }
      return Advance([PngEntry(fileName, buf[dataOffset .. dataOffset + dataSize])], dataOffset + dataSize);
    }
    return Advance([], dataOffset + dataSize);
  }

  /** `extractPngsFromZip`: the cursor loop, with every read inside the buffer. */
  method ExtractPngsFromZip(buf: seq<byte>) returns (r: Result<seq<PngEntry>, ZipError>)
    ensures r == ExtractPngs(buf)
  {
    var images: seq<PngEntry> := [];
    var offset := 0;
    ghost var total := Walk(buf, 0);
    PrependNothing(total);
    while offset < |buf| - 4
      invariant 0 <= offset
      invariant total == Prepend(images, Walk(buf, offset))
      decreases |buf| - offset
    {
      var step := ReadEntryAt(buf, offset);
      match step
      case Stop =>
        break;
      case Fail(e) =>
        return Err(e);
      case Advance(emitted, next) =>
        PrependAppend(images, emitted, Walk(buf, next));
        images := images + emitted;
        offset := next;
    }
    assert Walk(buf, offset) == Ok([]);
    assert images + [] == images;
    return Ok(images);
  }

  // ---------------------------------------------------------------------------
  // Properties of the walk

  /** The walk stops, producing nothing more, at a signature other than a local header's. */
  lemma StopsAtOtherSignature(buf: seq<byte>, offset: nat)
    requires offset + 4 < |buf| && LeU32(buf, offset) != LocalFileHeaderSig
    ensures Walk(buf, offset) == Ok([])
  {
  }

  /** ... and when at most four bytes are left. */
  lemma StopsNearEnd(buf: seq<byte>, offset: nat)
    requires |buf| <= offset + 4
    ensures Walk(buf, offset) == Ok([])
  {
  }

  /** Every entry produced has a ".png" name. */
  lemma {:induction false} OnlyPngNames(buf: seq<byte>, offset: nat)
    requires Walk(buf, offset).Ok?
    ensures forall e :: e in Walk(buf, offset).value ==> IsPngName(e.name)
    decreases |buf| - offset
  {
    match StepAt(buf, offset)
    case Stop =>
    case Fail(_) =>
    case Advance(emitted, next) => OnlyPngNames(buf, next);
  }
}
