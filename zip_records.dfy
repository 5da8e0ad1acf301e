/**
 * Byte layout of APPNOTE.TXT local file records (section 4.3.7), the format
 * the server's archive is written in with the "stored" method, and what the
 * reader in ZipReader makes of a sequence of them.
 */
module ZipRecords {
  import opened Wrappers
  import opened ZipReader

  const CentralDirectorySig := 0x02014b50

  // ---------------------------------------------------------------------------
  // Little-endian writes, inverse to the reads

  predicate IsU16(n: int) { 0 <= n < 0x1_0000 }
  predicate IsU32(n: int) { 0 <= n < 0x1_0000_0000 }

  /** Low and high byte of (the low 16 bits of) `n`. */
  function Lo(n: int): byte { (n % 0x100) as byte }
  function Hi(n: int): byte { (n / 0x100 % 0x100) as byte }

  /** Low and high 16-bit halves of (the low 32 bits of) `n`. */
  function LoHalf(n: int): int { n % 0x1_0000 }
  function HiHalf(n: int): int { n / 0x1_0000 % 0x1_0000 }

  /** A 16-bit value is its low byte plus 256 times its high byte. */
  lemma SplitU16(n: int)
    requires IsU16(n)
    ensures IsU16(LoHalf(n)) && Lo(n) as int + 0x100 * Hi(n) as int == n
  {
  }

  /** A 32-bit value is its four bytes, least significant first. */
  lemma SplitU32(n: int)
    requires IsU32(n)
    ensures Lo(LoHalf(n)) as int + 0x100 * Hi(LoHalf(n)) as int
            + 0x1_0000 * (Lo(HiHalf(n)) as int + 0x100 * Hi(HiHalf(n)) as int) == n
  {
    SplitU16(LoHalf(n));
    SplitU16(HiHalf(n));
  }

  /** The four bytes the writer emits for a 32-bit value. */
  function U32Bytes(n: int): (s: seq<byte>)
    requires IsU32(n)
    ensures |s| == 4 && LeU32(s, 0) == n
  {
    SplitU32(n);
    [Lo(LoHalf(n)), Hi(LoHalf(n)), Lo(HiHalf(n)), Hi(HiHalf(n))]
  }

  // ---------------------------------------------------------------------------
  // Local file records

  datatype LocalRecord = LocalRecord(
    versionNeeded: int, flags: int, compressionMethod: int, modTime: int, modDate: int,
    crc32: int, compressedSize: int, uncompressedSize: int,
    name: seq<byte>, extra: seq<byte>, data: seq<byte>)

  /** Every field fits its fixed-width slot. */
  predicate FieldsFit(r: LocalRecord)
  {
    && IsU16(r.versionNeeded) && IsU16(r.flags) && IsU16(r.compressionMethod)
    && IsU16(r.modTime) && IsU16(r.modDate)
    && IsU32(r.crc32) && IsU32(r.compressedSize) && IsU32(r.uncompressedSize)
    && IsU16(|r.name|) && IsU16(|r.extra|)
  }

  /**
   * The sizes in the header describe the data that follows it: a non-zero
   * compressed size is its length, and otherwise the uncompressed size is.
   */
  predicate SizesDeclared(r: LocalRecord)
  {
    || (r.compressedSize != 0 && r.compressedSize == |r.data|)
    || (r.compressedSize == 0 && r.uncompressedSize == |r.data|)
  }

  predicate Valid(r: LocalRecord)
  {
    FieldsFit(r) && SizesDeclared(r)
  }

  /** Byte `k` of a 16-bit field (`k` is 0 or 1) and of a 32-bit field (`k` is 0 to 3). */
  function U16Byte(n: int, k: int): byte { if k == 0 then Lo(n) else Hi(n) }
  function U32Byte(n: int, k: int): byte { if k < 2 then U16Byte(LoHalf(n), k) else U16Byte(HiHalf(n), k - 2) }

  /** Byte `k` of the fixed header, little-endian, fields at the offsets APPNOTE.TXT gives. */
  function HeaderByte(r: LocalRecord, k: int): byte
  {
    if k < 4 then U32Byte(LocalFileHeaderSig, k)
    else if k < 6 then U16Byte(r.versionNeeded, k - 4)
    else if k < 8 then U16Byte(r.flags, k - 6)
    else if k < 10 then U16Byte(r.compressionMethod, k - 8)
    else if k < 12 then U16Byte(r.modTime, k - 10)
    else if k < 14 then U16Byte(r.modDate, k - 12)
    else if k < 18 then U32Byte(r.crc32, k - 14)
    else if k < 22 then U32Byte(r.compressedSize, k - 18)
    else if k < 26 then U32Byte(r.uncompressedSize, k - 22)
    else if k < 28 then U16Byte(|r.name|, k - 26)
    else U16Byte(|r.extra|, k - 28)
  }

  /** The fixed 30-byte header. */
  function HeaderBytes(r: LocalRecord): (h: seq<byte>)
    ensures |h| == LocalHeaderSize
  {
    seq(LocalHeaderSize, k => HeaderByte(r, k))
  }

  /** Every field the reader looks at reads back from the header as written. */
  lemma HeaderReadsBack(r: LocalRecord)
    requires FieldsFit(r)
    ensures LeU32(HeaderBytes(r), 0) == LocalFileHeaderSig
    ensures LeU16(HeaderBytes(r), 8) == r.compressionMethod
    ensures LeU32(HeaderBytes(r), 18) == r.compressedSize
    ensures LeU32(HeaderBytes(r), 22) == r.uncompressedSize
    ensures LeU16(HeaderBytes(r), 26) == |r.name|
    ensures LeU16(HeaderBytes(r), 28) == |r.extra|
  {
    SplitU32(LocalFileHeaderSig);
    SplitU16(r.compressionMethod);
    SplitU32(r.compressedSize);
    SplitU32(r.uncompressedSize);
    SplitU16(|r.name|);
    SplitU16(|r.extra|);
  }

  function Serialize(r: LocalRecord): (s: seq<byte>)
    ensures |s| == RecordSize(r)
  {
    HeaderBytes(r) + (r.name + (r.extra + r.data))
  }

  function SerializeAll(rs: seq<LocalRecord>): seq<byte>
  {
    if rs == [] then [] else Serialize(rs[0]) + SerializeAll(rs[1..])
  }

  /** The reader keeps a record when it is stored and named "*.png". */
  predicate Selected(r: LocalRecord)
  {
    IsPngName(r.name) && r.compressionMethod == MethodStored
  }

  /** What the reader emits for one record. */
  function Emitted(r: LocalRecord): seq<PngEntry>
  {
    if Selected(r) then [PngEntry(r.name, r.data)] else []
  }

  /** The length of a written record. */
  function RecordSize(r: LocalRecord): nat
  {
    LocalHeaderSize + |r.name| + |r.extra| + |r.data|
  }

  /** The entries a correct reader returns for `rs`: the selected ones, in order. */
  function Decodable(rs: seq<LocalRecord>): seq<PngEntry>
  {
    if rs == [] then [] else Emitted(rs[0]) + Decodable(rs[1..])
  }

  /** What follows the local records stops the walk. */
  predicate TailStops(t: seq<byte>)
  {
    |t| <= 4 || LeU32(t, 0) != LocalFileHeaderSig
  }

  // ---------------------------------------------------------------------------
  // Reading inside a larger buffer

  /** The `m` bytes of `buf` from `o` on are the first `m` bytes of `s`. */
  predicate Agree(buf: seq<byte>, o: nat, s: seq<byte>, m: nat)
    decreases m
  {
    && o + m <= |buf| && m <= |s|
    && (m == 0 || (buf[o + m - 1] == s[m - 1] && Agree(buf, o, s, m - 1)))
  }

  lemma {:induction false} AgreeAt(buf: seq<byte>, o: nat, s: seq<byte>, m: nat, k: nat)
    requires Agree(buf, o, s, m) && k < m
    ensures buf[o + k] == s[k]
    decreases m
  {
    if k < m - 1 {
      AgreeAt(buf, o, s, m - 1, k);
    }
  }

  lemma {:induction false} AgreeOf(buf: seq<byte>, o: nat, s: seq<byte>, m: nat)
    requires o + m <= |buf| && m <= |s|
    requires forall k :: 0 <= k < m ==> buf[o + k] == s[k]
    ensures Agree(buf, o, s, m)
    decreases m
  {
    if m > 0 {
      AgreeOf(buf, o, s, m - 1);
    }
  }

  lemma U16Agree(buf: seq<byte>, o: nat, s: seq<byte>, m: nat, k: nat)
    requires Agree(buf, o, s, m) && k + 2 <= m
    ensures LeU16(buf, o + k) == LeU16(s, k)
  {
    AgreeAt(buf, o, s, m, k);
    AgreeAt(buf, o, s, m, k + 1);
  }

  lemma U32Agree(buf: seq<byte>, o: nat, s: seq<byte>, m: nat, k: nat)
    requires Agree(buf, o, s, m) && k + 4 <= m
    ensures LeU32(buf, o + k) == LeU32(s, k)
  {
    U16Agree(buf, o, s, m, k);
    U16Agree(buf, o, s, m, k + 2);
  }

  lemma HeaderAgree(buf: seq<byte>, o: nat, s: seq<byte>, m: nat)
    requires Agree(buf, o, s, m) && LocalHeaderSize <= m
    ensures LeU32(buf, o) == LeU32(s, 0) && ReadHeader(buf, o) == ReadHeader(s, 0)
  {
    U32Agree(buf, o, s, m, 0);
    U16Agree(buf, o, s, m, 8);
    U32Agree(buf, o, s, m, 18);
    U32Agree(buf, o, s, m, 22);
    U16Agree(buf, o, s, m, 26);
    U16Agree(buf, o, s, m, 28);
  }

  lemma SliceAgree(buf: seq<byte>, o: nat, s: seq<byte>, m: nat, i: nat, j: nat)
    requires Agree(buf, o, s, m) && i <= j <= m
    ensures buf[o + i .. o + j] == s[i .. j]
  {
    forall k | 0 <= k < j - i
      ensures buf[o + i .. o + j][k] == s[i .. j][k]
    {
      AgreeAt(buf, o, s, m, i + k);
    }
  }

  lemma AgreeSplit(buf: seq<byte>, o: nat, a: seq<byte>, b: seq<byte>)
    requires Agree(buf, o, a + b, |a| + |b|)
    ensures Agree(buf, o, a, |a|) && Agree(buf, o + |a|, b, |b|)
  {
    forall k | 0 <= k < |a| ensures buf[o + k] == a[k] {
      AgreeAt(buf, o, a + b, |a| + |b|, k);
    }
    forall k | 0 <= k < |b| ensures buf[o + |a| + k] == b[k] {
      AgreeAt(buf, o, a + b, |a| + |b|, |a| + k);
    }
    AgreeOf(buf, o, a, |a|);
    AgreeOf(buf, o + |a|, b, |b|);
  }

  /** `AgreeSplit` for bytes `all` known to be `a + b`. */
  lemma AgreeSplitAt(buf: seq<byte>, o: nat, all: seq<byte>, a: seq<byte>, b: seq<byte>)
    requires all == a + b && Agree(buf, o, all, |all|)
    ensures Agree(buf, o, a, |a|) && Agree(buf, o + |a|, b, |b|)
    ensures |all| == |a| + |b|
  {
    AgreeSplit(buf, o, a, b);
  }

  /** The reader finds the header of `r` at `o`. */
  predicate HeaderAt(buf: seq<byte>, o: nat, r: LocalRecord)
  {
    && o + LocalHeaderSize <= |buf|
    && LeU32(buf, o) == LocalFileHeaderSig
    && ReadHeader(buf, o) == LocalHeader(r.compressionMethod, r.compressedSize, r.uncompressedSize, |r.name|, |r.extra|)
  }

  /** A header written at `o` is read back at `o`. */
  lemma ReadsHeaderAt(buf: seq<byte>, o: nat, r: LocalRecord)
    requires FieldsFit(r)
    requires Agree(buf, o, HeaderBytes(r), LocalHeaderSize)
    ensures HeaderAt(buf, o, r)
  {
    HeaderReadsBack(r);
    FieldsReadAt(buf, o, HeaderBytes(r), r);
  }

  /** Any 30 bytes holding the fields of `r`, copied to `o`, are a header for `r` there. */
  lemma FieldsReadAt(buf: seq<byte>, o: nat, h: seq<byte>, r: LocalRecord)
    requires Agree(buf, o, h, LocalHeaderSize)
    requires LeU32(h, 0) == LocalFileHeaderSig && LeU16(h, 8) == r.compressionMethod
    requires LeU32(h, 18) == r.compressedSize && LeU32(h, 22) == r.uncompressedSize
    requires LeU16(h, 26) == |r.name| && LeU16(h, 28) == |r.extra|
    ensures HeaderAt(buf, o, r)
  {
    HeaderAgree(buf, o, h, LocalHeaderSize);
  }

  /**
   * One turn of the reader at a header written at `o`, given as much of the
   * name and the data as the buffer holds.
   */
  lemma StepAtHeader(buf: seq<byte>, o: nat, r: LocalRecord)
    requires Valid(r)
    requires HeaderAt(buf, o, r)
    requires var nameAt := o + LocalHeaderSize;
             nameAt + |r.name| <= |buf| ==> buf[nameAt .. nameAt + |r.name|] == r.name
    requires var dataAt := o + LocalHeaderSize + |r.name| + |r.extra|;
             Selected(r) && dataAt + |r.data| <= |buf| ==> buf[dataAt .. dataAt + |r.data|] == r.data
    ensures StepAt(buf, o) ==
              if o + LocalHeaderSize + |r.name| > |buf| then Fail(NameOutOfBounds(o))
              else if Selected(r) && o + RecordSize(r) > |buf| then Fail(DataOutOfBounds(o))
              else Advance(Emitted(r), o + RecordSize(r))
  {
  }

  /** Where the parts of `h + (n + (e + d))` lie. */
  lemma ConcatParts(h: seq<byte>, n: seq<byte>, e: seq<byte>, d: seq<byte>)
    ensures Agree(h + (n + (e + d)), 0, h, |h|)
    ensures (h + (n + (e + d)))[|h| .. |h| + |n|] == n
    ensures (h + (n + (e + d)))[|h| + |n| + |e| ..] == d
  {
    var s := h + (n + (e + d));
    AgreeOf(s, 0, h, |h|);
    assert s[|h| ..] == n + (e + d);
  }

  /** Where the header, the name and the data of a record lie in its bytes. */
  lemma SerializedLayout(r: LocalRecord)
    requires FieldsFit(r)
    ensures HeaderAt(Serialize(r), 0, r)
    ensures Serialize(r)[LocalHeaderSize .. LocalHeaderSize + |r.name|] == r.name
    ensures Serialize(r)[LocalHeaderSize + |r.name| + |r.extra| .. RecordSize(r)] == r.data
  {
    ConcatParts(HeaderBytes(r), r.name, r.extra, r.data);
    ReadsHeaderAt(Serialize(r), 0, r);
  }

  /** The parts of a record's bytes `s`, from their first `m` bytes at `o`. */
  lemma PartsAt(buf: seq<byte>, o: nat, s: seq<byte>, r: LocalRecord, m: nat)
    requires HeaderAt(s, 0, r) && |s| == RecordSize(r)
    requires s[LocalHeaderSize .. LocalHeaderSize + |r.name|] == r.name
    requires s[LocalHeaderSize + |r.name| + |r.extra| .. RecordSize(r)] == r.data
    requires LocalHeaderSize <= m && Agree(buf, o, s, m)
    ensures HeaderAt(buf, o, r)
    ensures LocalHeaderSize + |r.name| <= m ==>
              buf[o + LocalHeaderSize .. o + LocalHeaderSize + |r.name|] == r.name
    ensures m == RecordSize(r) ==>
              buf[o + LocalHeaderSize + |r.name| + |r.extra| .. o + RecordSize(r)] == r.data
  {
    HeaderAgree(buf, o, s, m);
    if LocalHeaderSize + |r.name| <= m {
      SliceAgree(buf, o, s, m, LocalHeaderSize, LocalHeaderSize + |r.name|);
    }
    if m == RecordSize(r) {
      SliceAgree(buf, o, s, m, LocalHeaderSize + |r.name| + |r.extra|, m);
    }
  }

  /** Where the first `m` bytes of a record are written at `o`, the header, name and data found there. */
  lemma RecordPartsAt(buf: seq<byte>, o: nat, r: LocalRecord, m: nat)
    requires Valid(r)
    requires LocalHeaderSize <= m && Agree(buf, o, Serialize(r), m)
    ensures HeaderAt(buf, o, r)
    ensures LocalHeaderSize + |r.name| <= m ==>
              buf[o + LocalHeaderSize .. o + LocalHeaderSize + |r.name|] == r.name
    ensures m == RecordSize(r) ==>
              buf[o + LocalHeaderSize + |r.name| + |r.extra| .. o + RecordSize(r)] == r.data
  {
    SerializedLayout(r);
    PartsAt(buf, o, Serialize(r), r, m);
  }

  /** The reader stops at `p`: at most four bytes are left, or no local header starts there. */
  predicate StopsAt(buf: seq<byte>, p: nat)
  {
    p + 4 >= |buf| || LeU32(buf, p) != LocalFileHeaderSig
  }

  /** Everything one turn of the reader at `o` looks at is that of `r`. */
  predicate ReadableAt(buf: seq<byte>, o: nat, r: LocalRecord)
  {
    && HeaderAt(buf, o, r)
    && o + RecordSize(r) <= |buf|
    && buf[o + LocalHeaderSize .. o + LocalHeaderSize + |r.name|] == r.name
    && buf[o + LocalHeaderSize + |r.name| + |r.extra| .. o + RecordSize(r)] == r.data
  }

  /** From `o` on, `buf` holds the records `rs` one after another, and then the reader stops. */
  predicate LaidOut(buf: seq<byte>, o: nat, rs: seq<LocalRecord>)
    decreases |rs|
  {
    if rs == [] then StopsAt(buf, o)
    else ReadableAt(buf, o, rs[0]) && LaidOut(buf, o + RecordSize(rs[0]), rs[1..])
  }

  /** One turn of the reader over a readable record. */
  lemma StepOverRecord(buf: seq<byte>, o: nat, rs: seq<LocalRecord>)
    requires rs != [] && (forall r <- rs :: Valid(r)) && LaidOut(buf, o, rs)
    ensures StepAt(buf, o) == Advance(Emitted(rs[0]), o + RecordSize(rs[0]))
  {
    var r := rs[0];
    assert r in rs;
    StepAtHeader(buf, o, r);
  }

  // One step of a definition, stated apart so that callers need not unfold it in a large context.
  lemma WalkAdvance(buf: seq<byte>, o: nat, e: seq<PngEntry>, next: nat)
    requires StepAt(buf, o) == Advance(e, next)
    ensures Walk(buf, o) == Prepend(e, Walk(buf, next))
  {
  }

  lemma WalkStops(buf: seq<byte>, p: nat)
    requires StopsAt(buf, p)
    ensures Walk(buf, p) == Ok([])
  {
    if p + 4 >= |buf| {
      StopsNearEnd(buf, p);
    } else {
      StopsAtOtherSignature(buf, p);
    }
  }

  lemma {:induction false} WalkLaidOut(buf: seq<byte>, o: nat, rs: seq<LocalRecord>)
    requires forall r <- rs :: Valid(r)
    requires LaidOut(buf, o, rs)
    ensures Walk(buf, o) == Ok(Decodable(rs))
    decreases |rs|
  {
    if rs == [] {
      WalkStops(buf, o);
    } else {
      assert forall r <- rs[1..] :: r in rs;
      WalkLaidOut(buf, o + RecordSize(rs[0]), rs[1..]);
      WalkCons(buf, o, rs);
    }
  }

  /** The induction step of `WalkLaidOut`, kept apart so that its context stays small. */
  lemma WalkCons(buf: seq<byte>, o: nat, rs: seq<LocalRecord>)
    requires rs != [] && (forall r <- rs :: Valid(r)) && LaidOut(buf, o, rs)
    requires Walk(buf, o + RecordSize(rs[0])) == Ok(Decodable(rs[1..]))
    ensures Walk(buf, o) == Ok(Decodable(rs))
  {
    StepOverRecord(buf, o, rs);
    DecodableCons(rs);
    WalkPrepends(buf, o, o + RecordSize(rs[0]), Emitted(rs[0]), Decodable(rs[1..]), Decodable(rs));
  }

  /** A turn that emits `e` and goes on to a walk returning `d` makes a walk returning `e + d`. */
  lemma WalkPrepends(buf: seq<byte>, o: nat, next: nat, e: seq<PngEntry>, d: seq<PngEntry>, all: seq<PngEntry>)
    requires StepAt(buf, o) == Advance(e, next) && Walk(buf, next) == Ok(d) && all == e + d
    ensures Walk(buf, o) == Ok(all)
  {
    WalkAdvance(buf, o, e, next);
  }

  // One step of a definition, stated apart so that callers need not unfold it in a large context.
  lemma WalkFails(buf: seq<byte>, o: nat, e: ZipError)
    requires StepAt(buf, o) == Fail(e)
    ensures Walk(buf, o) == Err(e)
  {
  }

  // One step of a definition, stated apart so that callers need not unfold it in a large context.
  lemma DecodableCons(rs: seq<LocalRecord>)
    requires rs != []
    ensures Decodable(rs) == Emitted(rs[0]) + Decodable(rs[1..])
  {
  }

  /** Where records are written at `o`, the first comes first and the others follow it. */
  lemma FirstRecordAt(buf: seq<byte>, o: nat, rs: seq<LocalRecord>)
    requires rs != []
    requires Agree(buf, o, SerializeAll(rs), |SerializeAll(rs)|)
    ensures Agree(buf, o, Serialize(rs[0]), RecordSize(rs[0]))
    ensures Agree(buf, o + RecordSize(rs[0]), SerializeAll(rs[1..]), |SerializeAll(rs[1..])|)
    ensures |SerializeAll(rs)| == RecordSize(rs[0]) + |SerializeAll(rs[1..])|
  {
    SerializeAllCons(rs);
    AgreeSplitAt(buf, o, SerializeAll(rs), Serialize(rs[0]), SerializeAll(rs[1..]));
  }

  // One step of a definition, stated apart so that callers need not unfold it in a large context.
  lemma SerializeAllCons(rs: seq<LocalRecord>)
    requires rs != []
    ensures SerializeAll(rs) == Serialize(rs[0]) + SerializeAll(rs[1..])
  {
  }

  /** A whole record written at `o` is readable there. */
  lemma WrittenIsReadable(buf: seq<byte>, o: nat, r: LocalRecord)
    requires Valid(r) && Agree(buf, o, Serialize(r), RecordSize(r))
    ensures ReadableAt(buf, o, r)
  {
    RecordPartsAt(buf, o, r, RecordSize(r));
  }

  /** Records written one after another at `o`, followed by something that stops the reader. */
  lemma {:induction false} LaysOut(buf: seq<byte>, o: nat, rs: seq<LocalRecord>)
    requires forall r <- rs :: Valid(r)
    requires Agree(buf, o, SerializeAll(rs), |SerializeAll(rs)|)
    requires StopsAt(buf, o + |SerializeAll(rs)|)
    ensures LaidOut(buf, o, rs)
    decreases |rs|
  {
    if rs == [] {
      assert o + |SerializeAll(rs)| == o;
    } else {
      FirstRecordAt(buf, o, rs);
      assert forall r <- rs[1..] :: r in rs;
      LaysOut(buf, o + RecordSize(rs[0]), rs[1..]);
      assert rs[0] in rs;
      WrittenIsReadable(buf, o, rs[0]);
      LaidOutCons(buf, o, rs);
    }
  }

  // One step of a definition, stated apart so that callers need not unfold it in a large context.
  lemma LaidOutCons(buf: seq<byte>, o: nat, rs: seq<LocalRecord>)
    requires rs != [] && ReadableAt(buf, o, rs[0]) && LaidOut(buf, o + RecordSize(rs[0]), rs[1..])
    ensures LaidOut(buf, o, rs)
  {
  }

  /** Bytes `all` at the start of `all + t`, where `t` stops the reader. */
  lemma PrefixAgrees(all: seq<byte>, t: seq<byte>)
    requires TailStops(t)
    ensures Agree(all + t, 0, all, |all|) && StopsAt(all + t, |all|)
  {
    var buf := all + t;
    AgreeOf(buf, 0, all, |all|);
    if |t| > 4 {
      AgreeOf(buf, |all|, t, |t|);
      U32Agree(buf, |all|, t, |t|, 0);
    }
  }

  /** An archive's local records, followed by something that stops the reader. */
  lemma ArchiveLaidOut(rs: seq<LocalRecord>, t: seq<byte>)
    requires forall r <- rs :: Valid(r)
    requires TailStops(t)
    ensures LaidOut(SerializeAll(rs) + t, 0, rs)
  {
    PrefixAgrees(SerializeAll(rs), t);
    LaysOut(SerializeAll(rs) + t, 0, rs);
  }

  /**
   * The reader returns exactly the stored ".png" records of an archive, with
   * their names and data, in the order they were written.
   */
  lemma ReadsBackWrittenRecords(rs: seq<LocalRecord>, t: seq<byte>)
    requires forall r <- rs :: Valid(r)
    requires TailStops(t)
    ensures ExtractPngs(SerializeAll(rs) + t) == Ok(Decodable(rs))
  {
    ArchiveLaidOut(rs, t);
    WalkLaidOut(SerializeAll(rs) + t, 0, rs);
  }

  /** A central directory record after the local records ends the walk. */
  lemma CentralDirectoryStops(t: seq<byte>)
    requires |t| >= 4 && t[..4] == U32Bytes(CentralDirectorySig)
    ensures TailStops(t)
  {
    if |t| > 4 {
      AgreeOf(t, 0, t[..4], 4);
      U32Agree(t, 0, t[..4], 4, 0);
    }
  }

  // ---------------------------------------------------------------------------
  // Truncated archives

  /**
   * A record cut off after `n` bytes: a read that would leave the buffer is
   * an error, never an out-of-range slice. Only the header and the name are
   * checked for every record; a record the reader skips needs no data, the
   * cursor jumps past the end and the walk stops without an error.
   */
  lemma TruncatedRecord(r: LocalRecord, n: nat)
    requires Valid(r)
    requires 4 < n < RecordSize(r)
    ensures Walk(Serialize(r)[..n], 0) ==
              if n < LocalHeaderSize then Err(TruncatedHeader(0))
              else if n < LocalHeaderSize + |r.name| then Err(NameOutOfBounds(0))
              else if Selected(r) then Err(DataOutOfBounds(0))
              else Ok([])
  {
    if n < LocalHeaderSize {
      TruncatedInHeader(r, n);
    } else {
      TruncatedAfterHeader(r, n);
    }
  }

  lemma TruncatedInHeader(r: LocalRecord, n: nat)
    requires FieldsFit(r)
    requires 4 < n < LocalHeaderSize
    ensures Walk(Serialize(r)[..n], 0) == Err(TruncatedHeader(0))
  {
    var s := Serialize(r);
    var buf := s[..n];
    var h := HeaderBytes(r);
    ConcatParts(h, r.name, r.extra, r.data);
    HeaderReadsBack(r);
    U32Agree(s, 0, h, LocalHeaderSize, 0);
    AgreeOf(buf, 0, s, n);
    U32Agree(buf, 0, s, n, 0);
    assert StepAt(buf, 0) == Fail(TruncatedHeader(0));
  }

  lemma TruncatedAfterHeader(r: LocalRecord, n: nat)
    requires Valid(r)
    requires LocalHeaderSize <= n < RecordSize(r)
    ensures Walk(Serialize(r)[..n], 0) ==
              if n < LocalHeaderSize + |r.name| then Err(NameOutOfBounds(0))
              else if Selected(r) then Err(DataOutOfBounds(0))
              else Ok([])
  {
    var s := Serialize(r);
    var buf := s[..n];
    AgreeOf(buf, 0, s, n);
    RecordPartsAt(buf, 0, r, n);
    StepAtHeader(buf, 0, r);
    if n < LocalHeaderSize + |r.name| {
      assert StepAt(buf, 0) == Fail(NameOutOfBounds(0));
      WalkFails(buf, 0, NameOutOfBounds(0));
    } else if Selected(r) {
      assert StepAt(buf, 0) == Fail(DataOutOfBounds(0));
      WalkFails(buf, 0, DataOutOfBounds(0));
    } else {
      assert StepAt(buf, 0) == Advance([], RecordSize(r));
      StopsNearEnd(buf, RecordSize(r));
      WalkPrepends(buf, 0, RecordSize(r), [], [], []);
    }
  }
}
