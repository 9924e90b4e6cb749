/** The fixed-size VHD structures (`createFooter`,
    `createDynamicDiskHeader`, `createEmptyTable`): every field is written
    big-endian at its fixed offset into a zeroed buffer, and the checksum is
    computed while its own field is still zero. */
module VhdStructures {
  import opened Wrappers
  import opened Bytes
  import opened VhdChecksum
  import opened VhdGeometry

  const FooterSize: nat := 512
  const HeaderSize: nat := 1024
  const FixedDiskType: int := 2
  const DynamicDiskType: int := 3
  /** Data-offset default for fixed disks: no header. */
  const NoOffset: int := 0xFFFF_FFFF
  /** Where the batch writer places the table: after footer and header. */
  const TableOffset: nat := 3 * 512

  /** `writeUInt32BE` and friends throw a RangeError on a value that does not
      fit the field. */
  datatype EncodeError = RangeError

  const FooterCookie: string := "conectix"
  const CreatorApp: string := "xo  "
  const CreatorOs: string := "Wi2k"
  const HeaderCookie: string := "cxsparse"

  /** The fields of a footer that the writer sets, as a decoder would read
      them back. */
  predicate FooterLayout(r: seq<byte>, size: nat, timestamp: int, g: Geometry, diskType: int,
                         dataOffsetLow: int, dataOffsetHigh: int)
  {
    && |r| == FooterSize
    && r[0..8] == Ascii(FooterCookie)
    && Be32(r[8..12]) == 2
    && Be32(r[12..16]) == 0x0001_0000
    && Be32(r[16..20]) == dataOffsetHigh
    && Be32(r[20..24]) == dataOffsetLow
    && Be32(r[24..28]) == timestamp
    && r[28..32] == Ascii(CreatorApp)
    && r[32..36] == Zeros(4)
    && r[36..40] == Ascii(CreatorOs)
    // original size and current size: the same 64-bit value twice
    && Be32(r[40..44]) * U32Limit + Be32(r[44..48]) == size % (U32Limit * U32Limit)
    && r[48..56] == r[40..48]
    && Be16(r[56..58]) == g.cylinders
    && r[58] == g.heads
    && r[59] == g.sectorsPerTrack
    && Be32(r[60..64]) == diskType
    && ChecksumValid(r, 64)
    && r[68..] == Zeros(FooterSize - 68)
  }

  predicate FooterInRange(timestamp: int, g: Geometry, diskType: int, dataOffsetLow: int, dataOffsetHigh: int)
  {
    IsU32(timestamp) && IsU32(diskType) && IsU32(dataOffsetLow) && IsU32(dataOffsetHigh)
    && g.cylinders < 0x1_0000 && g.heads < 256 && g.sectorsPerTrack < 256
  }

  lemma SizeSplit(size: nat)
    ensures ((size / U32Limit) % U32Limit) * U32Limit + size % U32Limit == size % (U32Limit * U32Limit)
  {
    var h := size / U32Limit;
    assert size == h * U32Limit + size % U32Limit;
    assert h == (h / U32Limit) * U32Limit + h % U32Limit;
    assert size == (h / U32Limit) * (U32Limit * U32Limit) + ((h % U32Limit) * U32Limit + size % U32Limit);
    assert 0 <= (h % U32Limit) * U32Limit + size % U32Limit < U32Limit * U32Limit;
  }

  /** `createFooter`. The size goes to both the original-size and the
      current-size fields as high and low 32-bit halves. */
  function CreateFooter(size: nat, timestamp: int, g: Geometry, diskType: int,
                        dataOffsetLow: int, dataOffsetHigh: int): (r: Result<seq<byte>, EncodeError>)
    ensures r.Ok? <==> FooterInRange(timestamp, g, diskType, dataOffsetLow, dataOffsetHigh)
    ensures r.Ok? ==> FooterLayout(r.value, size, timestamp, g, diskType, dataOffsetLow, dataOffsetHigh)
  {
    if !FooterInRange(timestamp, g, diskType, dataOffsetLow, dataOffsetHigh) then
      Err(RangeError)
    else
      var sizeHigh := (size / U32Limit) % U32Limit;
      var sizeLow := size % U32Limit;
      var fields := Ascii(FooterCookie) + U32BE(2) + U32BE(0x0001_0000)
                    + U32BE(dataOffsetHigh) + U32BE(dataOffsetLow) + U32BE(timestamp)
                    + Ascii(CreatorApp) + Zeros(4) + Ascii(CreatorOs)
                    + U32BE(sizeHigh) + U32BE(sizeLow) + U32BE(sizeHigh) + U32BE(sizeLow)
                    + U16BE(g.cylinders) + [g.heads as byte] + [g.sectorsPerTrack as byte]
                    + U32BE(diskType);
      var c := U32BE(Checksum(fields + Zeros(FooterSize - 64)));
      var r := fields + c + Zeros(FooterSize - 68);
      FooterFields(r, fields, size, timestamp, g, diskType, dataOffsetLow, dataOffsetHigh,
                   U32BE(2), U32BE(0x0001_0000), U32BE(dataOffsetHigh), U32BE(dataOffsetLow), U32BE(timestamp),
                   U32BE(sizeHigh), U32BE(sizeLow), U16BE(g.cylinders), U32BE(diskType), c);
      Ok(r)
  }

  /** Slicing a 19-part footer field area back into its parts. */
  lemma FooterParts(p0: seq<byte>, p1: seq<byte>, p2: seq<byte>, p3: seq<byte>, p4: seq<byte>, p5: seq<byte>,
                    p6: seq<byte>, p7: seq<byte>, p8: seq<byte>, p9: seq<byte>, p10: seq<byte>, p11: seq<byte>,
                    p12: seq<byte>, p13: seq<byte>, p14: seq<byte>, p15: seq<byte>, p16: seq<byte>,
                    p17: seq<byte>, p18: seq<byte>)
    requires |p0| == 8 && |p1| == 4 && |p2| == 4 && |p3| == 4 && |p4| == 4 && |p5| == 4 && |p6| == 4
    requires |p7| == 4 && |p8| == 4 && |p9| == 4 && |p10| == 4 && |p11| == 4 && |p12| == 4
    requires |p13| == 2 && |p14| == 1 && |p15| == 1 && |p16| == 4 && |p17| == 4
    ensures var f := p0 + p1 + p2 + p3 + p4 + p5 + p6 + p7 + p8 + p9 + p10 + p11 + p12 + p13 + p14 + p15 + p16
                     + p17 + p18;
      && |f| == 68 + |p18|
      && f[0..8] == p0 && f[8..12] == p1 && f[12..16] == p2 && f[16..20] == p3 && f[20..24] == p4
      && f[24..28] == p5 && f[28..32] == p6 && f[32..36] == p7 && f[36..40] == p8 && f[40..44] == p9
      && f[44..48] == p10 && f[48..52] == p11 && f[52..56] == p12 && f[56..58] == p13
      && f[40..48] == p9 + p10 && f[48..56] == p11 + p12
      && f[58] == p14[0] && f[59] == p15[0] && f[60..64] == p16 && f[64..68] == p17 && f[68..] == p18
  {
    var f1 := p0 + p1;
    var f2 := f1 + p2;
    var f3 := f2 + p3;
    var f4 := f3 + p4;
    var f5 := f4 + p5;
    var f6 := f5 + p6;
    var f7 := f6 + p7;
    var f8 := f7 + p8;
    var f9 := f8 + p9;
    var f10 := f9 + p10;
    var f11 := f10 + p11;
    var f12 := f11 + p12;
    var f13 := f12 + p13;
    var f14 := f13 + p14;
    var f15 := f14 + p15;
    var f16 := f15 + p16;
    var f17 := f16 + p17;
    var f := f17 + p18;
    PartOf(f, f17, p18);
    PartOf(f, f16, p17);
    PartOf(f, f15, p16);
    PartOf(f, f14, p15);
    PartOf(f, f13, p14);
    PartOf(f, f12, p13);
    PartOf(f, f11, p12);
    assert f10 + (p11 + p12) == f12;
    PartOf(f, f10, p11 + p12);
    PartOf(f, f10, p11);
    PartOf(f, f9, p10);
    assert f8 + (p9 + p10) == f10;
    PartOf(f, f8, p9 + p10);
    PartOf(f, f8, p9);
    PartOf(f, f7, p8);
    PartOf(f, f6, p7);
    PartOf(f, f5, p6);
    PartOf(f, f4, p5);
    PartOf(f, f3, p4);
    PartOf(f, f2, p3);
    PartOf(f, f1, p2);
    PartOf(f, p0, p1);
  }

  /** A part that follows a prefix of a buffer sits right after it. */
  lemma PartOf(whole: seq<byte>, prefix: seq<byte>, p: seq<byte>)
    requires prefix + p <= whole
    ensures whole[|prefix|..|prefix| + |p|] == p
    ensures whole[..|prefix|] == prefix && prefix <= whole
  {
    assert whole[..|prefix| + |p|] == prefix + p;
    assert (prefix + p)[|prefix|..] == p;
  }

  /** Zeroing the checksum field of `fields ++ checksum ++ rest` gives back
      the buffer the checksum was computed on. */
  lemma ChecksumFieldZeroed(fields: seq<byte>, c: seq<byte>, rest: nat)
    requires |c| == 4
    ensures var r := fields + c + Zeros(rest);
      && r[..|fields|] == fields
      && r[|fields|..|fields| + 4] == c
      && r[|fields| + 4..] == Zeros(rest)
      && r[..|fields|] + Zeros(4) + r[|fields| + 4..] == fields + Zeros(rest + 4)
  {
    var r := fields + c + Zeros(rest);
    assert r[|fields| + 4..] == Zeros(rest);
    assert Zeros(4) + Zeros(rest) == Zeros(rest + 4);
  }

  /** The footer layout, from the values its parts decode to. */
  lemma FooterFields(r: seq<byte>, fields: seq<byte>, size: nat, timestamp: int, g: Geometry, diskType: int,
                     dataOffsetLow: int, dataOffsetHigh: int,
                     version: seq<byte>, format: seq<byte>, high: seq<byte>, low: seq<byte>, time: seq<byte>,
                     sizeHigh: seq<byte>, sizeLow: seq<byte>, cylinders: seq<byte>, kind: seq<byte>, c: seq<byte>)
    requires g.heads < 256 && g.sectorsPerTrack < 256
    requires |version| == 4 && Be32(version) == 2 && |format| == 4 && Be32(format) == 0x0001_0000
    requires |high| == 4 && Be32(high) == dataOffsetHigh && |low| == 4 && Be32(low) == dataOffsetLow
    requires |time| == 4 && Be32(time) == timestamp
    requires |sizeHigh| == 4 && Be32(sizeHigh) == (size / U32Limit) % U32Limit
    requires |sizeLow| == 4 && Be32(sizeLow) == size % U32Limit
    requires |cylinders| == 2 && Be16(cylinders) == g.cylinders
    requires |kind| == 4 && Be32(kind) == diskType
    requires fields == Ascii(FooterCookie) + version + format + high + low + time
                    + Ascii(CreatorApp) + Zeros(4) + Ascii(CreatorOs)
                    + sizeHigh + sizeLow + sizeHigh + sizeLow
                    + cylinders + [g.heads as byte] + [g.sectorsPerTrack as byte] + kind
    requires |c| == 4 && Be32(c) == Checksum(fields + Zeros(FooterSize - 64))
    requires r == fields + c + Zeros(FooterSize - 68)
    ensures FooterLayout(r, size, timestamp, g, diskType, dataOffsetLow, dataOffsetHigh)
  {
    FooterParts(Ascii(FooterCookie), version, format, high, low, time,
                Ascii(CreatorApp), Zeros(4), Ascii(CreatorOs),
                sizeHigh, sizeLow, sizeHigh, sizeLow,
                cylinders, [g.heads as byte], [g.sectorsPerTrack as byte], kind,
                c, Zeros(FooterSize - 68));
    ChecksumFieldZeroed(fields, c, FooterSize - 68);
    SizeSplit(size);
  }

  /** The fields of a dynamic-disk header, as a decoder would read them. */
  predicate HeaderLayout(r: seq<byte>, tableEntries: int, blockSize: int)
  {
    && |r| == HeaderSize
    && r[0..8] == Ascii(HeaderCookie)
    // no next structure: data offset all ones
    && Be32(r[8..12]) == 0xFFFF_FFFF
    && Be32(r[12..16]) == 0xFFFF_FFFF
    // table offset 0:1536
    && Be32(r[16..20]) == 0
    && Be32(r[20..24]) == TableOffset
    && Be32(r[24..28]) == 0x0001_0000
    && Be32(r[28..32]) == tableEntries
    && Be32(r[32..36]) == blockSize
    && ChecksumValid(r, 36)
    && r[40..] == Zeros(HeaderSize - 40)
  }

  /** `createDynamicDiskHeader`. */
  function CreateDynamicDiskHeader(tableEntries: int, blockSize: int): (r: Result<seq<byte>, EncodeError>)
    ensures r.Ok? <==> IsU32(tableEntries) && IsU32(blockSize)
    ensures r.Ok? ==> HeaderLayout(r.value, tableEntries, blockSize)
  {
    if !(IsU32(tableEntries) && IsU32(blockSize)) then
      Err(RangeError)
    else
      var fields := Ascii(HeaderCookie) + U32BE(0xFFFF_FFFF) + U32BE(0xFFFF_FFFF)
                    + U32BE(0) + U32BE(TableOffset) + U32BE(0x0001_0000)
                    + U32BE(tableEntries) + U32BE(blockSize);
      var c := U32BE(Checksum(fields + Zeros(HeaderSize - 36)));
      var r := fields + c + Zeros(HeaderSize - 40);
      HeaderFields(r, fields, tableEntries, blockSize, U32BE(0xFFFF_FFFF), U32BE(0), U32BE(TableOffset),
                   U32BE(0x0001_0000), U32BE(tableEntries), U32BE(blockSize), c);
      Ok(r)
  }

  /** Slicing the 10-part header field area back into its parts. */
  lemma HeaderParts(p0: seq<byte>, p1: seq<byte>, p2: seq<byte>, p3: seq<byte>, p4: seq<byte>, p5: seq<byte>,
                    p6: seq<byte>, p7: seq<byte>, p8: seq<byte>, p9: seq<byte>)
    requires |p0| == 8 && |p1| == 4 && |p2| == 4 && |p3| == 4 && |p4| == 4 && |p5| == 4 && |p6| == 4
    requires |p7| == 4 && |p8| == 4
    ensures var f := p0 + p1 + p2 + p3 + p4 + p5 + p6 + p7 + p8 + p9;
      && |f| == 40 + |p9|
      && f[0..8] == p0 && f[8..12] == p1 && f[12..16] == p2 && f[16..20] == p3 && f[20..24] == p4
      && f[24..28] == p5 && f[28..32] == p6 && f[32..36] == p7 && f[36..40] == p8 && f[40..] == p9
  {
  }

  /** The header layout, from the values its parts decode to. */
  lemma HeaderFields(r: seq<byte>, fields: seq<byte>, tableEntries: int, blockSize: int,
                     none: seq<byte>, zero: seq<byte>, offset: seq<byte>, version: seq<byte>,
                     entries: seq<byte>, size: seq<byte>, c: seq<byte>)
    requires |none| == 4 && Be32(none) == 0xFFFF_FFFF && |zero| == 4 && Be32(zero) == 0
    requires |offset| == 4 && Be32(offset) == TableOffset
    requires |version| == 4 && Be32(version) == 0x0001_0000
    requires |entries| == 4 && Be32(entries) == tableEntries && |size| == 4 && Be32(size) == blockSize
    requires fields == Ascii(HeaderCookie) + none + none + zero + offset + version + entries + size
    requires |c| == 4 && Be32(c) == Checksum(fields + Zeros(HeaderSize - 36))
    requires r == fields + c + Zeros(HeaderSize - 40)
    ensures HeaderLayout(r, tableEntries, blockSize)
  {
    HeaderParts(Ascii(HeaderCookie), none, none, zero, offset, version, entries, size, c, Zeros(HeaderSize - 40));
    ChecksumFieldZeroed(fields, c, HeaderSize - 40);
  }

  /** An empty block allocation table: its entry count and its bytes. */
  datatype Table = Table(entryCount: nat, buffer: seq<byte>)

  /** `createEmptyTable`: one entry per started block, 4 bytes per entry,
      rounded up to whole sectors, every byte 0xFF (unallocated). */
  function CreateEmptyTable(dataSize: nat, blockSize: nat): (t: Table)
    requires blockSize > 0
    ensures t.entryCount * blockSize >= dataSize
    ensures t.entryCount == 0 || (t.entryCount - 1) * blockSize < dataSize
    ensures |t.buffer| % SectorSize == 0
    ensures 4 * t.entryCount <= |t.buffer| < 4 * t.entryCount + SectorSize
    ensures forall i :: 0 <= i < |t.buffer| ==> t.buffer[i] == 0xFF
  {
    var blockCount := CeilDiv(dataSize, blockSize);
    var tableSizeSectors := CeilDiv(blockCount * 4, SectorSize);
    Table(blockCount, Fill(tableSizeSectors * SectorSize, 0xFF))
  }
}
