/** The dynamic VHD writer (`VHDFile`): a footer, a dynamic-disk header, the
    block allocation table and the blocks, then the footer again. The file
    is modelled as the byte sequence the writes append, in order. */
module DynamicVhd {
  import opened Wrappers
  import opened Bytes
  import opened VhdGeometry
  import opened VhdStructures
  import opened VhdSparse

  /** `this.blockSize = 0x00200000`: 2 MiB blocks. */
  const DefaultBlockSize: nat := 0x20_0000

  /** The table starts right after the footer copy and the header. */
  const TableStart: nat := FooterSize + HeaderSize

  /** Upper bound on the table entries of a disk of at most `MaxSectors`. */
  const MaxEntries: nat := 65281

  datatype VhdFile = VhdFile(geometry: Geometry, timestamp: int, sparse: Extent)

  /** What the constructor establishes and `writeBuffer` keeps. */
  ghost predicate Valid(f: VhdFile)
  {
    && WellFormed(f.sparse)
    && f.sparse.blockSize == DefaultBlockSize
    && f.geometry.cylinders <= 65535 && f.geometry.heads <= 16 && f.geometry.sectorsPerTrack <= 255
    && f.sparse.entryCount <= MaxEntries
    && f.sparse.startSector * SectorSize == TableStart + f.sparse.tableLength
    && f.sparse.tableLength < 4 * f.sparse.entryCount + SectorSize
  }

  /** `new VHDFile(virtualSize, timestamp)`: fails as `computeGeometryForSize`
      does; otherwise an empty extent sized for the aligned size, its table
      placed after footer and header. */
  function NewVhdFile(virtualSize: nat, timestamp: int): (r: Result<VhdFile, GeometryError>)
    ensures r.Err? <==> TotalSectors(virtualSize) > MaxSectors
    ensures r.Ok? ==> Valid(r.value) && r.value.timestamp == timestamp
    ensures r.Ok? ==> ValidFor(r.value.geometry, TotalSectors(virtualSize))
    ensures r.Ok? ==> r.value.sparse.entries == map[]
    ensures r.Ok? ==> var n := r.value.sparse.entryCount;
      n * DefaultBlockSize >= r.value.geometry.actualSize
      && (n == 0 || (n - 1) * DefaultBlockSize < r.value.geometry.actualSize)
  {
    var g :- ComputeGeometry(virtualSize);
    var sparse := NewExtent(g.actualSize, DefaultBlockSize, TableStart);
    NewFileValid(g, TotalSectors(virtualSize), timestamp, sparse);
    Ok(VhdFile(g, timestamp, sparse))
  }

  lemma NewFileValid(g: Geometry, t: nat, timestamp: int, sparse: Extent)
    requires ValidFor(g, t) && t <= MaxSectors
    requires sparse == NewExtent(g.actualSize, DefaultBlockSize, TableStart)
    ensures Valid(VhdFile(g, timestamp, sparse))
  {
    AlignedSizeBound(g, t);
    EntryCountBound(sparse.entryCount, g.actualSize);
  }

  lemma AlignedSizeBound(g: Geometry, t: nat)
    requires ValidFor(g, t) && t <= MaxSectors
    ensures g.actualSize <= MaxSectors * SectorSize
  {
    MulMonotone(g.cylinders * g.heads * g.sectorsPerTrack, MaxSectors, SectorSize);
  }

  /** `VHDFile.writeBuffer`: the extent's write; geometry and timestamp are
      untouched and the file stays valid. */
  function WriteBuffer(f: VhdFile, buf: seq<byte>, off: nat): (r: VhdFile)
    requires Valid(f)
    ensures Valid(r)
    ensures r.geometry == f.geometry && r.timestamp == f.timestamp
    ensures WriteEffect(f.sparse, r.sparse, buf, off, off / DefaultBlockSize,
                        Max(off / DefaultBlockSize, CeilDiv(off + |buf|, DefaultBlockSize)))
  {
    f.(sparse := VhdSparse.WriteBuffer(f.sparse, buf, off).value)
  }

  /** What the written file holds, read back field by field. */
  ghost predicate FileLayout(f: VhdFile, out: seq<byte>)
    requires WellFormed(f.sparse)
  {
    var e := f.sparse;
    && |out| == TableStart + e.tableLength + |BlocksBytes(e, e.entryCount)| + FooterSize
    && FooterLayout(out[..FooterSize], f.geometry.actualSize, f.timestamp, f.geometry, DynamicDiskType, TableStart - HeaderSize, 0)
    && HeaderLayout(out[FooterSize..TableStart], e.entryCount, e.blockSize)
    && out[|out| - FooterSize..] == out[..FooterSize]
    && TableAt(e, out)
    && BlocksAt(e, out)
  }

  /** Entry `i` of the table, read at `TableStart`, is the closed-form offset
      of block `i`. */
  ghost predicate TableAt(e: Extent, out: seq<byte>)
  {
    && TableStart + 4 * e.entryCount <= |out|
    && forall i :: 0 <= i < e.entryCount ==>
         Be32(out[TableStart + 4 * i..TableStart + 4 * i + 4]) == Entry(e, i)
  }

  /** Every block present in the table sits at the sector its entry names. */
  ghost predicate BlocksAt(e: Extent, out: seq<byte>)
  {
    forall i :: 0 <= i < e.entryCount && i in e.entries ==> BlockAt(e, out, i)
  }

  ghost predicate BlockAt(e: Extent, out: seq<byte>, i: nat)
    requires i in e.entries
  {
    var start := Entry(e, i) * SectorSize;
    start + |e.entries[i].Bytes()| <= |out| && out[start..start + |e.entries[i].Bytes()|] == e.entries[i].Bytes()
  }

  /** No disk this writer accepts has more than `MaxEntries` blocks. */
  lemma EntryCountBound(n: nat, actualSize: nat)
    requires actualSize <= MaxSectors * SectorSize
    requires n == 0 || (n - 1) * DefaultBlockSize < actualSize
    ensures n <= MaxEntries
  {
    if n > 0 {
      MulCancel(n - 1, MaxEntries, DefaultBlockSize);
    }
  }

  /** Every table entry of such a disk fits 32 bits, so the table write never
      throws. */
  lemma {:induction false} OffsetsFitInDisk(f: VhdFile)
    requires Valid(f)
    ensures OffsetsFit(f.sparse)
  {
    var e := f.sparse;
    assert BlockSectors(DefaultBlockSize) == 4097;
    assert e.startSector < 1024 by {
      MulCancel(e.startSector, 1024, SectorSize);
    }
    forall i | 0 <= i < e.entryCount
      ensures IsU32(Entry(e, i))
    {
      if i in e.entries {
        MulMonotone(|Materialised(e, i)|, MaxEntries, 4097);
      }
    }
  }

  /** A materialised block starts right after the table and the blocks
      materialised before it. */
  lemma EntryPosition(f: VhdFile, i: nat)
    requires Valid(f) && i in f.sparse.entries
    ensures Entry(f.sparse, i) * SectorSize == TableStart + f.sparse.tableLength + |BlocksBytes(f.sparse, i)|
  {
    var m := |Materialised(f.sparse, i)|;
    BlocksBytesLength(f.sparse, i);
    assert BlockSectors(DefaultBlockSize) == 4097;
    assert BufferSize(DefaultBlockSize) == 2097664;
    assert Entry(f.sparse, i) == f.sparse.startSector + m * 4097;
  }

  /** `VHDFile.writeFile`: footer, header, table and blocks, footer; it fails
      exactly when the timestamp is not a 32-bit unsigned value. */
  method WriteFile(f: VhdFile) returns (r: Result<seq<byte>, EncodeError>)
    requires Valid(f)
    ensures r.Ok? <==> IsU32(f.timestamp)
    ensures r.Ok? ==> FileLayout(f, r.value)
  {
    OffsetsFitInDisk(f);
    var footer :- CreateFooter(f.geometry.actualSize, f.timestamp, f.geometry, DynamicDiskType, TableStart - HeaderSize, 0);
    // neither of these can fail on a valid file
    var header := CreateDynamicDiskHeader(f.sparse.entryCount, f.sparse.blockSize).value;
    var serialized := Serialize(f.sparse);
    var extent := serialized.value;
    var out := footer + header + extent + footer;
    Assemble(f, footer, header, extent, out);
    return Ok(out);
  }

  /** The four pieces `writeFile` appends make up a file with the expected
      layout. */
  lemma Assemble(f: VhdFile, footer: seq<byte>, header: seq<byte>, extent: seq<byte>, out: seq<byte>)
    requires Valid(f)
    requires FooterLayout(footer, f.geometry.actualSize, f.timestamp, f.geometry, DynamicDiskType, TableStart - HeaderSize, 0)
    requires HeaderLayout(header, f.sparse.entryCount, f.sparse.blockSize)
    requires |extent| == f.sparse.tableLength + |BlocksBytes(f.sparse, f.sparse.entryCount)|
    requires forall i :: 0 <= i < f.sparse.entryCount ==> Be32(extent[4 * i..4 * i + 4]) == Entry(f.sparse, i)
    requires extent[f.sparse.tableLength..] == BlocksBytes(f.sparse, f.sparse.entryCount)
    requires out == footer + header + extent + footer
    ensures FileLayout(f, out)
  {
    Envelope(footer, header, extent, out);
    TablePart(f.sparse, footer + header, extent, footer, out);
    BlocksPart(f, footer + header, extent, footer, out);
  }

  lemma Envelope(footer: seq<byte>, header: seq<byte>, extent: seq<byte>, out: seq<byte>)
    requires |footer| == FooterSize && |header| == HeaderSize && out == footer + header + extent + footer
    ensures out[..FooterSize] == footer && out[FooterSize..TableStart] == header
    ensures out[|out| - FooterSize..] == footer
  {
    assert out[..FooterSize] == footer;
    assert out[FooterSize..TableStart] == header;
    assert out[|out| - FooterSize..] == footer;
  }

  /** `out[|pre| + a..|pre| + b]` of `pre + mid + post` is `mid[a..b]`. */
  lemma SliceOfMiddle(pre: seq<byte>, mid: seq<byte>, post: seq<byte>, a: nat, b: nat)
    requires a <= b <= |mid|
    ensures (pre + mid + post)[|pre| + a..|pre| + b] == mid[a..b]
  {
    var out := pre + mid + post;
    forall x | 0 <= x < b - a
      ensures out[|pre| + a..|pre| + b][x] == mid[a..b][x]
    {
      assert out[|pre| + a + x] == mid[a + x];
    }
  }

  /** In a written table, blocks never written read 0xFFFFFFFF. */
  lemma UnallocatedEntries(e: Extent, out: seq<byte>)
    requires TableAt(e, out)
    ensures forall i :: 0 <= i < e.entryCount && i !in e.entries ==>
      Be32(out[TableStart + 4 * i..TableStart + 4 * i + 4]) == Unallocated
  {
    forall i | 0 <= i < e.entryCount && i !in e.entries
      ensures Be32(out[TableStart + 4 * i..TableStart + 4 * i + 4]) == Unallocated
    {
      assert Be32(out[TableStart + 4 * i..TableStart + 4 * i + 4]) == Entry(e, i);
    }
  }

  lemma TablePart(e: Extent, pre: seq<byte>, extent: seq<byte>, post: seq<byte>, out: seq<byte>)
    requires |pre| == TableStart && 4 * e.entryCount <= |extent|
    requires forall i :: 0 <= i < e.entryCount ==> Be32(extent[4 * i..4 * i + 4]) == Entry(e, i)
    requires out == pre + extent + post
    ensures TableAt(e, out)
  {
    forall i | 0 <= i < e.entryCount
      ensures Be32(out[TableStart + 4 * i..TableStart + 4 * i + 4]) == Entry(e, i)
    {
      SliceOfMiddle(pre, extent, post, 4 * i, 4 * i + 4);
    }
  }

  lemma BlocksPart(f: VhdFile, pre: seq<byte>, extent: seq<byte>, post: seq<byte>, out: seq<byte>)
    requires Valid(f) && |pre| == TableStart
    requires |extent| == f.sparse.tableLength + |BlocksBytes(f.sparse, f.sparse.entryCount)|
    requires extent[f.sparse.tableLength..] == BlocksBytes(f.sparse, f.sparse.entryCount)
    requires out == pre + extent + post
    ensures BlocksAt(f.sparse, out)
  {
    var e := f.sparse;
    forall i | 0 <= i < e.entryCount && i in e.entries
      ensures BlockAt(e, out, i)
    {
      OneBlockPart(f, pre, extent, post, out, i);
    }
  }

  lemma OneBlockPart(f: VhdFile, pre: seq<byte>, extent: seq<byte>, post: seq<byte>, out: seq<byte>, i: nat)
    requires Valid(f) && |pre| == TableStart
    requires |extent| == f.sparse.tableLength + |BlocksBytes(f.sparse, f.sparse.entryCount)|
    requires extent[f.sparse.tableLength..] == BlocksBytes(f.sparse, f.sparse.entryCount)
    requires out == pre + extent + post
    requires i < f.sparse.entryCount && i in f.sparse.entries
    ensures BlockAt(f.sparse, out, i)
  {
    var e := f.sparse;
    EntryPosition(f, i);
    BlockPosition(e, e.entryCount, i);
    BlockInOutput(pre, extent, post, e.tableLength, BlocksBytes(e, e.entryCount), |BlocksBytes(e, i)|, e.entries[i].Bytes());
  }

  lemma BlockInOutput(pre: seq<byte>, extent: seq<byte>, post: seq<byte>, tableLength: nat, blocks: seq<byte>,
                      at: nat, bytes: seq<byte>)
    requires |extent| == tableLength + |blocks| && extent[tableLength..] == blocks
    requires at + |bytes| <= |blocks| && blocks[at..at + |bytes|] == bytes
    ensures var start := |pre| + tableLength + at;
      start + |bytes| <= |pre + extent + post| && (pre + extent + post)[start..start + |bytes|] == bytes
  {
    SliceOfMiddle(pre, extent, post, tableLength + at, tableLength + at + |bytes|);
    assert extent[tableLength + at..tableLength + at + |bytes|] == blocks[at..at + |bytes|];
  }

  /** Round trip of the whole writer: after `writeBuffer(buf, off)`, byte
      `k` of `buf` belongs to block `idx` at offset `j` in it
      (`off + k == idx * blockSize + j`); the table entry of that block names
      the sector where the block starts in the written file, and the byte is
      found there after the 512-byte bitmap, `j` bytes in. */
  lemma {:induction false} ReadBack(f: VhdFile, buf: seq<byte>, off: nat, out: seq<byte>, k: nat, idx: nat, j: nat)
    requires Valid(f) && k < |buf|
    requires off + k == idx * DefaultBlockSize + j && j < DefaultBlockSize && idx < f.sparse.entryCount
    requires TableAt(WriteBuffer(f, buf, off).sparse, out) && BlocksAt(WriteBuffer(f, buf, off).sparse, out)
    ensures var at := Be32(out[TableStart + 4 * idx..TableStart + 4 * idx + 4]) * SectorSize
                      + BitmapSize(DefaultBlockSize) + j;
      at < |out| && out[at] == buf[k]
  {
    var e := WriteBuffer(f, buf, off).sparse;
    LandsIn(f, buf, off, k, idx, j);
    BlockByteAt(e, out, idx, j);
  }

  lemma LandsIn(f: VhdFile, buf: seq<byte>, off: nat, k: nat, idx: nat, j: nat)
    requires Valid(f) && k < |buf|
    requires off + k == idx * DefaultBlockSize + j && j < DefaultBlockSize
    ensures var e := WriteBuffer(f, buf, off).sparse;
      && idx in e.entries && j < |e.entries[idx].data| && e.entries[idx].data[j] == buf[k]
      && |e.entries[idx].bitmap| == BitmapSize(DefaultBlockSize)
  {
    ByteLands(f.sparse, buf, off, k, idx, j);
    assert WriteBuffer(f, buf, off).sparse == VhdSparse.WriteBuffer(f.sparse, buf, off).value;
  }

  /** Data byte `j` of a block listed in the table is found after the
      bitmap of the block, at the sector its entry names. */
  lemma BlockByteAt(e: Extent, out: seq<byte>, i: nat, j: nat)
    requires WellFormed(e) && TableAt(e, out) && BlocksAt(e, out)
    requires i < e.entryCount && i in e.entries && j < |e.entries[i].data|
    ensures var at := Be32(out[TableStart + 4 * i..TableStart + 4 * i + 4]) * SectorSize
                      + |e.entries[i].bitmap| + j;
      at < |out| && out[at] == e.entries[i].data[j]
  {
    var block := e.entries[i];
    var start := Entry(e, i) * SectorSize;
    assert Be32(out[TableStart + 4 * i..TableStart + 4 * i + 4]) == Entry(e, i);
    assert BlockAt(e, out, i);
    SliceAt(out, start, block.Bytes(), |block.bitmap| + j);
    assert block.Bytes()[|block.bitmap| + j] == block.data[j];
  }

  lemma SliceAt(out: seq<byte>, start: nat, bytes: seq<byte>, p: nat)
    requires start + |bytes| <= |out| && out[start..start + |bytes|] == bytes && p < |bytes|
    ensures out[start + p] == bytes[p]
  {
    assert out[start..start + |bytes|][p] == out[start + p];
  }
}
