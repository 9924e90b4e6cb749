/** Lazily materialised data blocks and the sparse extent that indexes them
    (`Block`, `SparseExtent` in the VHD writer). Blocks are kept in a map
    from block index to block; an index without a block is unallocated. */
module VhdSparse {
  import opened Wrappers
  import opened Bytes
  import opened VhdGeometry
  import opened VhdStructures

  /** The table entry of an unallocated block. */
  const Unallocated: int := 0xFFFF_FFFF

  /** The bitmap view `buffer.slice(0, blockSize / sectorSize / 8)`: the
      slice truncates a fractional size, so the bitmap has
      floor(blockSize / 4096) bytes. */
  function BitmapSize(blockSize: nat): nat {
    blockSize / 4096
  }

  /** Bitmap plus data, rounded up to whole sectors. The source keeps the
      bitmap size fractional; a fractional part only ever adds one byte
      before the rounding up (BufferSizeExact). */
  function BufferSize(blockSize: nat): nat {
    var fraction := if blockSize % 4096 == 0 then 0 else 1;
    CeilDiv(blockSize + BitmapSize(blockSize) + fraction, SectorSize) * SectorSize
  }

  /** `Math.ceil((blockSize + blockSize / sectorSize / 8) / sectorSize) * sectorSize`
      in exact arithmetic: (blockSize + blockSize / 4096) / 512 is
      4097 blockSize / (4096 * 512). */
  lemma BufferSizeExact(blockSize: nat)
    ensures BufferSize(blockSize) == CeilDiv(blockSize * 4097, 4096 * SectorSize) * SectorSize
  {
    var f := BitmapSize(blockSize);
    var rest := blockSize % 4096;
    var q := CeilDiv(blockSize + f + (if rest == 0 then 0 else 1), SectorSize);
    assert blockSize * 4097 == (blockSize + f) * 4096 + rest;
    ScaledCover(q, blockSize + f, rest);
    if q > 0 { ScaledCover(q - 1, blockSize + f, rest); }
    CeilDivUnique(blockSize * 4097, q);
  }

  /** The ceiling of a / (4096 * 512) is the one q with
      q * 4096 * 512 >= a > (q - 1) * 4096 * 512. */
  lemma CeilDivUnique(a: nat, q: nat)
    requires q * (4096 * SectorSize) >= a && (q == 0 || (q - 1) * (4096 * SectorSize) < a)
    ensures q == CeilDiv(a, 4096 * SectorSize)
  {
  }

  /** q sectors hold n bytes and a fractional byte exactly when q * 4096
      sectors hold 4096 n + rest bytes. */
  lemma ScaledCover(q: nat, n: nat, rest: nat)
    requires rest < 4096
    ensures q * SectorSize >= n + (if rest == 0 then 0 else 1)
            <==> q * (4096 * SectorSize) >= n * 4096 + rest
  {
    assert q * (4096 * SectorSize) == (q * SectorSize) * 4096;
  }

  /** The buffer holds the truncated bitmap and a whole block of data. */
  lemma BufferCoversBlock(blockSize: nat)
    ensures BufferSize(blockSize) >= blockSize + BitmapSize(blockSize)
    ensures BufferSize(blockSize) == BlockSectors(blockSize) * SectorSize
  {
  }

  function BlockSectors(blockSize: nat): nat {
    BufferSize(blockSize) / SectorSize
  }

  /** One block: the sector bitmap followed by the data region; both are
      views of one buffer, written out as `bitmap + data`. */
  datatype Block = Block(bitmap: seq<byte>, data: seq<byte>) {
    function Bytes(): seq<byte> {
      bitmap + data
    }
  }

  predicate BlockShape(b: Block, blockSize: nat) {
    && |b.bitmap| == BitmapSize(blockSize)
    && |b.bitmap| + |b.data| == BufferSize(blockSize)
    && forall i :: 0 <= i < |b.bitmap| ==> b.bitmap[i] == 0xFF
  }

  /** `new Block(blockSize)`: every sector marked present, data zeroed. */
  function NewBlock(blockSize: nat): (b: Block)
    requires blockSize > 0
    ensures BlockShape(b, blockSize)
    ensures |b.data| >= blockSize
    ensures forall j :: 0 <= j < |b.data| ==> b.data[j] == 0
    ensures |b.Bytes()| == BlockSectors(blockSize) * SectorSize
  {
    var bm := BitmapSize(blockSize);
    BufferCoversBlock(blockSize);
    Block(Fill(bm, 0xFF), Zeros(BufferSize(blockSize) - bm))
  }

  /** A 512-byte block keeps a fraction of a bitmap byte, which pushes
      the block to two sectors; the truncated bitmap view is empty. */
  lemma SmallBlock()
    ensures |NewBlock(512).bitmap| == 0 && |NewBlock(512).Bytes()| == 2 * SectorSize
  {
  }

  /** The extent: its table geometry, the sector where the first block will
      be written, and the materialised blocks. */
  datatype Extent = Extent(blockSize: nat, entryCount: nat, tableLength: nat, startSector: nat,
                           entries: map<nat, Block>)

  ghost predicate WellFormed(e: Extent) {
    && e.blockSize > 0
    && e.tableLength % SectorSize == 0
    && 4 * e.entryCount <= e.tableLength
    && forall i :: i in e.entries ==> BlockShape(e.entries[i], e.blockSize)
  }

  /** `new SparseExtent(dataSize, blockSize, startOffset)`: an all-unallocated
      table with one entry per started block, blocks to be written after it. */
  function NewExtent(dataSize: nat, blockSize: nat, startOffset: nat): (e: Extent)
    requires blockSize > 0
    ensures WellFormed(e) && e.entries == map[] && e.blockSize == blockSize
    ensures e.entryCount * blockSize >= dataSize && (e.entryCount == 0 || (e.entryCount - 1) * blockSize < dataSize)
    ensures e.tableLength < 4 * e.entryCount + SectorSize
    ensures startOffset % SectorSize == 0 ==> e.startSector * SectorSize == startOffset + e.tableLength
  {
    var table := CreateEmptyTable(dataSize, blockSize);
    var first := startOffset + |table.buffer|;
    SectorMultiple(startOffset, |table.buffer|);
    Extent(blockSize, table.entryCount, |table.buffer|, first / SectorSize, map[])
  }

  lemma SectorMultiple(a: nat, b: nat)
    requires b % SectorSize == 0
    ensures a % SectorSize == 0 ==> (a + b) / SectorSize * SectorSize == a + b
  {
  }

  datatype LayoutError = InvalidBlockGeometry

  /** The data byte at local offset `j` of block `idx` before a write: the
      existing block's byte, or zero for a block not yet created. */
  function Before(e: Extent, idx: nat, j: nat): int
  {
    if idx in e.entries && j < |e.entries[idx].data| then e.entries[idx].data[j] else 0
  }

  /** `_writeBlock`: creates the block on first touch and copies `slice` into
      its data at local offset `offset`; refuses a slice that would run past
      the block. */
  function WriteBlock(e: Extent, slice: seq<byte>, idx: nat, offset: nat): (r: Result<Extent, LayoutError>)
    requires WellFormed(e)
    ensures r.Err? <==> |slice| + offset > e.blockSize
    ensures r.Ok? ==> WellFormed(r.value)
    ensures r.Ok? ==> r.value.(entries := e.entries) == e
    ensures r.Ok? ==> r.value.entries.Keys == e.entries.Keys + {idx}
    ensures r.Ok? ==> forall k :: k in e.entries && k != idx ==> r.value.entries[k] == e.entries[k]
    ensures r.Ok? ==> forall j :: 0 <= j < |r.value.entries[idx].data| ==>
      r.value.entries[idx].data[j] == (if offset <= j < offset + |slice| then slice[j - offset] else Before(e, idx, j))
  {
    if |slice| + offset > e.blockSize then
      Err(InvalidBlockGeometry)
    else
      var block := if idx in e.entries then e.entries[idx] else NewBlock(e.blockSize);
      assert |block.data| >= e.blockSize;
      var written := block.(data := block.data[..offset] + slice + block.data[offset + |slice|..]);
      Ok(e.(entries := e.entries[idx := written]))
  }

  /** What a write of `buf` at byte `off` leaves at local offset `j` of
      block `idx`: the covered byte of `buf`, else what was there. */
  function Expected(before: Extent, buf: seq<byte>, off: nat, idx: nat, j: nat): int
  {
    var pos := idx * before.blockSize + j;
    if j < before.blockSize && off <= pos < off + |buf| then buf[pos - off] else Before(before, idx, j)
  }

  /** The relation between an extent before and after writing `buf` at `off`
      into the blocks `lo` to `hi` (excluded). */
  ghost predicate WriteEffect(before: Extent, after: Extent, buf: seq<byte>, off: nat, lo: nat, hi: nat)
  {
    && after.(entries := before.entries) == before
    && after.entries.Keys == before.entries.Keys + Range(lo, hi)
    && (forall k :: k in before.entries && !(lo <= k < hi) ==> after.entries[k] == before.entries[k])
    && (forall k, j :: lo <= k < hi && 0 <= j < |after.entries[k].data| ==>
          after.entries[k].data[j] == Expected(before, buf, off, k, j))
  }

  /** The block indices `lo` to `hi` (excluded). */
  function Range(lo: nat, hi: nat): (r: set<nat>)
    ensures forall i :: i in r <==> lo <= i < hi
    decreases hi - lo
  {
    if lo >= hi then {} else {lo} + Range(lo + 1, hi)
  }

  /** The part of `buf` that falls into block `i`, and where it starts in
      that block (the two branches of `writeBuffer`'s loop body). */
  function SliceFor(buf: seq<byte>, off: nat, blockSize: nat, i: nat): (r: (seq<byte>, nat))
    requires blockSize > 0
    requires off / blockSize <= i && (i * blockSize < off + |buf| || i == off / blockSize)
  {
    DivFacts(off, blockSize, i);
    var blockDelta: int := off - i * blockSize;
    var endInBuf: int := (i + 1) * blockSize - off;
    assert endInBuf > 0 && endInBuf == blockSize - blockDelta;
    if blockDelta > 0 then
      (buf[..Min(endInBuf, |buf|)], blockDelta)
    else
      (buf[-blockDelta..Min(endInBuf, |buf|)], 0)
  }

  function Min(a: int, b: int): int {
    if a < b then a else b
  }

  lemma DivFacts(off: nat, bs: nat, i: nat)
    requires bs > 0
    ensures i <= off / bs ==> i * bs <= off
    ensures i > off / bs ==> i * bs > off
    ensures i == off / bs ==> off < (i + 1) * bs
  {
    var q := off / bs;
    assert q * bs <= off < (q + 1) * bs;
    if i <= q {
      assert i * bs <= q * bs;
    } else {
      assert i * bs >= (q + 1) * bs;
    }
  }

  /** Writing one block's slice has exactly the expected effect on it. */
  lemma SliceEffect(e: Extent, buf: seq<byte>, off: nat, i: nat, r: Extent)
    requires WellFormed(e)
    requires off / e.blockSize <= i && (i * e.blockSize < off + |buf| || i == off / e.blockSize)
    requires var (slice, local) := SliceFor(buf, off, e.blockSize, i);
      WriteBlock(e, slice, i, local) == Ok(r)
    ensures WriteEffect(e, r, buf, off, i, i + 1)
  {
    var bs := e.blockSize;
    var (slice, local) := SliceFor(buf, off, bs, i);
    DivFacts(off, bs, i);
    forall j | 0 <= j < |r.entries[i].data|
      ensures r.entries[i].data[j] == Expected(e, buf, off, i, j)
    {
      var pos := i * bs + j;
      if off - i * bs > 0 {
        assert i == off / bs;
        assert local == off - i * bs;
        assert |slice| == Min((i + 1) * bs - off, |buf|);
      } else {
        assert local == 0;
        assert |slice| == Min((i + 1) * bs - off, |buf|) - (i * bs - off);
        if local <= j < local + |slice| {
          assert slice[j] == buf[i * bs - off + j];
        }
      }
    }
    assert r.entries.Keys == e.entries.Keys + Range(i, i + 1);
  }

  /** Writes blocks `i` to `end` (excluded), the loop of `writeBuffer`. */
  function WriteBlocks(e: Extent, buf: seq<byte>, off: nat, i: nat, end: nat): (r: Result<Extent, LayoutError>)
    requires WellFormed(e)
    requires off / e.blockSize <= i
    requires end == CeilDiv(off + |buf|, e.blockSize)
    ensures r.Ok?
    ensures WellFormed(r.value)
    ensures WriteEffect(e, r.value, buf, off, i, Max(i, end))
    decreases end - i
  {
    if i >= end then
      assert e.entries.Keys + Range(i, i) == e.entries.Keys;
      Ok(e)
    else
      SliceFits(buf, off, e.blockSize, i, end);
      var (slice, local) := SliceFor(buf, off, e.blockSize, i);
      var once := WriteBlock(e, slice, i, local);
      SliceEffect(e, buf, off, i, once.value);
      var rest := WriteBlocks(once.value, buf, off, i + 1, end);
      ComposeEffects(e, once.value, rest.value, buf, off, i, end);
      rest
  }

  /** Block `i` of a write that reaches it receives a slice that fits it. */
  lemma SliceFits(buf: seq<byte>, off: nat, bs: nat, i: nat, end: nat)
    requires bs > 0 && off / bs <= i < end && end == CeilDiv(off + |buf|, bs)
    ensures i * bs < off + |buf|
    ensures var (slice, local) := SliceFor(buf, off, bs, i); local + |slice| <= bs
  {
    MulMonotone(i, end - 1, bs);
    DivFacts(off, bs, i);
  }

  lemma ComposeEffects(e0: Extent, e1: Extent, e2: Extent, buf: seq<byte>, off: nat, i: nat, end: nat)
    requires i < end
    requires WriteEffect(e0, e1, buf, off, i, i + 1)
    requires WriteEffect(e1, e2, buf, off, i + 1, Max(i + 1, end))
    ensures WriteEffect(e0, e2, buf, off, i, end)
  {
    forall k, j | i + 1 <= k < end && 0 <= j < |e2.entries[k].data|
      ensures e2.entries[k].data[j] == Expected(e0, buf, off, k, j)
    {
      assert Before(e1, k, j) == Before(e0, k, j);
    }
    forall k, j | k == i && 0 <= j < |e2.entries[k].data|
      ensures e2.entries[k].data[j] == Expected(e0, buf, off, k, j)
    {
    }
    assert e2.entries.Keys == e0.entries.Keys + Range(i, end);
  }

  /** `SparseExtent.writeBuffer(buffer, offset)`: it never fails, it
      creates or changes exactly the blocks from `floor(off/bs)` to
      `ceil((off+len)/bs)` (excluded), and every one of them holds the bytes
      of `buf` it covers and its previous contents elsewhere. */
  function WriteBuffer(e: Extent, buf: seq<byte>, off: nat): (r: Result<Extent, LayoutError>)
    requires WellFormed(e)
    ensures r.Ok? && WellFormed(r.value)
    ensures WriteEffect(e, r.value, buf, off, off / e.blockSize,
                        Max(off / e.blockSize, CeilDiv(off + |buf|, e.blockSize)))
  {
    WriteBlocks(e, buf, off, off / e.blockSize, CeilDiv(off + |buf|, e.blockSize))
  }

  function Max(a: int, b: int): int {
    if a < b then b else a
  }

  /** Every byte `buf[k]` lands in block `idx` at local offset `j`, where
      `off + k == idx * bs + j`, and that block keeps an all-ones bitmap. */
  lemma {:induction false} ByteLands(e: Extent, buf: seq<byte>, off: nat, k: nat, idx: nat, j: nat)
    requires WellFormed(e) && k < |buf|
    requires off + k == idx * e.blockSize + j && j < e.blockSize
    ensures var r := WriteBuffer(e, buf, off).value;
      && idx in r.entries
      && j < |r.entries[idx].data|
      && r.entries[idx].data[j] == buf[k]
      && forall b :: 0 <= b < |r.entries[idx].bitmap| ==> r.entries[idx].bitmap[b] == 0xFF
  {
    var bs := e.blockSize;
    var r := WriteBuffer(e, buf, off).value;
    DivUnique(off + k, idx, j, bs);
    LandingBlock(off, |buf|, bs, k);
    assert idx in Range(off / bs, Max(off / bs, CeilDiv(off + |buf|, bs)));
    assert BlockShape(r.entries[idx], bs);
    assert r.entries[idx].data[j] == Expected(e, buf, off, idx, j);
  }

  /** Quotient and remainder are the only such pair. */
  lemma DivUnique(n: nat, q: nat, r: nat, d: nat)
    requires n == q * d + r && r < d
    ensures n / d == q && n % d == r
  {
    var q' := n / d;
    DivisionBounds(n, d);
    MulCancel(q, q' + 1, d);
    MulCancel(q', q + 1, d);
    assert q == q';
  }

  /** The block a byte of a write falls into is one the write touches. */
  lemma LandingBlock(off: nat, len: nat, bs: nat, k: nat)
    requires bs > 0 && k < len
    ensures off / bs <= (off + k) / bs < CeilDiv(off + len, bs)
    ensures ((off + k) / bs) * bs + (off + k) % bs == off + k
  {
    DivMonotone(off, off + k, bs);
    var end := CeilDiv(off + len, bs);
    DivisionBounds(off + k, bs);
    MulCancel((off + k) / bs, end, bs);
  }

  lemma DivMonotone(a: nat, b: nat, d: nat)
    requires d > 0 && a <= b
    ensures a / d <= b / d
  {
    DivisionBounds(a, d);
    DivisionBounds(b, d);
    MulCancel(a / d, b / d + 1, d);
  }

  lemma MulCancel(x: int, y: int, d: nat)
    requires d > 0
    ensures x * d < y * d ==> x < y
  {
    if x >= y {
      MulMonotone(y, x, d);
    }
  }

  lemma MulMonotone(x: int, y: int, d: nat)
    requires x <= y
    ensures x * d <= y * d
  {
    assert y * d - x * d == (y - x) * d;
  }

  // -----------------------------------------------------------------
  // Serialisation (`SparseExtent.writeOnFile`)

  /** Indices below `n` that hold a block, ascending. */
  function Materialised(e: Extent, n: nat): (r: seq<nat>)
    ensures |r| <= n
    ensures forall k :: 0 <= k < |r| ==> r[k] < n
  {
    if n == 0 then [] else Materialised(e, n - 1) + (if n - 1 in e.entries then [n - 1] else [])
  }

  /** Table entry of block `i` in closed form: the `j`-th materialised block
      (counting from zero in index order) sits `j` blocks after the first
      block sector. */
  function Entry(e: Extent, i: nat): int
  {
    if i in e.entries then e.startSector + |Materialised(e, i)| * BlockSectors(e.blockSize) else Unallocated
  }

  predicate OffsetsFit(e: Extent)
  {
    forall i :: 0 <= i < e.entryCount ==> IsU32(Entry(e, i))
  }

  /** The table buffer: one big-endian entry per block, then 0xFF padding. */
  function TableBytes(entries: seq<int>, tableLength: nat): (r: seq<byte>)
    requires forall i :: 0 <= i < |entries| ==> IsU32(entries[i])
    requires 4 * |entries| <= tableLength
    ensures |r| == tableLength
  {
    EntryBytes(entries) + Fill(tableLength - 4 * |entries|, 0xFF)
  }

  function EntryBytes(entries: seq<int>): (r: seq<byte>)
    requires forall i :: 0 <= i < |entries| ==> IsU32(entries[i])
    ensures |r| == 4 * |entries|
  {
    if |entries| == 0 then [] else EntryBytes(entries[..|entries| - 1]) + U32BE(entries[|entries| - 1])
  }

  /** A slice of `a + b` that lies within `a`, or that is exactly `b`. */
  lemma SliceOfAppend(a: seq<byte>, b: seq<byte>, at: nat, len: nat)
    requires at + len <= |a| || (at == |a| && len == |b|)
    ensures at + len <= |a + b|
    ensures at + len <= |a| ==> (a + b)[at..at + len] == a[at..at + len]
    ensures at == |a| && len == |b| ==> (a + b)[at..at + len] == b
  {
  }

  lemma {:induction false} EntryBytesAt(entries: seq<int>, i: nat)
    requires forall k :: 0 <= k < |entries| ==> IsU32(entries[k])
    requires i < |entries|
    ensures EntryBytes(entries)[4 * i..4 * i + 4] == U32BE(entries[i])
    decreases |entries|
  {
    var n := |entries|;
    var init := entries[..n - 1];
    var a := EntryBytes(init);
    var b := U32BE(entries[n - 1]);
    assert EntryBytes(entries) == a + b;
    if i < n - 1 {
      EntryBytesAt(init, i);
      SliceOfAppend(a, b, 4 * i, 4);
    } else {
      SliceOfAppend(a, b, |a|, 4);
    }
  }

  /** Entry `k` of the table can be read back from the emitted bytes,
      whatever follows the table. */
  lemma TableEntryAt(entries: seq<int>, tableLength: nat, rest: seq<byte>, k: nat)
    requires forall i :: 0 <= i < |entries| ==> IsU32(entries[i])
    requires 4 * |entries| <= tableLength && k < |entries|
    ensures Be32((TableBytes(entries, tableLength) + rest)[4 * k..4 * k + 4]) == entries[k]
  {
    EntryBytesAt(entries, k);
    var a := EntryBytes(entries);
    var pad := Fill(tableLength - 4 * |entries|, 0xFF);
    SliceOfAppend(a + pad, rest, 4 * k, 4);
    SliceOfAppend(a, pad, 4 * k, 4);
  }

  /** Past the entries, the table is the 0xFF padding it was allocated with. */
  lemma TablePaddingAt(entries: seq<int>, tableLength: nat, rest: seq<byte>, k: nat)
    requires forall i :: 0 <= i < |entries| ==> IsU32(entries[i])
    requires 4 * |entries| <= k < tableLength
    ensures (TableBytes(entries, tableLength) + rest)[k] == 0xFF
  {
    var a := EntryBytes(entries);
    var pad := Fill(tableLength - 4 * |entries|, 0xFF);
    assert (a + pad + rest)[k] == pad[k - |a|];
  }

  /** The blocks below `n`, in index order. */
  function BlocksBytes(e: Extent, n: nat): seq<byte>
  {
    if n == 0 then [] else BlocksBytes(e, n - 1) + (if n - 1 in e.entries then e.entries[n - 1].Bytes() else [])
  }

  lemma {:induction false} BlocksBytesLength(e: Extent, n: nat)
    requires WellFormed(e)
    ensures |BlocksBytes(e, n)| == |Materialised(e, n)| * BufferSize(e.blockSize)
  {
    if n > 0 {
      BlocksBytesLength(e, n - 1);
      if n - 1 in e.entries {
        assert |e.entries[n - 1].Bytes()| == BufferSize(e.blockSize);
        MulSucc(|Materialised(e, n - 1)|, BufferSize(e.blockSize));
      }
    }
  }

  lemma MulSucc(m: int, size: int)
    ensures (m + 1) * size == m * size + size
  {
  }

  /** The blocks below `i` are a prefix of the blocks below `n`. */
  lemma {:induction false} BlocksPrefix(e: Extent, i: nat, n: nat)
    requires i <= n
    ensures |BlocksBytes(e, i)| <= |BlocksBytes(e, n)|
    ensures BlocksBytes(e, n)[..|BlocksBytes(e, i)|] == BlocksBytes(e, i)
    decreases n
  {
    if i < n {
      BlocksPrefix(e, i, n - 1);
      var prev := BlocksBytes(e, n - 1);
      assert BlocksBytes(e, n)[..|prev|] == prev;
    }
  }

  /** Block `i` is found in the block area right after the blocks before
      it. */
  lemma BlockPosition(e: Extent, n: nat, i: nat)
    requires i < n && i in e.entries
    ensures var at := |BlocksBytes(e, i)|;
      && at + |e.entries[i].Bytes()| <= |BlocksBytes(e, n)|
      && BlocksBytes(e, n)[at..at + |e.entries[i].Bytes()|] == e.entries[i].Bytes()
  {
    BlocksPrefix(e, i + 1, n);
    var before := BlocksBytes(e, i);
    var block := e.entries[i].Bytes();
    assert BlocksBytes(e, i + 1) == before + block;
    assert BlocksBytes(e, n)[|before|..|before| + |block|] == BlocksBytes(e, i + 1)[|before|..];
  }

  /** The first loop of `writeOnFile`: assigns sector offsets to the
      materialised blocks in index order, failing as `writeUInt32BE` does on
      an offset past 32 bits; unallocated entries keep 0xFFFFFFFF. */
  method AssignOffsets(e: Extent) returns (r: Result<seq<int>, EncodeError>)
    requires WellFormed(e)
    ensures r.Ok? <==> OffsetsFit(e)
    ensures r.Ok? ==> |r.value| == e.entryCount
    ensures r.Ok? ==> forall k :: 0 <= k < e.entryCount ==> r.value[k] == Entry(e, k) && IsU32(r.value[k])
  {
    var table := seq(e.entryCount, _ => Unallocated);
    var current := e.startSector;
    var i := 0;
    while i < e.entryCount
      invariant 0 <= i <= e.entryCount && |table| == e.entryCount
      invariant current == e.startSector + |Materialised(e, i)| * BlockSectors(e.blockSize)
      invariant forall k :: 0 <= k < i ==> table[k] == Entry(e, k) && IsU32(table[k])
      invariant forall k :: i <= k < e.entryCount ==> table[k] == Unallocated
    {
      MaterialisedStep(e, i);
      if i in e.entries {
        if !IsU32(current) {
          assert Entry(e, i) == current;
          return Err(RangeError);
        }
        table := table[i := current];
        current := current + BlockSectors(e.blockSize);
      }
      i := i + 1;
    }
    return Ok(table);
  }

  lemma MaterialisedStep(e: Extent, i: nat)
    ensures var step := if i in e.entries then 1 else 0;
      |Materialised(e, i + 1)| == |Materialised(e, i)| + step
      && e.startSector + |Materialised(e, i + 1)| * BlockSectors(e.blockSize)
         == e.startSector + |Materialised(e, i)| * BlockSectors(e.blockSize) + step * BlockSectors(e.blockSize)
  {
    var step := if i in e.entries then 1 else 0;
    var m := |Materialised(e, i)|;
    assert |Materialised(e, i + 1)| == m + step;
    Distribute(m, step, BlockSectors(e.blockSize));
  }

  lemma Distribute(a: int, b: int, c: int)
    ensures (a + b) * c == a * c + b * c
  {
  }

  /** `SparseExtent.writeOnFile`: the table (entry `i` decoding to the
      closed-form offset of block `i`) followed by the materialised blocks
      in index order; fails exactly when some offset does not fit 32 bits. */
  method Serialize(e: Extent) returns (r: Result<seq<byte>, EncodeError>)
    requires WellFormed(e)
    ensures r.Ok? <==> OffsetsFit(e)
    ensures r.Ok? ==> |r.value| == e.tableLength + |BlocksBytes(e, e.entryCount)|
    ensures r.Ok? ==> forall i :: 0 <= i < e.entryCount ==>
      Be32(r.value[4 * i..4 * i + 4]) == Entry(e, i)
    ensures r.Ok? ==> forall k :: 4 * e.entryCount <= k < e.tableLength ==> r.value[k] == 0xFF
    ensures r.Ok? ==> r.value[e.tableLength..] == BlocksBytes(e, e.entryCount)
  {
    var table :- AssignOffsets(e);
    var out := TableBytes(table, e.tableLength);
    var blocks := [];
    var i := 0;
    while i < e.entryCount
      invariant 0 <= i <= e.entryCount
      invariant blocks == BlocksBytes(e, i)
    {
      if i in e.entries {
        blocks := blocks + e.entries[i].Bytes();
      }
      i := i + 1;
    }
    r := Ok(out + blocks);
    forall k | 0 <= k < e.entryCount
      ensures Be32(r.value[4 * k..4 * k + 4]) == Entry(e, k)
    {
      TableEntryAt(table, e.tableLength, blocks, k);
    }
    forall k | 4 * e.entryCount <= k < e.tableLength
      ensures r.value[k] == 0xFF
    {
      TablePaddingAt(table, e.tableLength, blocks, k);
    }
    assert r.value[e.tableLength..] == blocks;
  }
}
