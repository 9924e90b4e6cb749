/** The fixed-disk stream (`ReadableRawVHDStream`): the chunks it queues
    while reading grains from the disk parser, in order. Node's stream
    plumbing (`_read`, back-pressure, `process.nextTick`) is not modelled:
    the stream is the list of chunks its thunks return, and a thunk that
    would throw is a chunk that fails to materialise. */
module VhdStream {
  import opened Wrappers
  import opened Bytes
  import opened VhdGeometry
  import opened VhdStructures

  /** Zero padding is queued in chunks of at most 1 MiB. */
  const PaddingChunk: nat := 1024 * 1024

  /** A grain read from the disk parser: its byte offset and its bytes. */
  datatype Grain = Grain(lbaBytes: nat, grain: seq<byte>)

  /** What a queued thunk returns: `Buffer.alloc(n)`, a grain, or the
      footer. */
  datatype Chunk = Alloc(n: int) | Data(bytes: seq<byte>) | Trailer

  /** `Buffer.alloc` throws a RangeError on a negative size. */
  datatype AllocError = NegativeSize

  datatype StreamError = TooBig | FooterRange

  datatype RawStream = RawStream(size: nat, footer: seq<byte>)

  /** The constructor: the footer of a fixed disk of the requested size
      (not the aligned one), with both data-offset halves all ones. It fails
      as `computeGeometryForSize` and `writeUInt32BE` do. */
  function NewRawStream(size: nat, timestamp: int): (r: Result<RawStream, StreamError>)
    ensures r.Ok? <==> TotalSectors(size) <= MaxSectors && IsU32(timestamp)
    ensures r.Ok? ==> r.value.size == size
    ensures r.Ok? ==> FooterLayout(r.value.footer, size, timestamp, ComputeGeometry(size).value, FixedDiskType, NoOffset, NoOffset)
  {
    match ComputeGeometry(size)
    case Err(_) => Err(TooBig)
    case Ok(g) =>
      match CreateFooter(size, timestamp, g, FixedDiskType, NoOffset, NoOffset)
      case Err(_) => Err(FooterRange)
      case Ok(footer) => Ok(RawStream(size, footer))
  }

  /** `len % 1 MiB` as JavaScript computes it: truncated, with the sign of
      `len`. */
  function JsRemainder(len: int): (r: int)
    ensures len >= 0 ==> r == len % PaddingChunk
    ensures len < 0 ==> -(PaddingChunk as int) < r <= 0 && (r == 0 <==> len % PaddingChunk == 0)
  {
    if len >= 0 then len % PaddingChunk else -((-len) % PaddingChunk)
  }

  /** `filePadding(len)`: nothing for a zero length; otherwise
      `floor(len / 1 MiB)` full chunks (none when negative) and one chunk of
      the remainder. */
  function FilePadding(len: int): (r: seq<Chunk>)
    ensures forall i :: 0 <= i < |r| ==> r[i].Alloc? && r[i].n <= PaddingChunk
  {
    if len == 0 then []
    else
      var count := if len / PaddingChunk < 0 then 0 else len / PaddingChunk;
      seq(count, _ => Alloc(PaddingChunk)) + [Alloc(JsRemainder(len))]
  }

  /** `pushNextBlock` on a grain: pad up to the grain, queue it, move past
      it. The `bool` is the order error the source emits when the grain
      starts before the current position. */
  function PushGrain(position: int, g: Grain): (r: Push)
    ensures r.next == g.lbaBytes + |g.grain|
    ensures r.outOfOrder <==> g.lbaBytes < position
    ensures |r.chunks| > 0 && r.chunks[|r.chunks| - 1] == Data(g.grain)
  {
    var paddingLength := g.lbaBytes - position;
    Push(FilePadding(paddingLength) + [Data(g.grain)], g.lbaBytes + |g.grain|, paddingLength < 0)
  }

  /** The chunks one call queues, the position after it, and whether it
      emitted the order error. */
  datatype Push = Push(chunks: seq<Chunk>, next: int, outOfOrder: bool)

  /** `pushNextBlock` at the end of the grains: pad up to the size, then the
      footer. */
  function PushEnd(size: nat, position: int): seq<Chunk>
  {
    FilePadding(size - position) + [Trailer]
  }

  /** The whole chunk sequence from `position` on, and whether an order
      error was emitted on the way. */
  function Run(size: nat, position: int, grains: seq<Grain>): (r: (seq<Chunk>, bool))
    decreases |grains|
  {
    if |grains| == 0 then (PushEnd(size, position), false)
    else
      var step := PushGrain(position, grains[0]);
      var (rest, badRest) := Run(size, step.next, grains[1..]);
      (step.chunks + rest, step.outOfOrder || badRest)
  }

  function ChunkBytes(c: Chunk, footer: seq<byte>): Result<seq<byte>, AllocError>
  {
    match c
    case Alloc(n) => if n < 0 then Err(NegativeSize) else Ok(Zeros(n))
    case Data(bytes) => Ok(bytes)
    case Trailer => Ok(footer)
  }

  /** The bytes a reader of the stream receives, or the first failure. */
  function Flatten(chunks: seq<Chunk>, footer: seq<byte>): Result<seq<byte>, AllocError>
  {
    if |chunks| == 0 then Ok([])
    else
      var head :- ChunkBytes(chunks[0], footer);
      var tail :- Flatten(chunks[1..], footer);
      Ok(head + tail)
  }

  lemma {:induction false} FlattenAppend(a: seq<Chunk>, b: seq<Chunk>, footer: seq<byte>)
    ensures Flatten(a + b, footer).Ok? <==> Flatten(a, footer).Ok? && Flatten(b, footer).Ok?
    ensures Flatten(a + b, footer).Ok? ==>
      Flatten(a + b, footer).value == Flatten(a, footer).value + Flatten(b, footer).value
    decreases |a|
  {
    if |a| == 0 {
      assert a + b == b;
    } else {
      assert (a + b)[1..] == a[1..] + b;
      FlattenAppend(a[1..], b, footer);
    }
  }

  lemma FlattenOne(c: Chunk, footer: seq<byte>)
    ensures Flatten([c], footer) == ChunkBytes(c, footer)
  {
    assert [c][1..] == [];
    var r := ChunkBytes(c, footer);
    if r.Ok? {
      assert r.value + [] == r.value;
    }
  }

  lemma {:induction false} FullChunks(count: nat, footer: seq<byte>)
    ensures Flatten(seq(count, _ => Alloc(PaddingChunk)), footer) == Ok(Zeros(count * PaddingChunk))
  {
    if count > 0 {
      var s := seq(count, _ => Alloc(PaddingChunk));
      assert s[1..] == seq(count - 1, _ => Alloc(PaddingChunk));
      FullChunks(count - 1, footer);
      assert Zeros(PaddingChunk) + Zeros((count - 1) * PaddingChunk) == Zeros(count * PaddingChunk);
    }
  }

  /** A padding of non-negative length yields exactly that many zero bytes,
      split into `floor(len / 1 MiB)` full chunks plus the remainder. */
  lemma PaddingZeros(len: nat, footer: seq<byte>)
    ensures Flatten(FilePadding(len), footer) == Ok(Zeros(len))
    ensures |FilePadding(len)| == if len == 0 then 0 else len / PaddingChunk + 1
  {
    if len > 0 {
      var full := seq(len / PaddingChunk, _ => Alloc(PaddingChunk));
      FullChunks(len / PaddingChunk, footer);
      FlattenAppend(full, [Alloc(len % PaddingChunk)], footer);
      FlattenOne(Alloc(len % PaddingChunk), footer);
      assert Zeros(len / PaddingChunk * PaddingChunk) + Zeros(len % PaddingChunk) == Zeros(len);
    }
  }

  /** A negative padding queues no full chunk; its remainder chunk throws
      unless the length is a whole number of MiB (`Buffer.alloc(-0)`). */
  lemma NegativePadding(len: int, footer: seq<byte>)
    requires len < 0
    ensures |FilePadding(len)| == 1
    ensures Flatten(FilePadding(len), footer).Err? <==> len % PaddingChunk != 0
  {
    assert FilePadding(len) == [Alloc(JsRemainder(len))];
  }

  /** Grains start at or after the end of the previous one (the first at or
      after `position`). */
  ghost predicate Ascending(position: int, grains: seq<Grain>)
  {
    && (|grains| > 0 ==> grains[0].lbaBytes >= position)
    && forall i :: 0 < i < |grains| ==> grains[i].lbaBytes >= grains[i - 1].lbaBytes + |grains[i - 1].grain|
  }

  /** Ascending, and the last grain ends within the disk. */
  ghost predicate InOrder(position: int, grains: seq<Grain>, size: nat)
  {
    && Ascending(position, grains)
    && position <= size
    && (|grains| > 0 ==> grains[|grains| - 1].lbaBytes + |grains[|grains| - 1].grain| <= size)
  }

  /** Reference image: the byte of the first grain covering `p`, zero where
      no grain does. */
  function Covering(grains: seq<Grain>, p: int): byte
  {
    if |grains| == 0 then 0
    else if grains[0].lbaBytes <= p < grains[0].lbaBytes + |grains[0].grain| then grains[0].grain[p - grains[0].lbaBytes]
    else Covering(grains[1..], p)
  }

  lemma AscendingTail(position: int, grains: seq<Grain>)
    requires |grains| > 0
    ensures Ascending(position, grains) <==>
      grains[0].lbaBytes >= position && Ascending(grains[0].lbaBytes + |grains[0].grain|, grains[1..])
  {
    var rest := grains[1..];
    if grains[0].lbaBytes >= position && Ascending(grains[0].lbaBytes + |grains[0].grain|, rest) {
      forall i | 0 < i < |grains|
        ensures grains[i].lbaBytes >= grains[i - 1].lbaBytes + |grains[i - 1].grain|
      {
        if i > 1 {
          assert rest[i - 1] == grains[i] && rest[i - 2] == grains[i - 1];
        }
      }
    }
  }

  /** The source emits its order error exactly when some grain starts
      before the end of the previous one (or before the start position). */
  lemma {:induction false} OrderErrorIff(size: nat, position: int, grains: seq<Grain>)
    ensures Run(size, position, grains).1 <==> !Ascending(position, grains)
    decreases |grains|
  {
    if |grains| > 0 {
      AscendingTail(position, grains);
      OrderErrorIff(size, grains[0].lbaBytes + |grains[0].grain|, grains[1..]);
    }
  }

  /** No grain after position `e` covers a byte before `e`. */
  lemma {:induction false} NothingBefore(e: int, grains: seq<Grain>, p: int)
    requires Ascending(e, grains) && p < e
    ensures Covering(grains, p) == 0
    decreases |grains|
  {
    if |grains| > 0 {
      AscendingTail(e, grains);
      NothingBefore(grains[0].lbaBytes + |grains[0].grain|, grains[1..], p);
    }
  }

  /** Every grain starts at or after `position`. */
  lemma {:induction false} StartsAfter(position: int, grains: seq<Grain>, i: nat)
    requires Ascending(position, grains) && i < |grains|
    ensures grains[i].lbaBytes >= position
  {
    if i > 0 {
      StartsAfter(position, grains, i - 1);
    }
  }

  /** After the first grain, the rest is still in order. */
  lemma RestInOrder(position: int, grains: seq<Grain>, size: nat)
    requires InOrder(position, grains, size) && |grains| > 0
    ensures var end := grains[0].lbaBytes + |grains[0].grain|;
      grains[0].lbaBytes >= position && InOrder(end, grains[1..], size)
  {
    var end := grains[0].lbaBytes + |grains[0].grain|;
    var rest := grains[1..];
    AscendingTail(position, grains);
    if |rest| > 0 {
      assert rest[|rest| - 1] == grains[|grains| - 1];
      StartsAfter(end, rest, |rest| - 1);
    }
  }

  /** `img` is what the stream delivers from `position` on: the reference
      image up to `size`, then the footer. */
  ghost predicate ImageOf(img: seq<byte>, position: int, grains: seq<Grain>, size: nat, footer: seq<byte>)
    requires position <= size
  {
    && |img| == size - position + |footer|
    && (forall p :: position <= p < size ==> img[p - position] == Covering(grains, p))
    && img[size - position..] == footer
  }

  /** The bytes one grain step delivers: the padding zeros, then the grain. */
  lemma GrainBytes(position: int, g: Grain, footer: seq<byte>)
    requires position <= g.lbaBytes
    ensures Flatten(PushGrain(position, g).chunks, footer) == Ok(Zeros(g.lbaBytes - position) + g.grain)
  {
    var pad := FilePadding(g.lbaBytes - position);
    PaddingZeros(g.lbaBytes - position, footer);
    FlattenAppend(pad, [Data(g.grain)], footer);
    FlattenOne(Data(g.grain), footer);
  }

  /** The bytes of the final step: the padding zeros up to `size`, then the
      footer. */
  lemma EndBytes(size: nat, position: int, footer: seq<byte>)
    requires position <= size
    ensures Flatten(PushEnd(size, position), footer) == Ok(Zeros(size - position) + footer)
  {
    var pad := FilePadding(size - position);
    PaddingZeros(size - position, footer);
    FlattenAppend(pad, [Trailer], footer);
    FlattenOne(Trailer, footer);
  }

  /** Prefixing the first grain's bytes extends the image back to its
      start position. */
  lemma ImageStep(position: int, grains: seq<Grain>, size: nat, footer: seq<byte>, t: seq<byte>)
    requires |grains| > 0 && Ascending(position, grains)
    requires var end := grains[0].lbaBytes + |grains[0].grain|;
      end <= size && ImageOf(t, end, grains[1..], size, footer)
    ensures ImageOf(Zeros(grains[0].lbaBytes - position) + grains[0].grain + t, position, grains, size, footer)
  {
    var g := grains[0];
    var end := g.lbaBytes + |g.grain|;
    var rest := grains[1..];
    AscendingTail(position, grains);
    var h := Zeros(g.lbaBytes - position) + g.grain;
    var img := h + t;
    assert |h| == end - position;
    forall p | position <= p < size
      ensures img[p - position] == Covering(grains, p)
    {
      if p < g.lbaBytes {
        NothingBefore(end, rest, p);
        assert img[p - position] == h[p - position];
      } else if p < end {
        assert img[p - position] == h[p - position] == g.grain[p - g.lbaBytes];
      } else {
        assert img[p - position] == t[p - end];
      }
    }
    assert img[size - position..] == t[size - end..];
  }

  /** The bytes of an in-order run from `position`: the reference image
      from `position` to `size`, then the footer. */
  lemma {:induction false} RunImage(size: nat, position: int, grains: seq<Grain>, footer: seq<byte>)
    requires InOrder(position, grains, size)
    ensures Flatten(Run(size, position, grains).0, footer).Ok?
    ensures ImageOf(Flatten(Run(size, position, grains).0, footer).value, position, grains, size, footer)
    decreases |grains|
  {
    if |grains| == 0 {
      EndBytes(size, position, footer);
      assert (Zeros(size - position) + footer)[size - position..] == footer;
    } else {
      var g := grains[0];
      var end := g.lbaBytes + |g.grain|;
      RestInOrder(position, grains, size);
      RunImage(size, end, grains[1..], footer);
      var step := PushGrain(position, g);
      var tail := Run(size, end, grains[1..]).0;
      assert Run(size, position, grains).0 == step.chunks + tail;
      GrainBytes(position, g, footer);
      FlattenAppend(step.chunks, tail, footer);
      ImageStep(position, grains, size, footer, Flatten(tail, footer).value);
    }
  }

  /** The stream of a disk of `size` bytes whose grains are in order and
      within the disk: no order error, and the reader receives the disk
      image (grain bytes where a grain covers, zeros elsewhere) followed by
      the fixed-disk footer, `size + 512` bytes in all. */
  lemma StreamImage(size: nat, timestamp: int, grains: seq<Grain>, s: RawStream)
    requires NewRawStream(size, timestamp) == Ok(s) && InOrder(0, grains, size)
    ensures !Run(s.size, 0, grains).1
    ensures var img := Flatten(Run(s.size, 0, grains).0, s.footer);
      && img.Ok?
      && |img.value| == size + FooterSize
      && (forall p :: 0 <= p < size ==> img.value[p] == Covering(grains, p))
      && FooterLayout(img.value[size..], size, timestamp, ComputeGeometry(size).value, FixedDiskType, NoOffset, NoOffset)
  {
    OrderErrorIff(size, 0, grains);
    RunImage(size, 0, grains, s.footer);
    var img := Flatten(Run(size, 0, grains).0, s.footer).value;
    assert img[size..] == s.footer;
  }
}
