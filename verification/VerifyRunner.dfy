/** `cperf_verify_test_runner` of comp_perf_test_verify.c from end to end: the input is cut up,
    compressed, decompressed, and compared with itself. */
module VerifyRunner {
  import opened Words
  import opened Arithmetic
  import opened Mbufs
  import opened Segmentation
  import opened BurstEngine
  import opened BurstLoop
  import opened VerifyData
  import opened ChunkOrder
  import opened VerifyLoop

  datatype Verdict =
    | Success
    | CompressionFailed(why: Result)
    | DecompressionFailed(why: Result)
    | WrongLength
    | WrongData

  type Codec = seq<byte> -> seq<byte>

  ghost predicate Inverts(compress: Codec, decompress: Codec) {
    forall data :: decompress(compress(data)) == data
  }

  function Shape(bufs: seq<Mbuf>): (shape: seq<nat>)
    ensures |shape| == |bufs| && forall b :: 0 <= b < |bufs| ==> shape[b] == |bufs[b].segs|
  {
    seq(|bufs|, b requires 0 <= b < |bufs| => |bufs[b].segs|)
  }

  /** What the device makes of each chunk of the input. */
  function Coded(chunks: seq<seq<byte>>, codec: Codec): (r: seq<seq<byte>>)
    ensures |r| == |chunks| && forall b :: 0 <= b < |r| ==> r[b] == codec(chunks[b])
  {
    seq(|chunks|, b requires 0 <= b < |chunks| => codec(chunks[b]))
  }

  // ---- Room in the output memory ----

  /** The output memory of the compression pass holds whatever fits the output buffers. */
  lemma {:induction false} CompressedFits(r: Resources, input: seq<byte>, d: seq<Mbuf>, c: seq<Mbuf>,
                                          j: Job, n: nat)
    requires AllPrepared(r, input, d, c) && n <= r.totalBufs
    requires j.shape == Shape(d) && j.segSz == r.outSegSz && |j.results| == |d|
    ensures Room(j, n) <= SegmentsBefore(n, r.totalSegs, r.maxSglSegs) * r.outSegSz
  {
    hide Cut, SegCount, Fits;
    if n > 0 {
      var i := n - 1;
      CompressedFits(r, input, d, c, j, i);
      var end := EndOfData(input);
      assert Prepared(r, input, end, i, d[i], c[i]);
      CeilBounds(r.totalSegs, r.maxSglSegs);
      NextBufferFits(i, |input|, end, r.segSz, r.maxSglSegs);
      WeightWithin(j, i);
      var before, after := SegmentsBefore(i, r.totalSegs, r.maxSglSegs), SegmentsBefore(n, r.totalSegs, r.maxSglSegs);
      MulMonotone(before + |d[i].segs|, after, r.outSegSz);
      Distribute(before, |d[i].segs|, r.outSegSz);
    }
  }

  lemma WeightWithin(j: Job, b: nat)
    requires b < |j.results| && |j.shape| == |j.results|
    ensures Weight(j, b) <= j.shape[b] * j.segSz
  {
  }

  /** When every result fits, the room it needs is the size of all results together. */
  lemma {:induction false} RoomOfResults(j: Job, n: nat)
    requires n <= |j.results| && |j.shape| == |j.results| && forall b :: 0 <= b < n ==> Fits(j, b)
    ensures Room(j, n) == |Join(j.results[..n])|
  {
    if n > 0 {
      RoomOfResults(j, n - 1);
      assert j.results[..n] == j.results[..n - 1] + [j.results[n - 1]];
      JoinOneMore(j.results[..n - 1], j.results[n - 1]);
    }
  }

  /** Every chunk fits the buffer that it came from. */
  lemma ChunkFits(r: Resources, input: seq<byte>, end: nat, i: nat, d: Mbuf, c: Mbuf)
    requires r.segSz > 0 && end <= |input| && Prepared(r, input, end, i, d, c)
    ensures |Bytes(d)| <= |d.segs| * r.segSz
  {
    CapacityOfRooms(d.segs, r.segSz);
    ContentsWithin(d.segs);
  }

  lemma {:induction false} ContentsWithin(segs: seq<Segment>)
    requires WellFormed(segs)
    ensures |Contents(segs)| <= Capacity(segs)
  {
    if segs != [] {
      ContentsWithin(segs[1..]);
    }
  }

  // ---- The two jobs ----

  ghost function CompressJob(r: Resources, d: seq<Mbuf>, compress: Codec): Job
    requires forall b :: 0 <= b < |d| ==> WellFormed(d[b].segs)
  {
    Job(Shape(d), r.outSegSz, Coded(Packets(d), compress))
  }

  ghost function DecompressJob(r: Resources, d: seq<Mbuf>): Job
    requires forall b :: 0 <= b < |d| ==> WellFormed(d[b].segs)
  {
    Job(Shape(d), r.segSz, Packets(d))
  }

  /** The chunk compresses to more than an output buffer of as many segments as the chunk takes up. */
  predicate Incompressible(chunk: seq<byte>, compress: Codec, segSz: nat, outSegSz: nat)
    requires segSz > 0
  {
    |compress(chunk)| > Max(1, SegmentsFor(|chunk|, segSz)) * outSegSz
  }

  /** The codec makes no data longer by more than one byte for each segment it takes up; a codec that
      never makes data longer is one of these. */
  ghost predicate HardlyGrows(compress: Codec, segSz: nat)
    requires segSz > 0
  {
    forall data :: |compress(data)| <= |data| + Max(1, SegmentsFor(|data|, segSz))
  }

  /** What such a codec makes of a chunk always fits, as an output segment is larger than a segment. */
  lemma HardlyGrowsFits(chunk: seq<byte>, compress: Codec, segSz: nat, outSegSz: nat)
    requires segSz > 0 && HardlyGrows(compress, segSz) && segSz < outSegSz
    ensures !Incompressible(chunk, compress, segSz, outSegSz)
  {
    var n := Max(1, SegmentsFor(|chunk|, segSz));
    assert |compress(chunk)| <= |chunk| + n;
    SegmentsCover(|chunk|, segSz);
    MulMonotone(SegmentsFor(|chunk|, segSz), n, segSz);
    MulAtLeast(n, segSz, outSegSz);
  }

  lemma {:induction false} SegmentsCover(n: nat, segSz: nat)
    requires segSz > 0
    ensures n <= SegmentsFor(n, segSz) * segSz
  {
    if n > segSz {
      SegmentsCover(n - segSz, segSz);
      Distribute(SegmentsFor(n - segSz, segSz), 1, segSz);
    }
  }

  lemma MulAtLeast(n: nat, a: nat, b: nat)
    requires a < b
    ensures n * a + n <= n * b
  {
    Distribute(a, 1, n);
    MulMonotone(a + 1, b, n);
  }

  /** A chunk is cut into no more segments than it needs. */
  lemma ChunkSegments(r: Resources, input: seq<byte>, end: nat, i: nat, d: Mbuf, c: Mbuf)
    requires r.segSz > 0 && r.maxSglSegs > 0 && end <= |input| && Prepared(r, input, end, i, d, c)
    ensures |d.segs| == Max(1, SegmentsFor(|Bytes(d)|, r.segSz))
  {
    var here, full := Cut(i, end, r.segSz, r.maxSglSegs), r.maxSglSegs * r.segSz;
    NextCut(i, end, r.segSz, r.maxSglSegs);
    PreparedBytes(r, input, end, i, d, c);
    if end <= here + full {
      EnoughSegments(end - here, r.segSz, r.maxSglSegs);
    } else {
      CeilIsSegments(full, r.segSz);
      QuotientIs(full, r.segSz, r.maxSglSegs, 0);
      SegmentsMonotone(full, end - here, r.segSz);
    }
  }

  /** The compression job fails to fit just for incompressible chunks. */
  lemma FitsUnlessIncompressible(r: Resources, input: seq<byte>, d: seq<Mbuf>, c: seq<Mbuf>, compress: Codec)
    requires AllPrepared(r, input, d, c)
    ensures forall b :: 0 <= b < |d| ==> WellFormed(d[b].segs)
    ensures forall b :: 0 <= b < |d| ==>
      (Fits(CompressJob(r, d, compress), b) <==> !Incompressible(Packets(d)[b], compress, r.segSz, r.outSegSz))
  {
    hide Prepared, Bytes;
    BuffersJoinToTheInput(r, input, d, c);
    forall b | 0 <= b < |d|
      ensures Fits(CompressJob(r, d, compress), b) <==> !Incompressible(Packets(d)[b], compress, r.segSz, r.outSegSz)
    {
      ChunkSegments(r, input, EndOfData(input), b, d[b], c[b]);
    }
  }

  lemma CompressionReady(r: Resources, input: seq<byte>, d: seq<Mbuf>, c: seq<Mbuf>, compress: Codec)
    requires AllPrepared(r, input, d, c) && r.outSegSz > 0
    ensures forall b :: 0 <= b < |d| ==> WellFormed(d[b].segs)
    ensures var j := CompressJob(r, d, compress);
      Stage(j, c, 0, [], 0, 0) && Room(j, |j.results|) <= r.outSegSz * r.totalSegs
  {
    hide Cut, Bytes, SegCount, SegmentsBefore, Prepared, Stage, EndOfData, Contents;
    OutputsAreShaped(r, input, d, c);
    var j := CompressJob(r, d, compress);
    CompressedFits(r, input, d, c, j, |d|);
    CutAtEnd(r, |input|, EndOfData(input));
    assert IsJob(j, c) by {
      forall b | 0 <= b < |c| ensures Shaped(j, c, b) {
      }
    }
    NothingBack(j, c);
  }

  lemma NothingBack(j: Job, out: seq<Mbuf>)
    requires IsJob(j, out)
    ensures Stage(j, out, 0, [], 0, 0)
  {
  }

  lemma OutputsAreShaped(r: Resources, input: seq<byte>, d: seq<Mbuf>, c: seq<Mbuf>)
    requires AllPrepared(r, input, d, c)
    ensures forall i :: 0 <= i < |d| ==>
      WellFormed(d[i].segs) && |c[i].segs| == |d[i].segs| && Rooms(c[i].segs, r.outSegSz)
  {
    hide Cut, Bytes, SegCount, Contents;
    forall i | 0 <= i < |d|
      ensures WellFormed(d[i].segs) && |c[i].segs| == |d[i].segs| && Rooms(c[i].segs, r.outSegSz)
    {
      assert Prepared(r, input, EndOfData(input), i, d[i], c[i]);
    }
  }

  /** After the first pass the second can begin: its job fits, and is the input again. */
  lemma DecompressionReady(r: Resources, input: seq<byte>, d: seq<Mbuf>, c: seq<Mbuf>)
    requires AllPrepared(r, input, d, c)
    ensures forall b :: 0 <= b < |d| ==> WellFormed(d[b].segs)
    ensures var j := DecompressJob(r, d);
      && Stage(j, d, 0, [], 0, 0) && !SomethingTooLong(j)
      && Join(j.results) == input[..EndOfData(input)]
      && Room(j, |j.results|) == EndOfData(input)
  {
    hide Cut, Bytes, SegCount;
    BuffersJoinToTheInput(r, input, d, c);
    var j := DecompressJob(r, d);
    forall i | 0 <= i < |d| ensures Fits(j, i) && Shaped(j, d, i) {
      assert Prepared(r, input, EndOfData(input), i, d[i], c[i]);
      ChunkFits(r, input, EndOfData(input), i, d[i], c[i]);
    }
    RoomOfResults(j, |j.results|);
    assert j.results[..|j.results|] == j.results;
  }

  /** What the compression pass produced is what decompression turns back into the chunks. */
  lemma CompressedReadsBack(r: Resources, d: seq<Mbuf>, c: seq<Mbuf>, compress: Codec, decompress: Codec, b: nat)
    requires forall i :: 0 <= i < |d| ==> WellFormed(d[i].segs)
    requires b < |d| == |c| && Finished(CompressJob(r, d, compress), b, c[b]) && Inverts(compress, decompress)
    ensures WellFormed(c[b].segs) && decompress(Bytes(c[b])) == DecompressJob(r, d).results[b]
  {
  }

  // ---- The whole test ----

  /** One pass with a full pool of operations and an idle device. */
  method Pass(inBufs: array<Mbuf>, outBufs: array<Mbuf>, outSegSz: nat, codec: Codec, memory: nat,
              burstSz: uint16, inOrder: bool, eager: bool, patience: nat, ghost job: Job)
    returns (result: Result, v: VerifyPass)
    requires inBufs != outBufs && inBufs.Length == outBufs.Length < 0x8000_0000
    requires job.segSz == outSegSz && |job.results| == inBufs.Length
    requires Stage(job, outBufs[..], 0, [], 0, 0) && Room(job, |job.results|) <= memory
    requires forall b :: 0 <= b < inBufs.Length ==>
      WellFormed(inBufs[b].segs) && codec(Bytes(inBufs[b])) == job.results[b]
    modifies outBufs
    ensures v.outBufs == outBufs && v.job == job && v.e.inOrder == inOrder && v.e.totalBufs == outBufs.Length
    ensures eager && patience >= 2 * inBufs.Length ==> !result.ForceStop?
    ensures result.NoBurstSize? <==> burstSz == 0
    ensures result.Completed? ==> v.Delivered()
    ensures result.OutOfSpace? ==> SomethingTooLong(job)
  {
    hide Sound, Stage, Inverts;
    var n := inBufs.Length;
    var e := new Engine(n, 2 * n, n, inOrder, eager);
    var output := new byte[memory](_ => 0);
    v := new VerifyPass(e, inBufs, outBufs, outSegSz, codec, output, job);
    ShapesMatch(job, outBufs[..]);
    assert output[..0] == Join(Pick(job, []));
    assert e.back[..0] == [];
    result := v.Run(burstSz, patience);
  }

  lemma ShapesMatch(j: Job, out: seq<Mbuf>)
    requires Stage(j, out, 0, [], 0, 0)
    ensures InJob(j, [])
  {
  }

  predicate Completed(verdict: Verdict) {
    !verdict.CompressionFailed? && !verdict.DecompressionFailed?
  }

  // ---- The order of return ----

  /** The chunks of an input whose size fits 32 bits are as long as a buffer, but for the last. */
  lemma ChunksAreChunky(r: Resources, input: seq<byte>, d: seq<Mbuf>, c: seq<Mbuf>)
    requires AllPrepared(r, input, d, c) && |input| < TWO_32
    ensures forall i :: 0 <= i < |d| ==> WellFormed(d[i].segs)
    ensures Chunky(Packets(d), r.maxSglSegs * r.segSz)
  {
    hide Prepared, Bytes, Cut;
    BuffersJoinToTheInput(r, input, d, c);
    forall i | 0 <= i < |d|
      ensures |Packets(d)[i]| <= r.maxSglSegs * r.segSz
      ensures i < |d| - 1 ==> |Packets(d)[i]| == r.maxSglSegs * r.segSz
    {
      PreparedBytes(r, input, EndOfData(input), i, d[i], c[i]);
      CutIsFull(r, |input|, i);
    }
  }

  lemma CutIsFull(r: Resources, size: nat, i: nat)
    requires r.Sized(size) && i < r.totalBufs
    ensures var full := Cut(i + 1, size, r.segSz, r.maxSglSegs) - Cut(i, size, r.segSz, r.maxSglSegs);
      full <= r.maxSglSegs * r.segSz && (i < r.totalBufs - 1 ==> full == r.maxSglSegs * r.segSz)
  {
    NextCut(i, size, r.segSz, r.maxSglSegs);
    if i < r.totalBufs - 1 {
      CeilBounds(r.totalSegs, r.maxSglSegs);
      CeilBounds(size, r.segSz);
      assert (i + 1) * r.maxSglSegs < r.totalSegs;
      MulAssoc(i + 1, r.maxSglSegs, r.segSz);
      Distribute(i, 1, r.maxSglSegs * r.segSz);
    }
  }

  /** Two buffers of 8 bytes each. */
  const TWO_CHUNKS: seq<byte> := [0, 0, 0, 0, 0, 0, 0, 0, 1, 1, 1, 1, 1, 1, 1, 1]

  /** The program prepares them so. */
  method PrepareTwoChunks() returns (r: Resources)
    ensures r.segSz == MIN_COMPRESSED_BUF_SIZE && r.maxSglSegs == 1
    ensures AllPrepared(r, TWO_CHUNKS, r.decompBufs[..], r.compBufs[..])
  {
    hide Prepared;
    r := new Resources(|TWO_CHUNKS|, MIN_COMPRESSED_BUF_SIZE, 16, 1);
    var ok, _, _ := PrepareBufs(TWO_CHUNKS, r);
  }

  /** A device that does not decompress in order can make the test fail on good data: with segments of
      8 bytes and one segment per buffer, two different chunks are enough. */
  lemma OrderMatters(r: Resources, d: seq<Mbuf>, c: seq<Mbuf>)
    requires AllPrepared(r, TWO_CHUNKS, d, c) && r.segSz == MIN_COMPRESSED_BUF_SIZE && r.maxSglSegs == 1
    ensures |d| == 2 && WellFormed(d[0].segs) && WellFormed(d[1].segs)
    ensures IsOrder([1, 0], |Packets(d)|) && Join(Packets(d)) == TWO_CHUNKS
    ensures Join(Reordered(Packets(d), [1, 0])) != TWO_CHUNKS
  {
    hide Prepared, Bytes, Join;
    BuffersJoinToTheInput(r, TWO_CHUNKS, d, c);
    ChunksAreChunky(r, TWO_CHUNKS, d, c);
    PreparedBytes(r, TWO_CHUNKS, EndOfData(TWO_CHUNKS), 0, d[0], c[0]);
    PreparedBytes(r, TWO_CHUNKS, EndOfData(TWO_CHUNKS), 1, d[1], c[1]);
    var chunks := Packets(d);
    assert chunks[0][0] == 0 && chunks[1][0] == 1 && |chunks[1]| == 8;
    assert Range(0, 2) == [0, 1];
    assert IsOrder([1, 0], 2);
    RightExactlyWhenEqual(chunks, [1, 0], 8);
    assert chunks[[1, 0][0]] != chunks[0];
  }

  /** Whether the chunks in another order make up the input. */
  lemma OrderDecides(r: Resources, input: seq<byte>, d: seq<Mbuf>, c: seq<Mbuf>, order: seq<nat>)
    requires AllPrepared(r, input, d, c) && |input| < TWO_32
    requires forall i :: 0 <= i < |d| ==> WellFormed(d[i].segs)
    requires IsOrder(order, |d|)
    ensures |order| == |d| && forall i :: 0 <= i < |order| ==> order[i] < |d|
    ensures var chunks, len := Packets(d), r.maxSglSegs * r.segSz;
      && Chunky(chunks, len)
      && (Join(Reordered(chunks, order)) == input <==>
          forall i :: 0 <= i < |order| ==> LandsRight(chunks, order, len, input, i))
      && (Aligned(chunks, order, len) ==>
          (Join(Reordered(chunks, order)) == input <==>
           forall i :: 0 <= i < |order| ==> chunks[order[i]] == chunks[i]))
  {
    hide Prepared, Bytes, Join, Chunky, Aligned, LandsRight;
    BuffersJoinToTheInput(r, input, d, c);
    ChunksAreChunky(r, input, d, c);
    RightExactlyWhenAllLandRight(Packets(d), order, r.maxSglSegs * r.segSz);
    RightExactlyWhenEqual(Packets(d), order, r.maxSglSegs * r.segSz);
  }

  /** What the second pass delivered, in terms of the chunks. */
  lemma DeliveredChunks(v: VerifyPass, chunks: seq<seq<byte>>)
    requires v.Delivered() && v.job.results == chunks && |chunks| == v.e.totalBufs
    ensures multiset(v.e.back) == multiset(Range(0, |chunks|))
    ensures forall i :: 0 <= i < |v.e.back| ==> v.e.back[i] < |chunks|
    ensures v.outputSize == Room(v.job, |chunks|) <= v.output.Length
    ensures v.output[..v.outputSize] == Join(Reordered(chunks, v.e.back))
    ensures v.e.inOrder ==> v.output[..v.outputSize] == Join(chunks)
  {
    hide AtRest, IsJob, Finished, Fits, Room;
    assert Pick(v.job, v.e.back) == Reordered(chunks, v.e.back);
  }

  lemma DeliveredBuffers(v: VerifyPass)
    requires v.Delivered()
    ensures v.outBufs.Length == |v.job.results| == |v.job.shape|
    ensures forall b :: 0 <= b < v.outBufs.Length ==> Fits(v.job, b) && Finished(v.job, b, v.outBufs[b])
  {
    hide AtRest, IsJob, Finished, Fits, Room;
  }

  /** The first pass: afterwards decompression turns every buffer back into its chunk. */
  method Compress(r: Resources, input: seq<byte>, compress: Codec, ghost decompress: Codec, burstSz: uint16,
                  eager: bool, patience: nat)
    returns (result: Result)
    requires AllPrepared(r, input, r.decompBufs[..], r.compBufs[..]) && r.outSegSz > 0
    requires r.totalBufs < 0x8000_0000 && Inverts(compress, decompress)
    requires forall b :: 0 <= b < r.totalBufs ==> WellFormed(r.decompBufs[b].segs)
    modifies r.compBufs
    ensures result.NoBurstSize? <==> burstSz == 0
    ensures eager && patience >= 2 * r.totalBufs ==> !result.ForceStop?
    ensures var d := r.decompBufs[..];
      && (result.OutOfSpace? ==> SomethingTooLong(CompressJob(r, d, compress)))
      && (result.Completed? ==> forall b :: 0 <= b < r.totalBufs ==> Fits(CompressJob(r, d, compress), b))
      && (result.Completed? ==> forall b :: 0 <= b < r.totalBufs ==>
            WellFormed(r.compBufs[b].segs) && decompress(Bytes(r.compBufs[b])) == Bytes(d[b]))
  {
    hide Stage, Inverts, Finished, Prepared, Bytes, Contents, Room, Fits;
    ghost var d, c := r.decompBufs[..], r.compBufs[..];
    CompressionReady(r, input, d, c, compress);
    var v;
    result, v := Pass(r.decompBufs, r.compBufs, r.outSegSz, compress,
      Max(r.outSegSz * r.totalSegs, MIN_COMPRESSED_BUF_SIZE), burstSz, false, eager, patience,
      CompressJob(r, d, compress));
    if result.Completed? {
      DeliveredBuffers(v);
      forall b | 0 <= b < r.totalBufs
        ensures WellFormed(r.compBufs[b].segs) && decompress(Bytes(r.compBufs[b])) == Bytes(d[b])
      {
        CompressedReadsBack(r, d, r.compBufs[..], compress, decompress, b);
      }
    }
  }

  /** The second pass: what it collects are the chunks in the order of return. */
  method Decompress(r: Resources, input: seq<byte>, decompress: Codec, ghost c: seq<Mbuf>, burstSz: uint16,
                    inOrder: bool, eager: bool, patience: nat)
    returns (result: Result, output: seq<byte>, ghost order: seq<nat>)
    requires AllPrepared(r, input, r.decompBufs[..], c) && r.totalBufs < 0x8000_0000
    requires forall b :: 0 <= b < r.totalBufs ==>
      && WellFormed(r.decompBufs[b].segs) && WellFormed(r.compBufs[b].segs)
      && decompress(Bytes(r.compBufs[b])) == Bytes(r.decompBufs[b])
    modifies r.decompBufs
    ensures result.NoBurstSize? <==> burstSz == 0
    ensures eager && patience >= 2 * r.totalBufs ==> !result.ForceStop?
    ensures !result.OutOfSpace?
    ensures result.Completed? ==> IsOrder(order, r.totalBufs) && forall i :: 0 <= i < |order| ==> order[i] < r.totalBufs
    ensures var d := old(r.decompBufs[..]);
      result.Completed? ==> |output| == EndOfData(input) && output == Join(Reordered(Packets(d), order))
    ensures result.Completed? && inOrder ==> output == input[..EndOfData(input)]
  {
    hide Stage, Prepared, Bytes, Contents, Room, Fits, Join, EndOfData, VerifyPass.Delivered;
    ghost var d := r.decompBufs[..];
    DecompressionReady(r, input, d, c);
    var v;
    result, v := Pass(r.compBufs, r.decompBufs, r.segSz, decompress, |input|, burstSz, inOrder, eager, patience,
                      DecompressJob(r, d));
    output, order := [], [];
    if result.Completed? {
      DeliveredChunks(v, Packets(d));
      order, output := v.e.back, v.output[..v.outputSize];
    }
  }

  /** Cuts the input up, compresses, decompresses, and compares. When both passes run through, the
      decompressed bytes are the chunks in the order in which the device gave them back, and if that
      is the order in which they were sent, the verdict is success exactly for an input whose size
      fits 32 bits. The compression pass runs out of space only on an incompressible chunk and runs
      through only without one; the decompression pass never runs out of space. With an eager device and
      `patience` for twice as many rounds as there are buffers, nothing else can go wrong; then both
      passes run through for every codec that adds at most one byte for each segment. */
  method VerifyTest(input: seq<byte>, segSz: uint16, maxSglSegs: uint16, burstSz: uint16,
                    compress: Codec, decompress: Codec, inOrder: bool, eager: bool, patience: nat)
    returns (verdict: Verdict, output: seq<byte>, outSegSz: uint32,
             ghost chunks: seq<seq<byte>>, ghost order: seq<nat>)
    requires MIN_COMPRESSED_BUF_SIZE <= segSz <= MAX_SEG_SIZE && maxSglSegs > 0
    requires DivCeil(|input|, segSz) < TWO_32
    requires DivCeil(DivCeil(|input|, segSz), maxSglSegs) < 0x8000_0000
    requires Inverts(compress, decompress)
    ensures segSz < 0x8000 ==> PowerOfTwo(outSegSz) && forall q :: PowerOfTwo(q) && segSz < q ==> outSegSz <= q
    ensures segSz >= 0x8000 ==> outSegSz == segSz * 11 / 10
    ensures segSz < outSegSz
    ensures Join(chunks) == input[..|input| % 0x1_0000_0000]
    ensures Completed(verdict) ==> multiset(order) == multiset(Range(0, |chunks|))
    ensures Completed(verdict) ==> forall i :: 0 <= i < |order| ==> order[i] < |chunks|
    ensures Completed(verdict) ==> output == Join(Reordered(chunks, order))
    ensures Completed(verdict) ==> (verdict.Success? <==> output == input)
    ensures Completed(verdict) ==> (verdict.WrongLength? <==> |input| >= TWO_32)
    ensures Completed(verdict) && inOrder ==> (verdict.Success? <==> |input| < TWO_32)
    ensures Completed(verdict) && |input| < TWO_32 ==>
      (verdict.Success? <==>
       forall i :: 0 <= i < |order| ==> LandsRight(chunks, order, maxSglSegs * segSz, input, i))
    ensures Completed(verdict) && |input| < TWO_32 ==>
      |order| == |chunks| && Chunky(chunks, maxSglSegs * segSz)
    ensures Completed(verdict) && |input| < TWO_32 && Aligned(chunks, order, maxSglSegs * segSz) ==>
      (verdict.Success? <==> forall i :: 0 <= i < |order| ==> chunks[order[i]] == chunks[i])
    ensures verdict == CompressionFailed(OutOfSpace) ==>
      exists b :: 0 <= b < |chunks| && Incompressible(chunks[b], compress, segSz, outSegSz)
    ensures !verdict.CompressionFailed? ==>
      forall b :: 0 <= b < |chunks| ==> !Incompressible(chunks[b], compress, segSz, outSegSz)
    ensures verdict == CompressionFailed(NoBurstSize) <==> burstSz == 0
    ensures eager && patience >= 2 * |chunks| && burstSz > 0 ==>
      Completed(verdict) || verdict == CompressionFailed(OutOfSpace)
    ensures eager && patience >= 2 * |chunks| && burstSz > 0 && HardlyGrows(compress, segSz) ==> Completed(verdict)
    ensures verdict != DecompressionFailed(OutOfSpace)
  {
    hide Stage, Inverts, Prepared, Room, Fits, Join, Incompressible, VerifyPass.Delivered;
    hide LandsRight, Chunky, Aligned, EndOfData, HardlyGrows;
    outSegSz := FindBufSize(segSz);
    var r := new Resources(|input|, segSz, outSegSz, maxSglSegs);
    var ok, _, _ := PrepareBufs(input, r);
    assert ok;
    ghost var d, c := r.decompBufs[..], r.compBufs[..];
    FitsUnlessIncompressible(r, input, d, c, compress);
    BuffersJoinToTheInput(r, input, d, c);
    chunks, order, output := Packets(d), [], [];
    if HardlyGrows(compress, segSz) {
      forall b | 0 <= b < |chunks| ensures !Incompressible(chunks[b], compress, segSz, outSegSz) {
        HardlyGrowsFits(chunks[b], compress, segSz, outSegSz);
      }
    }
    var result := Compress(r, input, compress, decompress, burstSz, eager, patience);
    if !result.Completed? {
      verdict := CompressionFailed(result);
      return;
    }
    assert r.decompBufs[..] == d;
    result, output, order := Decompress(r, input, decompress, c, burstSz, inOrder, eager, patience);
    if !result.Completed? {
      verdict := DecompressionFailed(result);
      return;
    }
    if |input| < TWO_32 {
      OrderDecides(r, input, d, c, order);
    }
    if |output| != |input| {
      verdict := WrongLength;
    } else if output != input {
      verdict := WrongData;
    } else {
      verdict := Success;
    }
  }
}
