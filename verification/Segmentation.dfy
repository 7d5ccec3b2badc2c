/** `comp_perf_allocate_memory` and `prepare_bufs` of comp_perf_test_common.c: the input is cut into
    segments, and these are chained into buffers. */
module Segmentation {
  import opened Words
  import opened Arithmetic
  import opened Mbufs

  const MIN_COMPRESSED_BUF_SIZE := 8
  const HEADROOM := 128
  /** So that 1.1 times it, and the headroom, fit a 16-bit buffer length. */
  const MAX_SEG_SIZE := 59460

  // ---- find_buf_size ----

  predicate PowerOfTwo(n: int) {
    n == 1 || (n > 1 && n % 2 == 0 && PowerOfTwo(n / 2))
  }

  lemma {:induction false} NextPowerIsDouble(a: int, b: int)
    requires PowerOfTwo(a) && PowerOfTwo(b) && a < b
    ensures 2 * a <= b
  {
    if a > 1 {
      NextPowerIsDouble(a / 2, b / 2);
    }
  }

  /** `EXPANSE_RATIO`: the double nearest to 1.1. */
  const EXPANSE_RATIO: real := 4953959590107546.0 / 4503599627370496.0

  /** The nearest integer; of two equally near ones, the even one. */
  function Nearest(q: real): (n: int)
    ensures q.Floor <= n && -0.5 <= n as real - q <= 0.5
  {
    var below := q.Floor;
    var part := q - below as real;
    if part < 0.5 || (part == 0.5 && below % 2 == 0) then below else below + 1
  }

  /** The product as a double: between 2^15 and 2^16 doubles are 2^-37 apart, up to 2^17 they are 2^-36
      apart. */
  function DoubleProduct(inputSize: uint16): real {
    var product := inputSize as real * EXPANSE_RATIO;
    if product < 65536.0 then Nearest(product * 137438953472.0) as real / 137438953472.0
    else Nearest(product * 68719476736.0) as real / 68719476736.0
  }

  /** Neither the inexact ratio nor the rounding of the product shows in the integer part. */
  lemma TruncatedProduct(inputSize: uint16)
    requires inputSize >= 0x8000
    ensures DoubleProduct(inputSize).Floor == inputSize * 11 / 10
  {
    var m := inputSize * 11 / 10;
    var product := inputSize as real * EXPANSE_RATIO;
    assert m as real <= product < m as real + 0.95;
    if product < 65536.0 {
      Truncates(product, m, 0x20_0000_0000, 137438953472.0);
    } else {
      Truncates(product, m, 0x10_0000_0000, 68719476736.0);
    }
  }

  lemma Truncates(product: real, m: int, n: int, scale: real)
    requires scale == n as real && n >= 0x10_0000_0000
    requires m as real <= product < m as real + 0.95
    ensures (Nearest(product * scale) as real / scale).Floor == m
  {
    hide Nearest;
    var q, low := product * scale, m as real;
    ScaleOrder(low, product, scale);
    ScaleOrder(product, low + 0.95, scale);
    ScaleSum(low, 0.95, scale);
    RealProduct(m, n);
    assert q < (low + 0.95) * scale;
    assert low * scale == (m * n) as real;
    NearestStays(q, m * n, scale);
    Unscale(low, Nearest(q) as real, scale);
  }

  lemma RealProduct(m: int, n: int)
    ensures (m * n) as real == m as real * n as real
  {
  }

  lemma NearestStays(q: real, low: int, scale: real)
    requires scale >= 100.0 && low as real <= q < low as real + 0.95 * scale
    ensures low as real <= Nearest(q) as real < low as real + scale
  {
    assert low <= q.Floor;
  }

  lemma ScaleOrder(a: real, b: real, scale: real)
    requires scale > 0.0
    ensures a < b ==> a * scale < b * scale
    ensures a <= b ==> a * scale <= b * scale
  {
  }

  lemma ScaleSum(a: real, b: real, scale: real)
    ensures (a + b) * scale == a * scale + b * scale
  {
  }

  lemma Unscale(low: real, x: real, scale: real)
    requires scale > 0.0 && low * scale <= x < low * scale + scale
    ensures low <= x / scale < low + 1.0
  {
    var r := x / scale;
    assert r * scale == x;
    ScaleSum(low, 1.0, scale);
    if r < low {
      ScaleOrder(r, low, scale);
    } else if r >= low + 1.0 {
      ScaleOrder(low + 1.0, r, scale);
    }
  }

  /** The room for incompressible data: the least power of two above the input size, or 1.1 times the
      input size, rounded down, when that power would not fit 16 bits. */
  method FindBufSize(inputSize: uint16) returns (size: uint32)
    ensures inputSize == 0 ==> size == MIN_COMPRESSED_BUF_SIZE
    ensures 0 < inputSize < 0x8000 ==> PowerOfTwo(size) && inputSize < size
    ensures 0 < inputSize < 0x8000 ==> forall q :: PowerOfTwo(q) && inputSize < q ==> size <= q
    ensures inputSize >= 0x8000 ==> size == inputSize * 11 / 10
    ensures size > 0 && (inputSize <= MAX_SEG_SIZE ==> size + HEADROOM < 0x1_0000)
  {
    var doubled := if inputSize == 0 then MIN_COMPRESSED_BUF_SIZE else 2 * inputSize;
    var i := HighestBit(doubled);
    if i > 0x8000 {
      NextPowerIsDouble(0x8000, i);
      TruncatedProduct(inputSize);
      return DoubleProduct(inputSize).Floor;
    }
    size := i;
    forall q | PowerOfTwo(q) && inputSize < q && inputSize > 0 ensures i <= q {
      if q < i {
        NextPowerIsDouble(q, i);
      }
    }
    if inputSize == 0 {
      assert PowerOfTwo(8);
      if i < 8 {
        NextPowerIsDouble(i, 8);
      }
      if 8 < i {
        NextPowerIsDouble(8, i);
      }
    }
  }

  /** The loop that shifts a single bit down from bit 16 until it meets a bit of `size`. */
  method HighestBit(size: int) returns (i: int)
    requires 0 < size < 0x2_0000
    ensures PowerOfTwo(i) && i <= size < 2 * i && i <= 0x1_0000
  {
    i := 0x1_0000;
    assert PowerOfTwo(0x1_0000) && PowerOfTwo(0x8000) by { PowersUpTo16(); }
    while (size / i) % 2 == 0  // the bit test `!(i & size)`, for a power of two i
      invariant PowerOfTwo(i) && i <= 0x1_0000 && size < 2 * i
      decreases i
    {
      BitNotSet(size, i);
      i := i / 2;
    }
    BitSet(size, i);
  }

  lemma PowersUpTo16()
    ensures PowerOfTwo(0x1_0000) && PowerOfTwo(0x8000)
  {
    assert PowerOfTwo(0x10);
    assert PowerOfTwo(0x100);
    assert PowerOfTwo(0x1000);
  }

  lemma BitNotSet(size: int, i: int)
    requires 0 < size < 2 * i && (size / i) % 2 == 0
    ensures size < i
  {
    if size >= i {
      QuotientIs(size, i, 1, size - i);
    }
  }

  lemma BitSet(size: int, i: int)
    requires 0 < size < 2 * i && (size / i) % 2 != 0
    ensures i <= size
  {
    if size < i {
      QuotientIs(size, i, 0, size);
    }
  }

  // ---- Where the cuts are ----

  /** The segments of a buffer that `len` more bytes of input go into. */
  function SegCount(len: nat, segSz: nat, maxSgl: nat): nat
    requires segSz > 0
  {
    Max(1, Min(maxSgl, SegmentsFor(len, segSz)))
  }

  /** The first byte of buffer `i`, when `end` bytes are cut up. */
  function Cut(i: nat, end: nat, segSz: nat, maxSgl: nat): (c: nat)
    ensures c <= end
  {
    Min(i * (maxSgl * segSz), end)
  }

  lemma {:induction false} CeilIsSegments(n: nat, segSz: nat)
    requires segSz > 0
    ensures SegmentsFor(n, segSz) == DivCeil(n, segSz)
    decreases n
  {
    if n == 0 {
      QuotientIs(0, segSz, 0, 0);
    } else if n < segSz {
      QuotientIs(n, segSz, 0, n);
      assert SegmentsFor(n, segSz) == 1 + SegmentsFor(0, segSz);
    } else {
      CeilIsSegments(n - segSz, segSz);
      var q, r := (n - segSz) / segSz, (n - segSz) % segSz;
      Distribute(q, 1, segSz);
      QuotientIs(n, segSz, q + 1, r);
    }
  }

  // ---- Cutting the input up ----

  function Padding(n: nat): (r: seq<byte>)
    ensures |r| == n
  {
    seq(n, _ => 0)
  }

  /** `rte_pktmbuf_append` of `data` to a fresh buffer with a data room of `size` bytes. */
  function Holding(data: seq<byte>, size: nat): Segment
    requires |data| <= size
  {
    Segment(data + Padding(size - |data|), |data|)
  }

  /** The chain holds the input bytes from `pos` to `next`, in full segments but for the last, which
      holds `lastSz` bytes. */
  ghost predicate Chained(input: seq<byte>, pos: nat, next: nat, segSz: nat, segs: seq<Segment>, lastSz: nat)
  {
    && pos <= next <= |input| && |segs| >= 1
    && WellFormed(segs) && Rooms(segs, segSz) && Contents(segs) == input[pos..next]
    && next == pos + (|segs| - 1) * segSz + lastSz && lastSz <= segSz
  }

  lemma ChainOne(input: seq<byte>, pos: nat, segSz: nat, lastSz: nat)
    requires lastSz <= segSz && pos + lastSz <= |input|
    ensures Chained(input, pos, pos + lastSz, segSz, [Holding(input[pos..pos + lastSz], segSz)], lastSz)
  {
    var segs := [Holding(input[pos..pos + lastSz], segSz)];
    assert Contents(segs) == segs[0].room[..lastSz] + [];
  }

  lemma ChainMore(input: seq<byte>, pos: nat, next: nat, segSz: nat, segs: seq<Segment>, more: nat)
    requires Chained(input, pos, next, segSz, segs, segSz) && more <= segSz && next + more <= |input|
    ensures Chained(input, pos, next + more, segSz,
                    segs + [Holding(input[next..next + more], segSz)], more)
  {
    var seg := Holding(input[next..next + more], segSz);
    ContentsConcat(segs, [seg]);
    assert Contents([seg]) == seg.room[..more] + [];
    Distribute(|segs| - 1, 1, segSz);
  }

  /** When the loop ends, the chain is as long as it may be or the input is used up. */
  lemma ChainEnds(input: seq<byte>, pos: nat, next: nat, end: nat, segSz: nat, segs: seq<Segment>,
                  lastSz: nat, maxSgl: nat)
    requires Chained(input, pos, next, segSz, segs, lastSz) && next <= end && |segs| <= maxSgl
    requires next < end ==> lastSz == segSz && |segs| == maxSgl
    ensures next == Min(end, pos + maxSgl * segSz)
  {
    Distribute(|segs| - 1, 1, segSz);
    MulMonotone(|segs|, maxSgl, segSz);
  }

  /** One buffer of input: the bytes from `pos` on, up to `maxSgl` segments of them. It fails exactly
      when the pool has too few segments left. */
  method BuildInput(input: seq<byte>, pos: nat, end: nat, segSz: nat, maxSgl: nat, pool: nat)
    returns (ok: bool, m: Mbuf, next: nat, left: nat, lastSz: nat)
    requires pos <= end <= |input| && segSz > 0 && maxSgl > 0
    ensures ok <==> SegCount(end - pos, segSz, maxSgl) <= pool
    ensures ok ==> |m.segs| == SegCount(end - pos, segSz, maxSgl) && left == pool - |m.segs|
    ensures ok ==> next == Min(end, pos + maxSgl * segSz) && m.pktLen == next - pos
    ensures ok ==> Chained(input, pos, next, segSz, m.segs, lastSz)
  {
    hide Chained, Contents, Holding;
    m, next, left, lastSz := Mbuf([], 0), pos, pool, 0;
    if left == 0 {
      return false, m, next, left, lastSz;
    }
    lastSz := Min(end - pos, segSz);
    m := Mbuf([Holding(input[pos..pos + lastSz], segSz)], lastSz);
    next, left := pos + lastSz, left - 1;
    ChainOne(input, pos, segSz, lastSz);
    while |m.segs| < maxSgl && next < end
      invariant 1 <= |m.segs| <= maxSgl && left + |m.segs| == pool
      invariant pos <= next <= end && m.pktLen == next - pos
      invariant Chained(input, pos, next, segSz, m.segs, lastSz)
      invariant next < end ==> lastSz == segSz
      invariant pos == end ==> |m.segs| == 1
      invariant pos < end ==> SegmentsFor(end - pos, segSz) == |m.segs| + SegmentsFor(end - next, segSz)
    {
      if left == 0 {
        return false, m, next, left, lastSz;
      }
      lastSz := Min(end - next, segSz);
      ChainMore(input, pos, next, segSz, m.segs, lastSz);
      m := Mbuf(m.segs + [Holding(input[next..next + lastSz], segSz)], m.pktLen + lastSz);
      next, left := next + lastSz, left - 1;
    }
    ChainEnds(input, pos, next, end, segSz, m.segs, lastSz, maxSgl);
    ok := true;
  }

  // ---- All buffers ----

  /** How many segments the buffers before buffer `i` take from the pool when nothing is cut off. */
  function SegmentsBefore(i: nat, totalSegs: nat, maxSgl: nat): nat {
    Min(i * maxSgl, totalSegs)
  }

  /** The next buffer never needs more segments than its share of the total, and just that many when
      the whole input is cut up. */
  lemma NextBufferFits(i: nat, size: nat, end: nat, segSz: nat, maxSgl: nat)
    requires segSz > 0 && maxSgl > 0 && end <= size && i * maxSgl < DivCeil(size, segSz)
    ensures SegCount(end - Cut(i, end, segSz, maxSgl), segSz, maxSgl)
      <= SegmentsBefore(i + 1, DivCeil(size, segSz), maxSgl) - i * maxSgl
    ensures end == size ==>
      SegCount(end - Cut(i, end, segSz, maxSgl), segSz, maxSgl)
        == SegmentsBefore(i + 1, DivCeil(size, segSz), maxSgl) - i * maxSgl
  {
    var total := DivCeil(size, segSz);
    Distribute(i, 1, maxSgl);
    CeilIsSegments(size, segSz);
    MulAssoc(i, maxSgl, segSz);
    var start := i * maxSgl * segSz;
    SegmentsAfter(size, i * maxSgl, segSz);
    if start <= end {
      SegmentsMonotone(end - start, size - start, segSz);
    }
  }

  /** Dropping `k` full segments from the front drops `k` from the count. */
  lemma {:induction false} SegmentsAfter(n: nat, k: nat, segSz: nat)
    requires segSz > 0 && k < SegmentsFor(n, segSz)
    ensures k * segSz < n
    ensures SegmentsFor(n - k * segSz, segSz) == SegmentsFor(n, segSz) - k
  {
    if k > 0 {
      SegmentsAfter(n - segSz, k - 1, segSz);
      Distribute(k - 1, 1, segSz);
    }
  }

  lemma {:induction false} SegmentsMonotone(a: nat, b: nat, segSz: nat)
    requires segSz > 0 && a <= b
    ensures SegmentsFor(a, segSz) <= SegmentsFor(b, segSz)
    decreases b
  {
    if a > segSz {
      SegmentsMonotone(a - segSz, b - segSz, segSz);
    }
  }

  /** The sizes that `comp_perf_allocate_memory` works out, its two segment pools, and its arrays of
      buffers. */
  class Resources {
    const segSz: nat
    const outSegSz: nat
    const maxSglSegs: nat
    const totalSegs: nat
    const totalBufs: nat
    const decompBufs: array<Mbuf>
    const compBufs: array<Mbuf>
    var decompPool: nat
    var compPool: nat

    /** `totalSegs` is a 32-bit count, here of at most 2^32 - 1 segments. */
    constructor (inputSize: nat, segSz: uint16, outSegSz: nat, maxSglSegs: uint16)
      requires segSz > 0 && maxSglSegs > 0 && DivCeil(inputSize, segSz) < TWO_32
      ensures Sized(inputSize) && fresh(decompBufs) && fresh(compBufs)
      ensures decompPool == compPool == totalSegs
      ensures this.segSz == segSz && this.outSegSz == outSegSz && this.maxSglSegs == maxSglSegs
    {
      var segs: uint32 := DivCeil(inputSize, segSz);
      var bufs := DivCeil(segs, maxSglSegs);
      this.segSz, this.outSegSz, this.maxSglSegs := segSz, outSegSz, maxSglSegs;
      totalSegs, totalBufs := segs, bufs;
      decompPool, compPool := segs, segs;
      decompBufs := new Mbuf[bufs](_ => Mbuf([], 0));
      compBufs := new Mbuf[bufs](_ => Mbuf([], 0));
    }

    ghost predicate Sized(inputSize: nat) {
      && segSz > 0 && maxSglSegs > 0
      && totalSegs == DivCeil(inputSize, segSz) && totalBufs == DivCeil(totalSegs, maxSglSegs)
      && decompBufs.Length == compBufs.Length == totalBufs
      && decompBufs != compBufs
    }
  }

  /** An output buffer of `n` full segments; it fails exactly when the pool has fewer left. */
  method BuildOutput(n: nat, outSegSz: nat, pool: nat) returns (ok: bool, m: Mbuf, left: nat)
    requires n > 0
    ensures ok <==> n <= pool
    ensures ok ==> left == pool - n && IsOutput(m, n, outSegSz)
  {
    m, left := Mbuf([], 0), pool;
    if left == 0 {
      return false, m, left;
    }
    m, left := Mbuf([Segment(Padding(outSegSz), outSegSz)], outSegSz), left - 1;
    var j := 1;
    while j < n
      invariant 1 <= j <= n && left + j == pool && IsOutput(m, j, outSegSz)
    {
      if left == 0 {
        return false, m, left;
      }
      m := Mbuf(m.segs + [Segment(Padding(outSegSz), outSegSz)], m.pktLen + outSegSz);
      left := left - 1;
      Distribute(j, 1, outSegSz);
      j := j + 1;
    }
    ok := true;
  }

  ghost predicate IsOutput(m: Mbuf, n: nat, outSegSz: nat) {
    |m.segs| == n && Rooms(m.segs, outSegSz) && AllFull(m.segs) && m.pktLen == n * outSegSz
  }

  /** Buffer `i` holds the input from its cut to the next one, and its output buffer has as many
      segments. */
  ghost predicate Prepared(r: Resources, input: seq<byte>, end: nat, i: nat, d: Mbuf, c: Mbuf)
    requires r.segSz > 0 && end <= |input|
  {
    var here, there := Cut(i, end, r.segSz, r.maxSglSegs), Cut(i + 1, end, r.segSz, r.maxSglSegs);
    && here <= there
    && WellFormed(d.segs) && Rooms(d.segs, r.segSz) && Contents(d.segs) == input[here..there]
    && d.pktLen == there - here
    && |d.segs| == SegCount(end - here, r.segSz, r.maxSglSegs)
    && IsOutput(c, |d.segs|, r.outSegSz)
  }

  /** `remaining_data` is a 32-bit copy of the input size. */
  function EndOfData(input: seq<byte>): (end: nat)
    ensures end <= |input|
  {
    |input| % TWO_32
  }

  /** One round of the outer loop. Neither pool runs out. */
  method PrepareOne(input: seq<byte>, r: Resources, i: nat, end: nat, pos: nat)
    returns (ok: bool, next: nat, lastSz: nat)
    requires r.Sized(|input|) && i < r.totalBufs && end <= |input|
    requires pos == Cut(i, end, r.segSz, r.maxSglSegs)
    requires i * r.maxSglSegs < r.totalSegs
    requires r.decompPool == r.compPool >= r.totalSegs - i * r.maxSglSegs
    modifies r`decompPool, r`compPool, r.decompBufs, r.compBufs
    ensures ok && r.decompPool == r.compPool
    ensures r.decompPool == old(r.decompPool) - SegCount(end - pos, r.segSz, r.maxSglSegs)
    ensures next == Cut(i + 1, end, r.segSz, r.maxSglSegs)
    ensures Prepared(r, input, end, i, r.decompBufs[i], r.compBufs[i])
    ensures next == pos + (|r.decompBufs[i].segs| - 1) * r.segSz + lastSz
    ensures forall j :: 0 <= j < r.totalBufs && j != i ==> r.decompBufs[j] == old(r.decompBufs[j])
    ensures forall j :: 0 <= j < r.totalBufs && j != i ==> r.compBufs[j] == old(r.compBufs[j])
  {
    hide SegmentsFor, Contents;
    NextBufferFits(i, |input|, end, r.segSz, r.maxSglSegs);
    NextCut(i, end, r.segSz, r.maxSglSegs);
    var m, left, c;
    ok, m, next, left, lastSz := BuildInput(input, pos, end, r.segSz, r.maxSglSegs, r.decompPool);
    if !ok {
      return;
    }
    r.decompBufs[i], r.decompPool := m, left;
    ok, c, left := BuildOutput(|m.segs|, r.outSegSz, r.compPool);
    if !ok {
      return;
    }
    r.compBufs[i], r.compPool := c, left;
  }

  lemma NextCut(i: nat, end: nat, segSz: nat, maxSgl: nat)
    ensures Cut(i + 1, end, segSz, maxSgl) == Min(end, Cut(i, end, segSz, maxSgl) + maxSgl * segSz)
  {
    Distribute(i, 1, maxSgl * segSz);
  }

  lemma CeilBounds(a: nat, b: nat)
    requires b > 0
    ensures a <= DivCeil(a, b) * b
    ensures forall i: nat :: i < DivCeil(a, b) ==> i * b < a
  {
    var q := a / b;
    assert a == q * b + a % b;
    Distribute(q, 1, b);
    forall i: nat | i < DivCeil(a, b) ensures i * b < a {
      if i < q {
        MulMonotone(i + 1, q, b);
        Distribute(i, 1, b);
      }
    }
  }

  /** Where the outer loop stands after `i` buffers, with `left` segments in each pool. */
  ghost predicate SoFar(r: Resources, size: nat, end: nat, i: nat, pos: nat, left: nat, lastSz: nat) {
    && pos == Cut(i, end, r.segSz, r.maxSglSegs)
    && r.totalSegs - i * r.maxSglSegs <= left <= r.totalSegs
    && (end == size ==> left == r.totalSegs - SegmentsBefore(i, r.totalSegs, r.maxSglSegs))
    && (end == size && i > 0 ==> pos == (r.totalSegs - left - 1) * r.segSz + lastSz)
  }

  lemma SoFarStep(r: Resources, size: nat, end: nat, i: nat, pos: nat, left: nat, was: nat,
                  next: nat, n: nat, lastSz: nat)
    requires r.Sized(size) && end <= size && i * r.maxSglSegs < r.totalSegs
    requires SoFar(r, size, end, i, pos, left, was)
    requires n == SegCount(end - pos, r.segSz, r.maxSglSegs) && n <= left
    requires next == Cut(i + 1, end, r.segSz, r.maxSglSegs) == pos + (n - 1) * r.segSz + lastSz
    ensures SoFar(r, size, end, i + 1, next, left - n, lastSz)
  {
    hide SegmentsFor;
    NextBufferFits(i, size, end, r.segSz, r.maxSglSegs);
    Distribute(i, 1, r.maxSglSegs);
    if end == size {
      MulAssoc(i, r.maxSglSegs, r.segSz);
      CeilIsSegments(size, r.segSz);
      SegmentsAfter(size, i * r.maxSglSegs, r.segSz);
      assert pos == i * r.maxSglSegs * r.segSz;
      Distribute(i * r.maxSglSegs, n - 1, r.segSz);
    }
  }

  /** `prepare_bufs` never fails. It cuts up the input, or the part of it that a 32-bit size can
      speak of; when that is all of it, both pools are used up exactly. */
  method PrepareBufs(input: seq<byte>, r: Resources) returns (ok: bool, segsPerLast: nat, lastSz: nat)
    requires r.Sized(|input|) && r.decompPool == r.compPool == r.totalSegs
    modifies r`decompPool, r`compPool, r.decompBufs, r.compBufs
    ensures ok
    ensures forall i :: 0 <= i < r.totalBufs ==>
      Prepared(r, input, EndOfData(input), i, r.decompBufs[i], r.compBufs[i])
    ensures |input| < TWO_32 ==> r.decompPool == r.compPool == 0
    ensures 0 < |input| < TWO_32 ==>
      r.totalBufs > 0 && segsPerLast == |r.decompBufs[r.totalBufs - 1].segs|
    ensures 0 < |input| < TWO_32 ==> (r.totalSegs - 1) * r.segSz + lastSz == |input|
  {
    hide SoFar, Prepared, SegCount;
    var end: uint32 := EndOfData(input);
    CeilBounds(r.totalSegs, r.maxSglSegs);
    var pos := 0;
    ok, segsPerLast, lastSz := true, 0, 0;
    AtStart(r, |input|, end);
    for i := 0 to r.totalBufs
      invariant SoFar(r, |input|, end, i, pos, r.decompPool, lastSz) && r.decompPool == r.compPool
      invariant forall j :: 0 <= j < i ==> Prepared(r, input, end, j, r.decompBufs[j], r.compBufs[j])
      invariant i > 0 ==> segsPerLast == |r.decompBufs[i - 1].segs|
    {
      ghost var at, was, left := pos, lastSz, r.decompPool;
      EnoughLeft(r, |input|, end, i, pos, left, was);
      ok, pos, lastSz := PrepareOne(input, r, i, end, pos);
      if !ok {
        return;
      }
      segsPerLast := |r.decompBufs[i].segs|;
      PreparedCount(r, input, end, i, r.decompBufs[i], r.compBufs[i]);
      SoFarStep(r, |input|, end, i, at, left, was, pos, segsPerLast, lastSz);
    }
    AtEnd(r, |input|, end, pos, r.decompPool, lastSz);
  }

  lemma PreparedCount(r: Resources, input: seq<byte>, end: nat, i: nat, d: Mbuf, c: Mbuf)
    requires r.segSz > 0 && end <= |input| && Prepared(r, input, end, i, d, c)
    ensures |d.segs| == SegCount(end - Cut(i, end, r.segSz, r.maxSglSegs), r.segSz, r.maxSglSegs)
  {
  }

  lemma AtStart(r: Resources, size: nat, end: nat)
    requires r.Sized(size) && end <= size
    ensures SoFar(r, size, end, 0, 0, r.totalSegs, 0)
  {
  }

  lemma EnoughLeft(r: Resources, size: nat, end: nat, i: nat, pos: nat, left: nat, lastSz: nat)
    requires SoFar(r, size, end, i, pos, left, lastSz)
    ensures left >= r.totalSegs - i * r.maxSglSegs && pos == Cut(i, end, r.segSz, r.maxSglSegs)
  {
  }

  lemma AtEnd(r: Resources, size: nat, end: nat, pos: nat, left: nat, lastSz: nat)
    requires r.Sized(size) && end <= size && SoFar(r, size, end, r.totalBufs, pos, left, lastSz)
    ensures end == size ==> left == 0
    ensures size > 0 ==> r.totalBufs > 0
    ensures size > 0 && end == size ==> (r.totalSegs - 1) * r.segSz + lastSz == size
  {
    CutAtEnd(r, size, end);
  }

  /** The last cut is at the end of the data. */
  lemma CutAtEnd(r: Resources, size: nat, end: nat)
    requires r.Sized(size) && end <= size
    ensures Cut(r.totalBufs, end, r.segSz, r.maxSglSegs) == end
    ensures size > 0 ==> r.totalBufs > 0
    ensures SegmentsBefore(r.totalBufs, r.totalSegs, r.maxSglSegs) == r.totalSegs
  {
    CeilBounds(size, r.segSz);
    CeilBounds(r.totalSegs, r.maxSglSegs);
    MulMonotone(r.totalSegs, r.totalBufs * r.maxSglSegs, r.segSz);
    MulAssoc(r.totalBufs, r.maxSglSegs, r.segSz);
  }

  /** The packets of a sequence of buffers. */
  function Packets(bufs: seq<Mbuf>): (r: seq<seq<byte>>)
    requires forall i :: 0 <= i < |bufs| ==> WellFormed(bufs[i].segs)
    ensures |r| == |bufs|
    ensures forall i :: 0 <= i < |r| ==> r[i] == Bytes(bufs[i])
  {
    seq(|bufs|, i requires 0 <= i < |bufs| => Bytes(bufs[i]))
  }

  /** What `prepare_bufs` leaves in the arrays of buffers. */
  ghost predicate AllPrepared(r: Resources, input: seq<byte>, d: seq<Mbuf>, c: seq<Mbuf>) {
    && r.Sized(|input|) && |d| == |c| == r.totalBufs
    && forall i :: 0 <= i < |d| ==> Prepared(r, input, EndOfData(input), i, d[i], c[i])
  }

  /** The buffers one after the other are the input exactly when its size fits 32 bits. */
  lemma BuffersJoinToTheInput(r: Resources, input: seq<byte>, d: seq<Mbuf>, c: seq<Mbuf>)
    requires AllPrepared(r, input, d, c)
    ensures forall i :: 0 <= i < |d| ==> WellFormed(d[i].segs)
    ensures Join(Packets(d)) == input[..EndOfData(input)]
    ensures |Join(Packets(d))| == |input| % 0x1_0000_0000
    ensures Join(Packets(d)) == input <==> |input| < TWO_32
  {
    hide Prepared, Cut, Bytes, Join, WellFormed, DivCeil;
    var end := EndOfData(input);
    var cuts: seq<nat> := seq(|d| + 1, i requires 0 <= i => Cut(i, end, r.segSz, r.maxSglSegs));
    forall i | 0 <= i < |d| ensures WellFormed(d[i].segs) && Slice(input, cuts, i, Bytes(d[i])) {
      PreparedBytes(r, input, end, i, d[i], c[i]);
    }
    CutAtEnd(r, |input|, end);
    CutAtStart(end, r.segSz, r.maxSglSegs);
    SlicesJoin(input, Packets(d), cuts);
    assert input[..|input|] == input;
  }

  lemma PreparedBytes(r: Resources, input: seq<byte>, end: nat, i: nat, d: Mbuf, c: Mbuf)
    requires r.segSz > 0 && end <= |input| && Prepared(r, input, end, i, d, c)
    ensures WellFormed(d.segs)
    ensures var here, there := Cut(i, end, r.segSz, r.maxSglSegs), Cut(i + 1, end, r.segSz, r.maxSglSegs);
      here <= there && Bytes(d) == input[here..there] && |Bytes(d)| == d.pktLen
  {
  }

  lemma CutAtStart(end: nat, segSz: nat, maxSgl: nat)
    ensures Cut(0, end, segSz, maxSgl) == 0
  {
  }

  /** Every buffer but the last has `max_sgl_segs` segments. */
  lemma AllButTheLastAreLong(r: Resources, input: seq<byte>, d: seq<Mbuf>, c: seq<Mbuf>, i: nat)
    requires AllPrepared(r, input, d, c) && |input| < TWO_32 && i < r.totalBufs
    ensures |d[i].segs| == |c[i].segs|
    ensures i < r.totalBufs - 1 ==> |d[i].segs| == r.maxSglSegs
    ensures i == r.totalBufs - 1 ==> |d[i].segs| == r.totalSegs - i * r.maxSglSegs
  {
    assert Prepared(r, input, EndOfData(input), i, d[i], c[i]);
    CeilBounds(r.totalSegs, r.maxSglSegs);
    NextBufferFits(i, |input|, EndOfData(input), r.segSz, r.maxSglSegs);
    Distribute(i, 1, r.maxSglSegs);
    if i < r.totalBufs - 1 {
      assert (i + 1) * r.maxSglSegs < r.totalSegs;
    }
  }
}
