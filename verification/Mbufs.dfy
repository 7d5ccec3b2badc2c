/** Packet buffers: chains of segments with a data room each, as `struct rte_mbuf` holds them. */
module Mbufs {
  import opened Words

  type byte = x: int | 0 <= x < 256

  /** The data room from `data_off` on, and how much of it is in use. */
  datatype Segment = Segment(room: seq<byte>, dataLen: nat)

  datatype Mbuf = Mbuf(segs: seq<Segment>, pktLen: nat)

  predicate WellFormed(segs: seq<Segment>) {
    forall i :: 0 <= i < |segs| ==> segs[i].dataLen <= |segs[i].room|
  }

  /** Every segment has a data room of `size` bytes. */
  predicate Rooms(segs: seq<Segment>, size: nat) {
    forall i :: 0 <= i < |segs| ==> |segs[i].room| == size
  }

  predicate AllFull(segs: seq<Segment>) {
    forall i :: 0 <= i < |segs| ==> segs[i].dataLen == |segs[i].room|
  }

  /** The bytes in use, segment after segment. */
  function Contents(segs: seq<Segment>): seq<byte>
    requires WellFormed(segs)
  {
    if segs == [] then [] else segs[0].room[..segs[0].dataLen] + Contents(segs[1..])
  }

  /** The packet: the first `pkt_len` bytes. */
  function Bytes(m: Mbuf): seq<byte>
    requires WellFormed(m.segs)
  {
    var c := Contents(m.segs);
    if m.pktLen <= |c| then c[..m.pktLen] else c
  }

  /** Byte strings one after the other. */
  function Join(parts: seq<seq<byte>>): seq<byte> {
    if parts == [] then [] else Join(parts[..|parts| - 1]) + parts[|parts| - 1]
  }

  lemma JoinOneMore(parts: seq<seq<byte>>, part: seq<byte>)
    ensures Join(parts + [part]) == Join(parts) + part
  {
    assert (parts + [part])[..|parts|] == parts;
  }

  /** Consecutive slices of a byte string join to a prefix of it. */
  lemma {:induction false} SlicesJoin(s: seq<byte>, parts: seq<seq<byte>>, cuts: seq<nat>)
    requires |cuts| == |parts| + 1 && cuts[0] == 0 && cuts[|parts|] <= |s|
    requires forall i :: 0 <= i < |parts| ==> Slice(s, cuts, i, parts[i])
    ensures Join(parts) == s[..cuts[|parts|]]
  {
    if parts != [] {
      var n := |parts| - 1;
      assert Slice(s, cuts, n, parts[n]);
      forall i | 0 <= i < n ensures Slice(s, cuts[..n + 1], i, parts[..n][i]) {
        assert Slice(s, cuts, i, parts[i]);
      }
      SlicesJoin(s, parts[..n], cuts[..n + 1]);
      assert s[..cuts[n + 1]] == s[..cuts[n]] + s[cuts[n]..cuts[n + 1]];
    }
  }

  predicate Slice(s: seq<byte>, cuts: seq<nat>, i: nat, part: seq<byte>) {
    i + 1 < |cuts| && cuts[i] <= cuts[i + 1] <= |s| && part == s[cuts[i]..cuts[i + 1]]
  }

  lemma {:induction false} ContentsConcat(s: seq<Segment>, t: seq<Segment>)
    requires WellFormed(s) && WellFormed(t)
    ensures WellFormed(s + t) && Contents(s + t) == Contents(s) + Contents(t)
  {
    if s == [] {
      assert s + t == t;
    } else {
      assert (s + t)[1..] == s[1..] + t;
      ContentsConcat(s[1..], t);
    }
  }

  /** A device writes its output into the data rooms, one after the other. */
  function Fill(segs: seq<Segment>, data: seq<byte>): (r: seq<Segment>)
    ensures |r| == |segs|
    ensures forall i :: 0 <= i < |r| ==> |r[i].room| == |segs[i].room| && r[i].dataLen == segs[i].dataLen
  {
    if segs == [] then []
    else
      var k := Min(|segs[0].room|, |data|);
      [segs[0].(room := data[..k] + segs[0].room[k..])] + Fill(segs[1..], data[k..])
  }

  /** `data_len` of the segments is cut down to the bytes produced. */
  function Trim(segs: seq<Segment>, produced: nat, segSz: nat): (r: seq<Segment>)
    ensures |r| == |segs|
    ensures forall i :: 0 <= i < |r| ==> r[i].room == segs[i].room
  {
    if segs == [] || produced == 0 then segs
    else
      var k := Min(produced, segSz);
      [segs[0].(dataLen := k)] + Trim(segs[1..], produced - k, segSz)
  }

  /** Segment `i` is left with what was written into it: full ones first, then the rest. The segments
      behind are not looked at. */
  lemma {:induction false} TrimLengths(segs: seq<Segment>, produced: nat, segSz: nat, i: nat)
    requires i < |segs| && segSz > 0
    ensures Trim(segs, produced, segSz)[i].dataLen ==
      if produced >= (i + 1) * segSz then segSz
      else if produced > i * segSz then produced - i * segSz
      else segs[i].dataLen
  {
    if i > 0 && produced > 0 {
      TrimLengths(segs[1..], produced - Min(produced, segSz), segSz, i - 1);
      assert (i + 1) * segSz == i * segSz + segSz && i * segSz == (i - 1) * segSz + segSz;
    }
  }

  /** All data rooms together. */
  function Capacity(segs: seq<Segment>): nat {
    if segs == [] then 0 else |segs[0].room| + Capacity(segs[1..])
  }

  lemma {:induction false} CapacityOfRooms(segs: seq<Segment>, size: nat)
    requires Rooms(segs, size)
    ensures Capacity(segs) == |segs| * size
  {
    if segs != [] {
      CapacityOfRooms(segs[1..], size);
      assert (|segs| - 1) * size + size == |segs| * size;
    }
  }

  lemma {:induction false} FullLength(segs: seq<Segment>)
    requires AllFull(segs)
    ensures WellFormed(segs) && |Contents(segs)| == Capacity(segs)
  {
    if segs != [] {
      FullLength(segs[1..]);
    }
  }

  /** What a device wrote into a chain of full segments is what the chain then begins with. */
  lemma {:induction false} FillReads(segs: seq<Segment>, data: seq<byte>)
    requires AllFull(segs) && |data| <= Capacity(segs)
    ensures AllFull(Fill(segs, data)) && WellFormed(Fill(segs, data))
    ensures |data| <= |Contents(Fill(segs, data))| == Capacity(segs)
    ensures Contents(Fill(segs, data))[..|data|] == data
  {
    FillKeepsCapacity(segs, data);
    FullLength(Fill(segs, data));
    if segs != [] {
      var k := Min(|segs[0].room|, |data|);
      var first, rest := data[..k] + segs[0].room[k..], Fill(segs[1..], data[k..]);
      FillReads(segs[1..], data[k..]);
      assert Contents(Fill(segs, data)) == first + Contents(rest);
      if k < |data| {
        assert (first + Contents(rest))[..|data|] == first + Contents(rest)[..|data| - k];
        assert data == data[..k] + data[k..];
      } else {
        assert (first + Contents(rest))[..k] == data[..k];
      }
    }
  }

  lemma {:induction false} FillKeepsCapacity(segs: seq<Segment>, data: seq<byte>)
    ensures Capacity(Fill(segs, data)) == Capacity(segs)
  {
    if segs != [] {
      FillKeepsCapacity(segs[1..], data[Min(|segs[0].room|, |data|)..]);
    }
  }

  /** Trimming to the bytes produced does not change what they are. */
  lemma {:induction false} TrimReads(segs: seq<Segment>, produced: nat, size: nat)
    requires Rooms(segs, size) && AllFull(segs) && WellFormed(segs) && size > 0
    requires produced <= |Contents(segs)|
    ensures WellFormed(Trim(segs, produced, size))
    ensures produced <= |Contents(Trim(segs, produced, size))|
    ensures Contents(Trim(segs, produced, size))[..produced] == Contents(segs)[..produced]
  {
    if segs != [] && produced > 0 {
      var k := Min(produced, size);
      var rest := Trim(segs[1..], produced - k, size);
      TrimReads(segs[1..], produced - k, size);
      assert Trim(segs, produced, size)[1..] == rest;
      assert Contents(Trim(segs, produced, size)) == segs[0].room[..k] + Contents(rest);
      assert segs[0].room[..size] == segs[0].room;
    }
  }

  /** Before an operation is offered to the device its output chain is opened to its full size. */
  method Reset(m: Mbuf, segSz: nat) returns (r: Mbuf)
    ensures |r.segs| == |m.segs| && r.pktLen == segSz * |m.segs| && AllFull(r.segs)
    ensures forall i :: 0 <= i < |m.segs| ==> r.segs[i].room == m.segs[i].room
  {
    var segs, i := m.segs, 0;
    while i < |segs|
      invariant i <= |segs| == |m.segs|
      invariant forall j :: 0 <= j < i ==> segs[j] == Segment(m.segs[j].room, |m.segs[j].room|)
      invariant forall j :: i <= j < |segs| ==> segs[j] == m.segs[j]
    {
      segs := segs[i := Segment(segs[i].room, |segs[i].room|)];
      i := i + 1;
    }
    r := Mbuf(segs, segSz * |m.segs|);
  }

  /** How many segments `n` bytes take up. */
  function SegmentsFor(n: nat, segSz: nat): nat
    requires segSz > 0
  {
    if n == 0 then 0 else 1 + SegmentsFor(n - Min(n, segSz), segSz)
  }

  lemma {:induction false} EnoughSegments(n: nat, segSz: nat, k: nat)
    requires segSz > 0 && n <= k * segSz
    ensures SegmentsFor(n, segSz) <= k
    decreases n
  {
    if n > 0 {
      assert (k - 1) * segSz == k * segSz - segSz;
      EnoughSegments(n - Min(n, segSz), segSz, k - 1);
    }
  }

  /** After an operation came back its output chain is cut down to what was produced; `rest` is the
      chain from the segment the loop has reached. */
  method Shrink(m: Mbuf, produced: nat, segSz: nat) returns (r: Mbuf)
    requires segSz > 0 && SegmentsFor(produced, segSz) <= |m.segs|
    ensures r == Mbuf(Trim(m.segs, produced, segSz), produced)
  {
    var done: seq<Segment>, rest, remaining: nat := [], m.segs, produced;
    while remaining > 0
      invariant SegmentsFor(remaining, segSz) <= |rest|
      invariant done + Trim(rest, remaining, segSz) == Trim(m.segs, produced, segSz)
      decreases remaining
    {
      var dataLen := Min(remaining, segSz);
      ghost var left := Trim(rest[1..], remaining - dataLen, segSz);
      assert done + ([rest[0].(dataLen := dataLen)] + left) == (done + [rest[0].(dataLen := dataLen)]) + left;
      done := done + [rest[0].(dataLen := dataLen)];
      remaining, rest := remaining - dataLen, rest[1..];
    }
    r := Mbuf(done + rest, produced);
  }
}
