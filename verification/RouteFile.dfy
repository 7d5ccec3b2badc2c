/** Whole files of routes: `parse_rt_4` over the lines that `fgets` returns. */
module RouteFile {
  import opened Words
  import opened Numbers
  import opened Tokens
  import opened RouteText

  /** `sizeof(line)`. */
  const LINE_MAX := 2048

  /** `fgets`: up to and including the next newline, but not more than the buffer holds. */
  function NextLine(text: string, room: nat): (line: string)
    ensures |line| <= |text| && line == text[..|line|]
    ensures text != "" && room > 0 ==> line != ""
  {
    if text == "" || room == 0 then ""
    else if text[0] == '\n' then "\n"
    else [text[0]] + NextLine(text[1..], room - 1)
  }

  function FileLines(text: string): seq<string> {
    if text == "" then []
    else
      var line := NextLine(text, LINE_MAX - 1);
      [line] + FileLines(text[|line|..])
  }

  /** A line goes up to the first newline, the end of the file, or character 2047. */
  lemma {:induction false} NextLineMeans(text: string, room: nat)
    ensures var line := NextLine(text, room);
      && |line| <= room && (forall i :: 0 <= i < |line| - 1 ==> line[i] != '\n')
      && (|line| == room || line == text || (line != "" && line[|line| - 1] == '\n'))
  {
    if text != "" && room > 0 && text[0] != '\n' {
      NextLineMeans(text[1..], room - 1);
    }
  }

  /** The lines are the text, and none is longer than 2047 characters. */
  lemma {:induction false} LinesAreTheText(text: string)
    ensures JoinLines(FileLines(text)) == text
    ensures forall i :: 0 <= i < |FileLines(text)| ==> 1 <= |FileLines(text)[i]| <= 2047
    decreases |text|
  {
    hide NextLine;
    if text != "" {
      var line := NextLine(text, LINE_MAX - 1);
      NextLineMeans(text, LINE_MAX - 1);
      LinesAreTheText(text[|line|..]);
      assert text == line + text[|line|..];
    }
  }

  function JoinLines(lines: seq<string>): string {
    if lines == [] then "" else lines[0] + JoinLines(lines[1..])
  }

  lemma {:induction false} NextLineOf(line: string, rest: string, room: nat)
    requires Free(line, "\n") && |line| < room
    ensures NextLine(line + ("\n" + rest), room) == line + "\n"
  {
    var text := line + ("\n" + rest);
    if line != "" {
      assert text[1..] == line[1..] + ("\n" + rest);
      NextLineOf(line[1..], rest, room - 1);
      assert line + "\n" == [line[0]] + (line[1..] + "\n");
    }
  }

  /** How the reading ends: at the end of the file, with an error code, by writing outside of the array
      of counters, or by reading from a null pointer. */
  datatype End = Complete | Error(code: int) | OutsideCounters(index: int) | Crash

  /** The routes up to the line that ended the reading. */
  datatype FileResult = FileResult(rts: seq<Route>, end: End)

  /** The entries of the array held the routes `was` before. Whatever `errno` was at first, after a line
      that was accepted it is 0. */
  function ParseLines(lines: seq<string>, errno: nat, was: seq<Route>): FileResult
    requires |lines| <= |was|
    decreases lines
  {
    if lines == [] then FileResult([], Complete)
    else
      match ParseLine(lines[0], errno, was[0].addr)
      case Parsed(rt) =>
        var more := ParseLines(lines[1..], 0, was[1..]);
        FileResult([rt] + more.rts, more.end)
      case other => FileResult([], EndOf(other))
  }

  function EndOf(line: LineResult): End
    requires !line.Parsed?
  {
    match line
    case Failed(code) => Error(code)
    case BadNextHop(_, _) => Error(-EINVAL)
    case OutOfBounds(_, index) => OutsideCounters(index)
    case Crashed => Crash
  }

  function CountDepth(rts: seq<Route>, d: nat): nat {
    if rts == [] then 0 else CountDepth(rts[..|rts| - 1], d) + if rts[|rts| - 1].depth == d then 1 else 0
  }

  lemma ParsedInRange(line: string, errno: nat, stale: uint32)
    ensures ParseLine(line, errno, stale).Parsed? ==> ParseLine(line, errno, stale).rt.depth < DEPTHS
    ensures ParseLine(line, errno, stale).BadNextHop? ==> ParseLine(line, errno, stale).depth < DEPTHS
    ensures ParseLine(line, errno, stale).OutOfBounds? ==>
      !(0 <= ParseLine(line, errno, stale).index < DEPTHS)
  {
  }

  lemma CountOneMore(rts: seq<Route>, rt: Route, d: nat)
    ensures CountDepth(rts + [rt], d) == CountDepth(rts, d) + if rt.depth == d then 1 else 0
  {
    assert (rts + [rt])[..|rts|] == rts;
  }

  /** The counters have gone up, modulo 2^32, by the numbers of routes of each depth. */
  ghost predicate Counted(base: seq<uint32>, now: seq<uint32>, rts: seq<Route>) {
    |base| == |now| == DEPTHS && forall d :: 0 <= d < DEPTHS ==> now[d] == (base[d] + CountDepth(rts, d)) % TWO_32
  }

  lemma CountedOneMore(base: seq<uint32>, now: seq<uint32>, rts: seq<Route>, rt: Route)
    requires Counted(base, now, rts) && rt.depth < DEPTHS
    ensures Counted(base, now[rt.depth := (now[rt.depth] + 1) % TWO_32], rts + [rt])
  {
    hide CountDepth;
    forall d | 0 <= d < DEPTHS
      ensures now[rt.depth := (now[rt.depth] + 1) % TWO_32][d] == (base[d] + CountDepth(rts + [rt], d)) % TWO_32
    {
      CountOneMore(rts, rt, d);
    }
  }

  /** The route becomes entry `j`. */
  method Store(route: Route, rt: array<Route>, j: nat, perDepth: array<uint32>, ghost base: seq<uint32>)
    requires j < rt.Length && route.depth < perDepth.Length == DEPTHS
    requires Counted(base, perDepth[..], rt[..j])
    modifies rt, perDepth
    ensures rt[..j + 1] == old(rt[..j]) + [route] && rt[j + 1..] == old(rt[j + 1..])
    ensures Counted(base, perDepth[..], rt[..j + 1])
  {
    hide Counted;
    ghost var was, rts := perDepth[..], rt[..j];
    CountedOneMore(base, was, rts, route);
    rt[j] := route;
    perDepth[route.depth] := (perDepth[route.depth] + 1) % TWO_32;
    assert perDepth[..] == was[route.depth := perDepth[route.depth]];
    assert rt[..j + 1] == rts + [route];
  }

  /** A line of the file ends the reading; what it has stored so far stays. */
  method Stop(line: LineResult, rt: array<Route>, j: nat, perDepth: array<uint32>) returns (end: End)
    requires !line.Parsed? && j < rt.Length && perDepth.Length == DEPTHS
    requires line.BadNextHop? ==> line.depth < DEPTHS
    modifies rt, perDepth
    ensures end == EndOf(line) && rt[..j] == old(rt[..j])
    ensures line.OutOfBounds? ==> rt[j] == Route(line.addr, line.index % 0x100, old(rt[j]).nh)
  {
    end := EndOf(line);
    match line {
      case BadNextHop(addr, depth) =>
        rt[j] := rt[j].(addr := addr, depth := depth);
        perDepth[depth] := (perDepth[depth] + 1) % TWO_32;
      case OutOfBounds(addr, index) =>
        rt[j] := rt[j].(addr := addr, depth := index % 0x100);
      case _ =>
    }
    assert rt[..j] == old(rt[..j]);
  }

  /** `parse_rt_4` into an array with an entry for every line of the file. It also counts the routes of
      each depth. When a negative depth is counted, its last eight bits are already stored. */
  method Parse(text: string, errno: nat, rt: array<Route>, perDepth: array<uint32>) returns (end: End, j: nat)
    requires |FileLines(text)| <= rt.Length && perDepth.Length == DEPTHS
    modifies rt, perDepth
    ensures end == ParseLines(FileLines(text), errno, old(rt[..])).end && j <= rt.Length
    ensures rt[..j] == ParseLines(FileLines(text), errno, old(rt[..])).rts
    ensures end.Complete? ==> Counted(old(perDepth[..]), perDepth[..], rt[..j])
    ensures end.OutsideCounters? ==>
      j < rt.Length && rt[j].depth == end.index % 0x100 && !(0 <= end.index < DEPTHS)
  {
    hide Counted, ParseLine, ParseLines, FileLines;
    ghost var was := rt[..];
    var rest, e := text, errno;
    j := 0;
    NoneYet(perDepth[..], rt[..0]);
    assert was[0..] == was;
    while rest != ""
      invariant j + |FileLines(rest)| <= rt.Length == |was| && rt[j..] == was[j..]
      invariant ParseLines(FileLines(text), errno, was).end == ParseLines(FileLines(rest), e, was[j..]).end
      invariant ParseLines(FileLines(text), errno, was).rts
        == rt[..j] + ParseLines(FileLines(rest), e, was[j..]).rts
      invariant Counted(old(perDepth[..]), perDepth[..], rt[..j])
      decreases |rest|
    {
      var line := NextLine(rest, LINE_MAX - 1);
      OneLine(rest, line, e, was[j..]);
      assert rt[j] == rt[j..][0] == was[j];
      var result := ParseLine(line, e, rt[j].addr);
      if !result.Parsed? {
        end := Stop(result, rt, j, perDepth);
        return;
      }
      assert rt[j + 1..] == rt[j..][1..];
      ghost var rts, more := rt[..j], ParseLines(FileLines(rest[|line|..]), 0, was[j + 1..]);
      Store(result.rt, rt, j, perDepth, old(perDepth[..]));
      assert rts + ([result.rt] + more.rts) == (rts + [result.rt]) + more.rts;
      assert was[j..][1..] == was[j + 1..];
      assert rt[j + 1..] == was[j + 1..];
      rest, e, j := rest[|line|..], 0, j + 1;
    }
    NoLines(e, was[j..]);
    end := Complete;
  }

  lemma OneLine(rest: string, line: string, errno: nat, was: seq<Route>)
    requires rest != "" && line == NextLine(rest, LINE_MAX - 1) && |FileLines(rest)| <= |was|
    ensures line != "" && |FileLines(rest)| == 1 + |FileLines(rest[|line|..])|
    ensures var result := ParseLine(line, errno, was[0].addr);
      ParseLines(FileLines(rest), errno, was) ==
        if result.Parsed? then
          var more := ParseLines(FileLines(rest[|line|..]), 0, was[1..]);
          FileResult([result.rt] + more.rts, more.end)
        else FileResult([], EndOf(result))
    ensures var result := ParseLine(line, errno, was[0].addr);
      && (result.Parsed? ==> result.rt.depth < DEPTHS)
      && (result.BadNextHop? ==> result.depth < DEPTHS)
      && (result.OutOfBounds? ==> !(0 <= result.index < DEPTHS))
  {
    hide ParseLine, NextLine;
    ParsedInRange(line, errno, was[0].addr);
    assert FileLines(rest)[1..] == FileLines(rest[|line|..]);
  }

  lemma NoLines(errno: nat, was: seq<Route>)
    ensures ParseLines(FileLines(""), errno, was) == FileResult([], Complete)
  {
  }

  lemma NoneYet(counts: seq<uint32>, none: seq<Route>)
    requires |counts| == DEPTHS && none == []
    ensures Counted(counts, counts, none)
  {
  }

  // ---- The round trip ----

  function DumpLines(rts: seq<Route>): (lines: seq<string>)
    ensures |lines| == |rts| && forall i :: 0 <= i < |rts| ==> lines[i] == DumpLine(rts[i])
  {
    seq(|rts|, i requires 0 <= i < |rts| => DumpLine(rts[i]))
  }

  lemma Tens()
    ensures TWO_64 <= Pow10(20) && 0x100 <= Pow10(3)
  {
    assert Pow10(5) == 100_000;
    assert Pow10(10) == 10_000_000_000;
    assert Pow10(15) == 1_000_000_000_000_000;
  }

  lemma PrefixLength(rt: Route)
    requires InRange(rt)
    ensures |Prefix(rt)| <= 19
  {
    hide Octet, Decimal;
    Tens();
    DecimalLength(Octet(rt.addr, 0), 3);
    DecimalLength(Octet(rt.addr, 1), 3);
    DecimalLength(Octet(rt.addr, 2), 3);
    DecimalLength(Octet(rt.addr, 3), 3);
    DecimalLength(rt.depth, 3);
  }

  /** A dumped line without its newline. */
  lemma DumpedBody(rt: Route)
    requires InRange(rt)
    ensures var body := Prefix(rt) + (" " + Decimal(rt.nh));
      Free(body, "\n") && |body| < LINE_MAX - 1
  {
    hide Prefix, Decimal, ParsePrefix;
    PrefixLength(rt);
    Tens();
    DecimalLength(rt.nh, 20);
    ParsePrefixOf(rt, 0);
    DecimalIsFree(rt.nh);
  }

  /** A dumped line fits the line buffer, so that `fgets` returns it whole. */
  lemma DumpedLineIsRead(rt: Route, rest: string)
    requires InRange(rt)
    ensures NextLine(DumpLine(rt) + rest, LINE_MAX - 1) == DumpLine(rt)
  {
    hide Prefix, Decimal, Free;
    var body := Prefix(rt) + (" " + Decimal(rt.nh));
    DumpedBody(rt);
    NextLineOf(body, rest, LINE_MAX - 1);
    assert DumpLine(rt) == body + "\n";
    assert (body + "\n") + rest == body + ("\n" + rest);
  }

  lemma {:induction false} LinesOfDump(rts: seq<Route>)
    requires forall i :: 0 <= i < |rts| ==> InRange(rts[i])
    ensures FileLines(DumpText(rts)) == DumpLines(rts)
  {
    hide NextLine, DumpLine;
    if rts != [] {
      DumpedLineIsRead(rts[0], DumpText(rts[1..]));
      LinesOfDump(rts[1..]);
      NotEmptyLine(rts[0]);
      assert DumpText(rts)[|DumpLine(rts[0])|..] == DumpText(rts[1..]);
      assert DumpLines(rts) == [DumpLine(rts[0])] + DumpLines(rts[1..]);
    }
  }

  lemma NotEmptyLine(rt: Route)
    ensures DumpLine(rt) != ""
  {
  }

  /** The first route that does not come back. */
  function FirstBad(rts: seq<Route>): (i: nat)
    ensures i <= |rts|
    ensures forall k :: 0 <= k < i ==> IsPlain(rts[k])
    ensures i < |rts| ==> !IsPlain(rts[i])
  {
    if rts == [] || !IsPlain(rts[0]) then 0 else 1 + FirstBad(rts[1..])
  }

  predicate IsPlain(rt: Route) {
    rt.depth <= 32 && rt.nh < TWO_32
  }

  /** Reading back what was written gives the routes before the first one whose depth is more than 32 or
      whose next hop does not fit 32 bits. At such a depth the program counts outside of its array, even
      if the next hop is bad as well; at such a next hop it stops with an error. */
  lemma {:induction false} ReadingBack(rts: seq<Route>, errno: nat, was: seq<Route>)
    requires (forall i :: 0 <= i < |rts| ==> InRange(rts[i])) && |DumpLines(rts)| <= |was|
    ensures var i := FirstBad(rts);
      ParseLines(DumpLines(rts), errno, was) == FileResult(rts[..i],
        if i == |rts| then Complete
        else if rts[i].depth > 32 then OutsideCounters(-EINVAL)
        else Error(-EINVAL))
    decreases |rts|
  {
    hide ParseLine, DumpLine;
    if rts != [] {
      ParseDumped(rts[0], errno, was[0].addr);
      assert DumpLines(rts)[1..] == DumpLines(rts[1..]);
      ReadingBack(rts[1..], 0, was[1..]);
      if IsPlain(rts[0]) {
        assert rts[..FirstBad(rts)] == [rts[0]] + rts[1..][..FirstBad(rts[1..])];
      }
    }
  }

  /** So the same routes come back in the same order, for lists of every length, exactly when all depths
      are at most 32 and all next hops fit 32 bits. */
  lemma RoundTrip(rts: seq<Route>, errno: nat, was: seq<Route>)
    requires (forall i :: 0 <= i < |rts| ==> InRange(rts[i])) && |FileLines(DumpText(rts))| <= |was|
    ensures var i := FirstBad(rts);
      ParseLines(FileLines(DumpText(rts)), errno, was) == FileResult(rts[..i],
        if i == |rts| then Complete
        else if rts[i].depth > 32 then OutsideCounters(-EINVAL)
        else Error(-EINVAL))
    ensures ParseLines(FileLines(DumpText(rts)), errno, was) == FileResult(rts, Complete) <==>
      forall i :: 0 <= i < |rts| ==> rts[i].depth <= 32 && rts[i].nh < TWO_32
  {
    hide ParseLines, DumpText, FileLines;
    LinesOfDump(rts);
    ReadingBack(rts, errno, was);
    assert rts[..|rts|] == rts;
  }
}
