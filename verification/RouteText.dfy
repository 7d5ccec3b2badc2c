/** `dump_rt_4` and `parse_rt_4` of test-fib/main.c: IPv4 routes written to a text file and read back. */
module RouteText {
  import opened Words
  import opened Arithmetic
  import opened Numbers
  import opened Tokens

  datatype Route = Route(addr: uint32, depth: nat, nh: nat)

  /** `depth` is an 8-bit and `nh` a 64-bit field. */
  predicate InRange(rt: Route) {
    rt.depth < 0x100 && rt.nh < TWO_64
  }

  // ---- Dumping ----

  /** The bytes of an address, the most significant first. */
  function Octet(addr: uint32, i: nat): (b: nat)
    requires i < 4
    ensures b < 0x100
  {
    match i
    case 0 => addr / 0x100_0000
    case 1 => addr / 0x1_0000 % 0x100
    case 2 => addr / 0x100 % 0x100
    case _ => addr % 0x100
  }

  function Dotted(addr: uint32): string {
    var a, b := Decimal(Octet(addr, 0)), Decimal(Octet(addr, 1));
    var c, d := Decimal(Octet(addr, 2)), Decimal(Octet(addr, 3));
    a + ("." + (b + ("." + (c + ("." + d)))))
  }

  function Prefix(rt: Route): string {
    Dotted(rt.addr) + ("/" + Decimal(rt.depth))
  }

  function DumpLine(rt: Route): string {
    Prefix(rt) + (" " + (Decimal(rt.nh) + "\n"))
  }

  function DumpText(rts: seq<Route>): string {
    if rts == [] then "" else DumpLine(rts[0]) + DumpText(rts[1..])
  }

  /** `dump_rt_4`. */
  method Dump(rt: array<Route>) returns (text: string)
    ensures text == DumpText(rt[..])
  {
    hide DumpLine;
    text := "";
    assert text + DumpText(rt[..]) == DumpText(rt[..]) && rt[0..] == rt[..];
    for i := 0 to rt.Length
      invariant text + DumpText(rt[i..]) == DumpText(rt[..])
    {
      DumpStep(rt[..], i);
      Associate(text, DumpLine(rt[i]), DumpText(rt[i + 1..]));
      text := text + DumpLine(rt[i]);
    }
    assert text + DumpText([]) == text;
  }

  lemma DumpStep(rts: seq<Route>, i: nat)
    requires i < |rts|
    ensures DumpText(rts[i..]) == DumpLine(rts[i]) + DumpText(rts[i + 1..])
  {
    assert rts[i..][1..] == rts[i + 1..];
  }

  lemma Associate(a: string, b: string, c: string)
    ensures a + (b + c) == (a + b) + c
  {
  }

  // ---- Addresses ----

  function Split(s: string): (parts: seq<string>) {
    var part := Span(s, ".");
    if |part| == |s| then [part] else [part] + Split(s[|part| + 1..])
  }

  lemma SplitOf(part: string, rest: string)
    requires Free(part, ".")
    ensures Split(part + ("." + rest)) == [part] + Split(rest)
    ensures Split(part) == [part]
  {
    SpanOf(part, "." + rest, ".");
    SpanOf(part, "", ".");
    assert part + "" == part;
    assert part + ("." + rest) == (part + ".") + rest;
    assert (part + ("." + rest))[|part| + 1..] == rest;
  }

  /** One to three decimal digits, not more than 255. */
  predicate IsOctet(s: string) {
    1 <= |s| <= 3 && Digits(s, 10) && Value(s, 10) <= 255
  }

  /** `inet_pton` for `AF_INET`, and the conversion to the byte order of the host. */
  function Address(s: string): Option<uint32> {
    var parts := Split(s);
    if |parts| == 4 && IsOctet(parts[0]) && IsOctet(parts[1]) && IsOctet(parts[2]) && IsOctet(parts[3]) then
      Some(Word(Value(parts[0], 10), Value(parts[1], 10), Value(parts[2], 10), Value(parts[3], 10)))
    else None
  }

  /** The 32-bit value of four bytes, the most significant first. */
  function Word(a: nat, b: nat, c: nat, d: nat): uint32
    requires a < 0x100 && b < 0x100 && c < 0x100 && d < 0x100
  {
    a * 0x100_0000 + b * 0x1_0000 + c * 0x100 + d
  }

  lemma WordOfOctets(addr: uint32)
    ensures Word(Octet(addr, 0), Octet(addr, 1), Octet(addr, 2), Octet(addr, 3)) == addr
  {
    assert addr / 0x1_0000 == addr / 0x100_0000 * 0x100 + addr / 0x1_0000 % 0x100;
    assert addr / 0x100 == addr / 0x1_0000 * 0x100 + addr / 0x100 % 0x100;
  }

  lemma OctetOfDecimal(b: nat)
    requires b < 0x100
    ensures IsOctet(Decimal(b)) && Value(Decimal(b), 10) == b && Free(Decimal(b), "./ \t\n")
  {
    DecimalReads(b);
    DecimalLength(b, 3);
  }

  lemma AddressOfDotted(addr: uint32)
    ensures Address(Dotted(addr)) == Some(addr)
  {
    hide IsOctet, Free, Decimal, Octet, Word, Value;
    WordOfOctets(addr);
    var a, b := Decimal(Octet(addr, 0)), Decimal(Octet(addr, 1));
    var c, d := Decimal(Octet(addr, 2)), Decimal(Octet(addr, 3));
    OctetOfDecimal(Octet(addr, 0));
    OctetOfDecimal(Octet(addr, 1));
    OctetOfDecimal(Octet(addr, 2));
    OctetOfDecimal(Octet(addr, 3));
    FreeOfDots(a);
    FreeOfDots(b);
    FreeOfDots(c);
    FreeOfDots(d);
    SplitOf(a, b + ("." + (c + ("." + d))));
    SplitOf(b, c + ("." + d));
    SplitOf(c, d);
    SplitOf(d, "");
    assert Split(Dotted(addr)) == [a, b, c, d];
  }

  lemma FreeOfDots(s: string)
    requires Free(s, "./ \t\n")
    ensures Free(s, ".")
  {
  }

  /** The text of an address is its four bytes in decimal, the most significant first. */
  lemma DottedMeans(addr: uint32, a: nat, b: nat, c: nat, d: nat)
    requires a < 0x100 && b < 0x100 && c < 0x100 && d < 0x100
    requires addr == a * 0x100_0000 + b * 0x1_0000 + c * 0x100 + d
    ensures Dotted(addr) == Decimal(a) + ("." + (Decimal(b) + ("." + (Decimal(c) + ("." + Decimal(d))))))
    ensures Address(Dotted(addr)) == Some(addr)
    ensures SwapBytes(addr) == d * 0x100_0000 + c * 0x1_0000 + b * 0x100 + a
  {
    hide Decimal, Address, Octet;
    OctetsOf(addr, a, b, c, d);
    AddressOfDotted(addr);
  }

  lemma OctetsOf(addr: uint32, a: nat, b: nat, c: nat, d: nat)
    requires a < 0x100 && b < 0x100 && c < 0x100 && d < 0x100
    requires addr == a * 0x100_0000 + b * 0x1_0000 + c * 0x100 + d
    ensures Octet(addr, 0) == a && Octet(addr, 1) == b && Octet(addr, 2) == c && Octet(addr, 3) == d
  {
    QuotientIs(addr, 0x100_0000, a, b * 0x1_0000 + c * 0x100 + d);
    QuotientIs(addr, 0x1_0000, a * 0x100 + b, c * 0x100 + d);
    QuotientIs(addr, 0x100, (a * 0x100 + b) * 0x100 + c, d);
    QuotientIs(a * 0x100 + b, 0x100, a, b);
    QuotientIs((a * 0x100 + b) * 0x100 + c, 0x100, a * 0x100 + b, c);
  }

  /** A line of the dump is the address, a slash, the depth, a blank, and the next hop. */
  lemma DumpLineMeans(rt: Route)
    ensures DumpLine(rt) == Dotted(rt.addr) + "/" + Decimal(rt.depth) + " " + Decimal(rt.nh) + "\n"
  {
    hide Dotted, Decimal;
    var a, b, c := Dotted(rt.addr), Decimal(rt.depth), Decimal(rt.nh);
    Associate(a, "/", b);
    Associate(a + "/" + b, " ", c + "\n");
    Associate(a + "/" + b + " ", c, "\n");
  }

  // ---- Parsing ----

  const EINVAL := 22

  /** What `_inet_net_pton` leaves behind: the address if there is one, and its result. Without a length
      behind the address the program passes a null pointer to `strtoul`. */
  datatype PrefixResult = PrefixResult(addr: Option<uint32>, ret: int) | NullPointer

  /** A malformed address gives `-errno`, which `inet_pton` does not set; a malformed length `-EINVAL`. */
  function ParsePrefix(s: string, errno: nat): PrefixResult {
    match NextToken(s, "/")
    case None => PrefixResult(None, -EINVAL)
    case Some(first) =>
      match Address(first.text)
      case None => PrefixResult(None, 0 - errno)
      case Some(addr) =>
        match NextToken(first.rest, "/")
        case None => NullPointer
        case Some(second) =>
          match Field(second.text, 32)
          case None => PrefixResult(Some(addr), -EINVAL)
          case Some(depth) => PrefixResult(Some(addr), depth)
  }

  /** The entries of `nb_routes_per_depth`. */
  const DEPTHS := 129

  /** What a line does: it gives a route; it ends the reading with an error code; its address and depth
      are stored and counted, but its next hop is bad; it counts its route outside of the array of
      counters; or it makes the program read from a null pointer. */
  datatype LineResult =
    | Parsed(rt: Route)
    | Failed(code: int)
    | BadNextHop(addr: uint32, depth: nat)
    | OutOfBounds(addr: uint32, index: int)
    | Crashed

  /** The entry keeps its old address if there is no new one, but with its bytes reversed. */
  function SwapBytes(addr: uint32): uint32 {
    Word(Octet(addr, 3), Octet(addr, 2), Octet(addr, 1), Octet(addr, 0))
  }

  /** One line of the file, for an entry whose address was `stale`. Of the results of the prefix only -1
      is taken for an error. */
  function ParseLine(line: string, errno: nat, stale: uint32): LineResult {
    match NextToken(line, " \t\n")
    case None => Failed(-EINVAL)
    case Some(prefix) =>
      match NextToken(prefix.rest, " \t\n")
      case None => Failed(-EINVAL)
      case Some(hop) =>
        match ParsePrefix(prefix.text, errno)
        case NullPointer => Crashed
        case PrefixResult(found, ret) =>
          var addr := if found.Some? then found.value else SwapBytes(stale);
          if ret == -1 then Failed(0 - errno)
          else if ret < 0 || ret >= DEPTHS then OutOfBounds(addr, ret)
          else
            match Field(hop.text, TWO_32 - 1)
            case None => BadNextHop(addr, ret)
            case Some(nh) => Parsed(Route(addr, ret, nh))
  }

  // ---- Malformed prefixes ----

  /** An address and a length of at most 32, with a slash in between. */
  predicate IsPrefix(s: string) {
    var first := NextToken(s, "/");
    && first.Some? && Address(first.value.text).Some?
    && var second := NextToken(first.value.rest, "/");
    second.Some? && Field(second.value.text, 32).Some?
  }

  /** There is something where the address should be, but it is no address. */
  predicate BadAddress(s: string) {
    var first := NextToken(s, "/");
    first.Some? && Address(first.value.text) == None
  }

  /** The line has two words, the second of which is a next hop. */
  predicate HasNextHop(line: string) {
    var prefix := NextToken(line, " \t\n");
    && prefix.Some?
    && var hop := NextToken(prefix.value.rest, " \t\n");
    hop.Some? && Field(hop.value.text, TWO_32 - 1).Some?
  }

  /** A line is taken for a route exactly if it has a next hop and either a good prefix or, when `errno`
      is 0, a bad address: that becomes a default route for an address that was never read. */
  lemma AcceptedExactlyWhen(line: string, errno: nat, stale: uint32)
    ensures ParseLine(line, errno, stale).Parsed? <==>
      && HasNextHop(line)
      && var prefix := NextToken(line, " \t\n").value.text;
      IsPrefix(prefix) || (BadAddress(prefix) && errno == 0)
    ensures HasNextHop(line) && BadAddress(NextToken(line, " \t\n").value.text) && errno == 0 ==>
      ParseLine(line, errno, stale).rt.addr == SwapBytes(stale) && ParseLine(line, errno, stale).rt.depth == 0
  {
    hide Field, Address, NextToken, SwapBytes;
    var prefix := NextToken(line, " \t\n");
    if prefix.Some? {
      DepthWithin(prefix.value.text, errno);
    }
  }

  /** The line has two words. */
  predicate HasWords(line: string) {
    var prefix := NextToken(line, " \t\n");
    prefix.Some? && NextToken(prefix.value.rest, " \t\n").Some?
  }

  /** An address with nothing behind it. */
  predicate LengthMissing(s: string) {
    var first := NextToken(s, "/");
    first.Some? && Address(first.value.text).Some? && NextToken(first.value.rest, "/") == None
  }

  /** The other ways a line can end, each exactly when: it is refused with -22 for want of two words, or
      with -1 for a bad address when `errno` is 1; the program reads from a null pointer when the length is
      missing; only the next hop is bad; and the rest is counted outside of the array. */
  lemma EndsExactlyWhen(line: string, errno: nat, stale: uint32)
    ensures var r := ParseLine(line, errno, stale);
      && (!HasWords(line) ==> r == Failed(-22))
      && (HasWords(line) ==>
            var prefix := NextToken(line, " \t\n").value.text;
            && (r.Failed? <==> BadAddress(prefix) && errno == 1) && (r.Failed? ==> r.code == -1)
            && (r.Crashed? <==> LengthMissing(prefix))
            && (r.BadNextHop? <==> (IsPrefix(prefix) || (BadAddress(prefix) && errno == 0)) && !HasNextHop(line))
            && (r.OutOfBounds? ==> r.index == if BadAddress(prefix) then 0 - errno else -22))
  {
    hide Field, Address, NextToken, SwapBytes;
    var prefix := NextToken(line, " \t\n");
    if prefix.Some? {
      DepthWithin(prefix.value.text, errno);
    }
  }

  lemma DepthWithin(s: string, errno: nat)
    ensures ParsePrefix(s, errno).PrefixResult? ==> ParsePrefix(s, errno).ret <= 32
  {
    hide Address, NextToken;
  }

  /** Such a line: `x 5` is read as the route 5 for whatever address was in the entry, reversed. */
  lemma NonsenseIsAccepted(stale: uint32)
    ensures !IsPrefix("x") && ParseLine("x 5", 0, stale) == Parsed(Route(SwapBytes(stale), 0, 5))
  {
    hide Address, Field, SwapBytes;
    TokenOf("x", ' ', "5", " \t\n");
    assert "x 5" == "x" + ([' '] + "5");
    LastTokenOf("5", " \t\n");
    LastTokenOf("x", "/");
    NoAddress();
    FieldOfDecimal(5, TWO_32 - 1);
    assert Decimal(5) == "5";
  }

  lemma NoAddress()
    ensures Address("x") == None
  {
    SplitOf("x", "");
  }

  // ---- Lines that were dumped ----

  lemma ParsePrefixOf(rt: Route, errno: nat)
    requires InRange(rt)
    ensures ParsePrefix(Prefix(rt), errno) == PrefixResult(Some(rt.addr), if rt.depth <= 32 then rt.depth else -EINVAL)
    ensures Free(Prefix(rt), " \t\n") && Prefix(rt) != ""
  {
    hide Address, Field;
    var dotted, depth := Dotted(rt.addr), Decimal(rt.depth);
    DottedIsFree(rt.addr);
    DecimalIsFree(rt.depth);
    TokenOf(dotted, '/', depth, "/");
    LastTokenOf(depth, "/");
    AddressOfDotted(rt.addr);
    FieldOfDecimal(rt.depth, 32);
  }

  lemma DecimalIsFree(n: nat)
    ensures Decimal(n) != "" && Free(Decimal(n), "/ \t\n") && Free(Decimal(n), "/") && Free(Decimal(n), " \t\n")
  {
    DecimalReads(n);
  }

  lemma DottedIsFree(addr: uint32)
    ensures Dotted(addr) != "" && Free(Dotted(addr), "/") && Free(Dotted(addr), " \t\n")
  {
    DecimalIsFree(Octet(addr, 0));
    DecimalIsFree(Octet(addr, 1));
    DecimalIsFree(Octet(addr, 2));
    DecimalIsFree(Octet(addr, 3));
  }

  /** A line that was dumped reads back as the route, if its depth is one of IPv4 and its next hop fits
      32 bits. For a greater depth the result -22 is not taken for an error: the route is counted at that
      index. */
  lemma ParseDumped(rt: Route, errno: nat, stale: uint32)
    requires InRange(rt)
    ensures ParseLine(DumpLine(rt), errno, stale) ==
      if rt.depth > 32 then OutOfBounds(rt.addr, -EINVAL)
      else if rt.nh >= TWO_32 then BadNextHop(rt.addr, rt.depth)
      else Parsed(rt)
  {
    hide ParsePrefix, Prefix, Field;
    ParsePrefixOf(rt, errno);
    DecimalIsFree(rt.nh);
    TokenOf(Prefix(rt), ' ', Decimal(rt.nh) + "\n", " \t\n");
    assert Decimal(rt.nh) + "\n" == Decimal(rt.nh) + (['\n'] + "");
    TokenOf(Decimal(rt.nh), '\n', "", " \t\n");
    FieldOfDecimal(rt.nh, TWO_32 - 1);
  }
}
