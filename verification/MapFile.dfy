/** devtools/update_version_map_abi.py: a version map is parsed, its stable versions are merged into
    one, and it is written back. */
module MapFile {
  import opened Words
  import opened MapLines
  import opened StringOrder

  /** What a map file says. */
  datatype Abi = Abi(hasStable: bool, stable: set<string>, experimental: seq<string>, internal_: seq<string>)

  datatype State = State(abi: Abi, inExperimental: bool, inInternal: bool)

  const Start := State(Abi(false, {}, [], []), false, false)

  // ---- Parsing ----

  /** What one line of the file does. */
  function Take(st: State, raw: string): State {
    var line := Strip(raw);
    if SectionEnd(line) then st.(inExperimental := false, inInternal := false)
    else if st.inExperimental then st.(abi := st.abi.(experimental := st.abi.experimental + [line]))
    else if st.inInternal then st.(abi := st.abi.(internal_ := st.abi.internal_ + [line]))
    else if line == "" then st
    else
      match SectionBegin(line)
      case Some(version) => Begin(st, version)
      case None =>
        match FuncLine(line)
        case Some(f) => st.(abi := st.abi.(stable := st.abi.stable + {f}))
        case None => st
  }

  function Begin(st: State, version: string): State {
    var stable := version != "EXPERIMENTAL" && version != "INTERNAL";
    State(st.abi.(hasStable := st.abi.hasStable || stable), version == "EXPERIMENTAL", version == "INTERNAL")
  }

  function ParseFrom(st: State, lines: seq<string>): State
    decreases lines
  {
    if lines == [] then st else ParseFrom(Take(st, lines[0]), lines[1..])
  }

  lemma {:induction false} ParseConcat(st: State, a: seq<string>, b: seq<string>)
    ensures ParseFrom(st, a + b) == ParseFrom(ParseFrom(st, a), b)
    decreases a
  {
    if a == [] {
      assert a + b == b;
    } else {
      assert (a + b)[1..] == a[1..] + b;
      ParseConcat(Take(st, a[0]), a[1..], b);
    }
  }

  /** `__parse_map_file`. */
  method Parse(lines: seq<string>) returns (abi: Abi)
    ensures abi == ParseFrom(Start, lines).abi
  {
    var hasStable, stable, experimental: seq<string>, internal_: seq<string> := false, {}, [], [];
    var inExperimental, inInternal := false, false;
    for i := 0 to |lines|
      invariant ParseFrom(Start, lines) == ParseFrom(
        State(Abi(hasStable, stable, experimental, internal_), inExperimental, inInternal), lines[i..])
    {
      var line := Strip(lines[i]);
      if SectionEnd(line) {
        inExperimental, inInternal := false, false;
      } else if inExperimental {
        experimental := experimental + [line];
      } else if inInternal {
        internal_ := internal_ + [line];
      } else if line != "" {
        var begin := SectionBegin(line);
        if begin.Some? {
          inExperimental, inInternal := begin.value == "EXPERIMENTAL", begin.value == "INTERNAL";
          if !inExperimental && !inInternal {
            hasStable := true;
          }
        } else {
          var f := FuncLine(line);
          if f.Some? {
            stable := stable + {f.value};
          }
        }
      }
    }
    abi := Abi(hasStable, stable, experimental, internal_);
  }

  // ---- Printing ----

  function Indented(lines: seq<string>): (r: seq<string>)
    ensures |r| == |lines|
    ensures forall i :: 0 <= i < |r| ==> r[i] == if lines[i] == "" then "" else "\t" + lines[i]
  {
    seq(|lines|, i requires 0 <= i < |lines| => if lines[i] == "" then "" else "\t" + lines[i])
  }

  function Tabbed(lines: seq<string>): (r: seq<string>)
    ensures |r| == |lines|
    ensures forall i :: 0 <= i < |r| ==> r[i] == "\t" + lines[i]
  {
    seq(|lines|, i requires 0 <= i < |lines| => "\t" + lines[i])
  }

  function Header(name: string): string {
    name + " {"
  }

  function StableBlock(major: string, sorted: seq<string>): seq<string> {
    [Header("DPDK_" + major)] + GlobalBlock(sorted) + ["\tlocal: *;", "};"]
  }

  function GlobalBlock(sorted: seq<string>): seq<string> {
    if sorted == [] then [] else ["\tglobal:", ""] + Tabbed(sorted) + [""]
  }

  function SectionBlock(name: string, lines: seq<string>): seq<string> {
    [Header(name)] + Indented(lines) + ["};"]
  }

  /** A blank line between two sections. */
  function Gap(needed: bool): seq<string> {
    if needed then [""] else []
  }

  ghost function Printed(a: Abi, major: string): seq<string> {
    (if a.hasStable then StableBlock(major, Sorted(a.stable)) else [])
    + Gap(a.hasStable && a.experimental != [])
    + (if a.experimental != [] then SectionBlock("EXPERIMENTAL", a.experimental) else [])
    + Gap(a.internal_ != [] && (a.hasStable || a.experimental != []))
    + (if a.internal_ != [] then SectionBlock("INTERNAL", a.internal_) else [])
  }

  /** The text of a file with these lines. */
  function Text(lines: seq<string>): string {
    if lines == [] then "" else lines[0] + ("\n" + Text(lines[1..]))
  }

  lemma {:induction false} TextOneMore(lines: seq<string>, line: string)
    ensures Text(lines + [line]) == Text(lines) + line + "\n"
  {
    if lines == [] {
      assert [] + [line] == [line];
      assert Text([line]) == line + "\n";
    } else {
      assert (lines + [line])[1..] == lines[1..] + [line];
      TextOneMore(lines[1..], line);
      var rest := Text(lines[1..]);
      assert lines[0] + ("\n" + (rest + line + "\n")) == (lines[0] + ("\n" + rest)) + line + "\n";
    }
  }

  /** A file that is being written. */
  class Output {
    var text: string
    /** The lines written so far. */
    ghost var lines: seq<string>

    ghost predicate Valid()
      reads this
    {
      text == Text(lines)
    }

    constructor ()
      ensures Valid() && lines == []
    {
      text, lines := "", [];
    }

    /** `print(line, file=f_out)`. */
    method Print(line: string)
      requires Valid()
      modifies this
      ensures Valid() && lines == old(lines) + [line]
    {
      hide Text;
      TextOneMore(lines, line);
      text, lines := text + line + "\n", lines + [line];
    }

    /** Lines of a section, indented unless they are empty. */
    method PrintIndented(section: seq<string>)
      requires Valid()
      modifies this
      ensures Valid() && lines == old(lines) + Indented(section)
    {
      hide Text;
      for i := 0 to |section|
        invariant Valid() && lines == old(lines) + Indented(section)[..i]
      {
        if section[i] == "" {
          Print("");
        } else {
          Print("\t" + section[i]);
        }
      }
    }

    method PrintTabbed(section: seq<string>)
      requires Valid()
      modifies this
      ensures Valid() && lines == old(lines) + Tabbed(section)
    {
      hide Text;
      for i := 0 to |section|
        invariant Valid() && lines == old(lines) + Tabbed(section)[..i]
      {
        Print("\t" + section[i]);
      }
    }

    /** The functions of the merged version. */
    method PrintGlobal(sorted: seq<string>)
      requires Valid()
      modifies this
      ensures Valid() && lines == old(lines) + GlobalBlock(sorted)
    {
      hide Tabbed, Text;
      if sorted != [] {
        ghost var was, tabbed := lines, Tabbed(sorted);
        Print("\tglobal:");
        Print("");
        PrintTabbed(sorted);
        Print("");
        assert lines == ((was + ["\tglobal:"] + [""]) + tabbed) + [""];
        assert lines == was + (["\tglobal:", ""] + tabbed + [""]);
      }
    }

    /** `__generate_stable_abi`. */
    method GenerateStable(major: string, stable: set<string>)
      requires Valid()
      modifies this
      ensures Valid() && lines == old(lines) + StableBlock(major, Sorted(stable))
    {
      hide GlobalBlock, Text;
      Print("DPDK_" + major + " {");
      var sorted := Sort(stable);
      PrintGlobal(sorted);
      Print("\tlocal: *;");
      Print("};");
    }

    /** `__generate_experimental_abi` and `__generate_internal_abi`. */
    method GenerateSection(name: string, section: seq<string>)
      requires Valid()
      modifies this
      ensures Valid() && lines == old(lines) + SectionBlock(name, section)
    {
      hide Indented, Text;
      ghost var was, indented := lines, Indented(section);
      Print(name + " {");
      PrintIndented(section);
      Print("};");
      assert lines == was + ([Header(name)] + indented + ["};"]);
    }

    method Generate(a: Abi, major: string)
      requires Valid() && lines == []
      modifies this
      ensures Valid() && lines == Printed(a, major)
    {
      hide StableBlock, SectionBlock, Text;
      if a.hasStable {
        GenerateStable(major, a.stable);
      }
      if a.hasStable && a.experimental != [] {
        Print("");
      }
      if a.experimental != [] {
        GenerateSection("EXPERIMENTAL", a.experimental);
      }
      if a.internal_ != [] {
        if a.hasStable || a.experimental != [] {
          Print("");
        }
        GenerateSection("INTERNAL", a.internal_);
      }
    }
  }

  // ---- Text and lines ----

  function FirstLine(text: string): (r: string)
    ensures |r| <= |text| && r == text[..|r|] && '\n' !in r
    ensures |r| < |text| ==> text[|r|] == '\n'
  {
    if text == "" || text[0] == '\n' then "" else [text[0]] + FirstLine(text[1..])
  }

  /** The lines that iterating over a file gives, without their newlines. */
  function Lines(text: string): (r: seq<string>)
    ensures NoNewlines(r)
  {
    if text == "" then []
    else
      var line := FirstLine(text);
      [line] + if |line| == |text| then [] else Lines(text[|line| + 1..])
  }

  predicate NoNewlines(lines: seq<string>) {
    forall i :: 0 <= i < |lines| ==> '\n' !in lines[i]
  }

  lemma {:induction false} FirstLineOf(line: string, rest: string)
    requires '\n' !in line
    ensures FirstLine(line + ("\n" + rest)) == line
  {
    var text := line + ("\n" + rest);
    if line != "" {
      assert text[1..] == line[1..] + ("\n" + rest);
      FirstLineOf(line[1..], rest);
      assert line == [line[0]] + line[1..];
    }
  }

  lemma BehindFirstLine(line: string, rest: string)
    ensures (line + ("\n" + rest))[|line| + 1..] == rest
  {
    assert line + ("\n" + rest) == (line + "\n") + rest;
  }

  lemma {:induction false} LinesOfText(lines: seq<string>)
    requires NoNewlines(lines)
    ensures Lines(Text(lines)) == lines
  {
    hide FirstLine;
    if lines != [] {
      var rest := Text(lines[1..]);
      FirstLineOf(lines[0], rest);
      BehindFirstLine(lines[0], rest);
      LinesOfText(lines[1..]);
      assert lines == [lines[0]] + lines[1..];
    }
  }

  // ---- What parsing produces ----

  /** A line that is kept is clean; outside the verbatim sections it is a function. */
  predicate Clean(line: string) {
    Stripped(line) && '\n' !in line
  }

  ghost predicate Proper(a: Abi) {
    && (forall line :: line in a.stable ==> Clean(line) && FuncLine(line) == Some(line))
    && Verbatim(a.experimental) && Verbatim(a.internal_)
  }

  ghost predicate Verbatim(lines: seq<string>) {
    forall i :: 0 <= i < |lines| ==> Clean(lines[i]) && !SectionEnd(lines[i])
  }

  lemma {:induction false} ParsedIsProper(st: State, lines: seq<string>)
    requires Proper(st.abi) && NoNewlines(lines) && !(st.inExperimental && st.inInternal)
    ensures Proper(ParseFrom(st, lines).abi)
    decreases lines
  {
    if lines != [] {
      TakeKeepsProper(st, lines[0]);
      ParsedIsProper(Take(st, lines[0]), lines[1..]);
    }
  }

  lemma TakeKeepsProper(st: State, raw: string)
    requires Proper(st.abi) && '\n' !in raw && !(st.inExperimental && st.inInternal)
    ensures Proper(Take(st, raw).abi) && !(Take(st, raw).inExperimental && Take(st, raw).inInternal)
  {
    hide SectionEnd, SectionBegin, FuncLine, Strip, Stripped;
    StripIsClean(raw);
    FuncLineIsAll(Strip(raw));
  }

  lemma StripIsClean(raw: string)
    requires '\n' !in raw
    ensures Clean(Strip(raw))
  {
  }

  /** The group `line` of a stripped line is the line. */
  lemma FuncLineIsAll(line: string)
    requires Stripped(line)
    ensures FuncLine(line).Some? ==> FuncLine(line) == Some(line)
  {
  }

  // ---- Parsing what was printed ----

  /** Neither flag is set. */
  predicate Outside(st: State) {
    !st.inExperimental && !st.inInternal
  }

  lemma TakeEnd(st: State)
    ensures Take(st, "};") == st.(inExperimental := false, inInternal := false)
  {
    EndScan("};", "", "", "", "", "");
    StripIndented("", "};");
    assert "" + "};" == "};";
  }

  lemma TakeBlank(st: State)
    requires Outside(st)
    ensures Take(st, "") == st
  {
  }

  /** A section header that names a section of the map. */
  lemma TakeHeader(st: State, name: string)
    requires Outside(st) && name != "" && All(name, NameDot)
    ensures Take(st, Header(name)) == Begin(st, name)
  {
    hide SectionEnd, SectionBegin, FuncLine, Strip;
    var line := Header(name);
    HeaderShape(name);
    assert line == "" + (name + (" " + ("{" + "")));
    BeginScan(line, "", name, " ", "");
  }

  lemma HeaderShape(name: string)
    requires name != "" && !Member(name[0], Space) && name[0] != '}'
    ensures Strip(Header(name)) == Header(name) && !SectionEnd(Header(name))
  {
    var line := Header(name);
    assert Stripped(line);
    StripIndented("", line);
    assert "" + line == line;
  }

  /** A line of the global block or the local line starts like a name but is none of the patterns. */
  lemma TakeLabel(st: State, word: string, rest: string)
    requires Outside(st) && word != "" && All(word, Name)
    requires rest != "" && rest[0] == ':' && !Member(rest[|rest| - 1], Space)
    ensures Take(st, "\t" + (word + rest)) == st
  {
    hide After, Strip;
    var line := word + rest;
    Disjoint(word[0]);
    assert Stripped(line);
    StripIndented("\t", line);
    forall i | 0 <= i < |word| ensures Member(word[i], NameDot) {
      Disjoint(word[i]);
    }
    Skip(word, rest, Name);
    Skip(word, rest, NameDot);
    Skip("", line, Space);
    Skip("", rest, Space);
    assert "" + line == line && "" + rest == rest;
  }

  /** A header that is not made of the characters of a section name is skipped. */
  lemma TakeUnknownHeader(st: State, p: string, q: string)
    requires Outside(st) && p != "" && All(p, NameDot) && q != ""
    requires !Member(q[0], NameDot) && !Member(q[0], Space) && q[0] !in "{};#"
    ensures Take(st, Header(p + q)) == st
  {
    hide After, Strip;
    var rest := q + " {";
    var line := p + rest;
    assert Header(p + q) == line;
    Disjoint(p[0]);
    HeaderShape(p + q);
    NameStops(p, rest);
    Skip(p, rest, NameDot);
    Skip("", line, Space);
    Skip("", rest, Space);
    Skip("", After(line, Name), Space);
    assert "" + line == line && "" + rest == rest && "" + After(line, Name) == After(line, Name);
  }

  lemma {:induction false} NameStops(p: string, t: string)
    requires All(p, NameDot) && t != "" && !Member(t[0], NameDot)
    ensures After(p + t, Name) != "" && After(p + t, Name)[0] in ['.', t[0]]
  {
    if p == "" {
      assert p + t == t;
    } else {
      assert (p + t)[1..] == p[1..] + t;
      NameStops(p[1..], t);
    }
  }

  /** A printed function is parsed as that function. */
  lemma TakeFunction(st: State, line: string)
    requires Outside(st) && Clean(line) && FuncLine(line) == Some(line)
    ensures Take(st, "\t" + line) == st.(abi := st.abi.(stable := st.abi.stable + {line}))
  {
    hide SectionEnd, SectionBegin, FuncLine, Strip;
    StripIndented("\t", line);
    FuncLineIsNoSection(line);
    NoEmptyFunction();
  }

  lemma NoEmptyFunction()
    ensures FuncLine("") == None
  {
  }

  lemma {:induction false} TakeFunctions(st: State, lines: seq<string>)
    requires Outside(st) && forall line :: line in lines ==> Clean(line) && FuncLine(line) == Some(line)
    ensures ParseFrom(st, Tabbed(lines)) == st.(abi := st.abi.(stable := st.abi.stable + Elements(lines)))
    decreases lines
  {
    hide SectionEnd, SectionBegin, FuncLine, Strip, Take, Clean;
    if lines == [] {
      assert st.abi.stable + Elements(lines) == st.abi.stable;
    } else {
      var next := st.(abi := st.abi.(stable := st.abi.stable + {lines[0]}));
      TakeFunction(st, lines[0]);
      assert Tabbed(lines)[1..] == Tabbed(lines[1..]);
      TakeFunctions(next, lines[1..]);
      assert st.abi.stable + {lines[0]} + Elements(lines[1..]) == st.abi.stable + Elements(lines);
    }
  }

  /** The lines between a header and the closing brace come back verbatim. */
  lemma {:induction false} TakeVerbatim(st: State, lines: seq<string>)
    requires Verbatim(lines) && (st.inExperimental <==> !st.inInternal)
    ensures ParseFrom(st, Indented(lines)) == st.(abi :=
      if st.inExperimental then st.abi.(experimental := st.abi.experimental + lines)
      else st.abi.(internal_ := st.abi.internal_ + lines))
    decreases lines
  {
    hide SectionEnd, SectionBegin, FuncLine, Strip, Clean;
    if lines == [] {
      assert st.abi.experimental + lines == st.abi.experimental;
      assert st.abi.internal_ + lines == st.abi.internal_;
    } else {
      ReadsBack(lines[0]);
      var next := Take(st, Indented(lines)[0]);
      assert Indented(lines)[1..] == Indented(lines[1..]);
      TakeVerbatim(next, lines[1..]);
      assert st.abi.experimental + [lines[0]] + lines[1..] == st.abi.experimental + lines;
      assert st.abi.internal_ + [lines[0]] + lines[1..] == st.abi.internal_ + lines;
    }
  }

  lemma ReadsBack(line: string)
    requires Clean(line)
    ensures Strip(if line == "" then "" else "\t" + line) == line
  {
    StripIndented("\t", line);
  }

  // ---- Whole blocks ----

  lemma ParseOne(st: State, line: string)
    ensures ParseFrom(st, [line]) == Take(st, line)
  {
  }

  lemma ParseSection(st: State, name: string, lines: seq<string>)
    requires Outside(st) && Verbatim(lines) && name in {"EXPERIMENTAL", "INTERNAL"}
    ensures ParseFrom(st, SectionBlock(name, lines)) == st.(abi :=
      if name == "EXPERIMENTAL" then st.abi.(experimental := st.abi.experimental + lines)
      else st.abi.(internal_ := st.abi.internal_ + lines))
  {
    hide Take, Indented, Verbatim;
    var inside := Begin(st, name);
    TakeHeader(st, name);
    TakeVerbatim(inside, lines);
    TakeEnd(ParseFrom(inside, Indented(lines)));
    ParseConcat(st, [Header(name)] + Indented(lines), ["};"]);
    ParseConcat(st, [Header(name)], Indented(lines));
    ParseOne(st, Header(name));
    ParseOne(ParseFrom(inside, Indented(lines)), "};");
  }

  lemma ParseGlobal(st: State, sorted: seq<string>)
    requires Outside(st) && forall line :: line in sorted ==> Clean(line) && FuncLine(line) == Some(line)
    ensures ParseFrom(st, GlobalBlock(sorted)) == st.(abi := st.abi.(stable := st.abi.stable + Elements(sorted)))
  {
    hide Take, Tabbed, FuncLine, Clean;
    if sorted == [] {
      assert st.abi.stable + Elements(sorted) == st.abi.stable;
    } else {
      assert "\tglobal:" == "\t" + ("global" + ":");
      TakeLabel(st, "global", ":");
      TakeBlank(st);
      TakeFunctions(st, sorted);
      var after := ParseFrom(st, Tabbed(sorted));
      TakeBlank(after);
      ParseConcat(st, ["\tglobal:", ""] + Tabbed(sorted), [""]);
      ParseConcat(st, ["\tglobal:", ""], Tabbed(sorted));
      assert ["\tglobal:", ""] == ["\tglobal:"] + [""];
      ParseConcat(st, ["\tglobal:"], [""]);
      ParseOne(st, "\tglobal:");
      ParseOne(st, "");
      ParseOne(after, "");
    }
  }

  /** What the merged version's header does depends on whether it reads as the name of a section. */
  lemma ParseStable(st: State, major: string, sorted: seq<string>)
    requires Outside(st) && forall line :: line in sorted ==> Clean(line) && FuncLine(line) == Some(line)
    requires Plain(major)
    ensures ParseFrom(st, StableBlock(major, sorted)) == st.(abi := st.abi.(
      hasStable := st.abi.hasStable || All(major, NameDot), stable := st.abi.stable + Elements(sorted)))
  {
    hide Take, GlobalBlock, FuncLine, Clean;
    TakeMergedHeader(st, major);
    var begun := Take(st, Header("DPDK_" + major));
    ParseGlobal(begun, sorted);
    var after := ParseFrom(begun, GlobalBlock(sorted));
    assert "\tlocal: *;" == "\t" + ("local" + ": *;");
    TakeLabel(after, "local", ": *;");
    TakeEnd(after);
    ParseConcat(st, [Header("DPDK_" + major)] + GlobalBlock(sorted), ["\tlocal: *;", "};"]);
    ParseConcat(st, [Header("DPDK_" + major)], GlobalBlock(sorted));
    ParseOne(st, Header("DPDK_" + major));
    assert ["\tlocal: *;", "};"] == ["\tlocal: *;"] + ["};"];
    ParseConcat(after, ["\tlocal: *;"], ["};"]);
    ParseOne(after, "\tlocal: *;");
    ParseOne(after, "};");
  }

  /** The version given on the command line begins with one or two digits, which need not be ASCII
      digits: no white space, and none of the characters that the patterns look for. */
  predicate Plain(major: string) {
    major != "" && forall i :: 0 <= i < |major| ==> !Member(major[i], Space) && major[i] !in "{};#"
  }

  lemma TakeMergedHeader(st: State, major: string)
    requires Outside(st) && Plain(major)
    ensures Take(st, Header("DPDK_" + major)) == st.(abi := st.abi.(
      hasStable := st.abi.hasStable || All(major, NameDot)))
  {
    var name := "DPDK_" + major;
    if All(major, NameDot) {
      hide Take;
      TakeHeader(st, name);
      assert name[0] == 'D';
    } else {
      hide Take, After, Run;
      var rest := After(major, NameDot);
      RunAndAfter(major, NameDot);
      assert rest != "" by {
        assert Run(major, NameDot) + "" == Run(major, NameDot);
      }
      assert rest[0] == major[|Run(major, NameDot)|];
      assert name == ("DPDK_" + Run(major, NameDot)) + rest;
      TakeUnknownHeader(st, "DPDK_" + Run(major, NameDot), rest);
    }
  }
}
