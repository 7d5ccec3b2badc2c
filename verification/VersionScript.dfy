/** Version scripts as the linker reads them: blocks that name a version, with labels and the symbols
    below them. */
module VersionScript {
  import opened Words
  import opened Tokens
  import opened MapLines
  import opened StringOrder
  import opened MapFile

  datatype Scope = Global | Local

  /** A version, and the symbols and patterns it makes global or local. */
  datatype Version = Version(name: string, globals: set<string>, locals: set<string>)

  /** The blocks that are closed, the block that is open, and the label in force there. */
  datatype Reader = Reader(versions: seq<Version>, block: Option<Version>, scope: Scope)

  const Unread := Reader([], None, Global)

  // ---- Reading ----

  /** The symbol at the start of a statement: up to white space. */
  function Symbol(s: string): string {
    if s != "" && !Member(s[0], Space) then [s[0]] + Symbol(s[1..]) else ""
  }

  /** The symbols of the statements on a line; each ends in a semicolon, and `#` starts a comment. */
  function Entries(s: string): set<string>
    decreases |s|
  {
    var statement := Span(s, ";#");
    if |statement| == |s| || s[|statement|] == '#' then {}
    else
      var symbol := Symbol(After(statement, Space));
      (if symbol == "" then {} else {symbol}) + Entries(s[|statement| + 1..])
  }

  predicate StartsWith(s: string, p: string) {
    |p| <= |s| && s[..|p|] == p
  }

  function Add(v: Version, scope: Scope, symbols: set<string>): Version {
    match scope
    case Global => v.(globals := v.globals + symbols)
    case Local => v.(locals := v.locals + symbols)
  }

  /** One line, without the white space in front of it. */
  function ReadInside(r: Reader, v: Version, line: string): Reader {
    if line != "" && line[0] == '}' then Reader(r.versions + [v], None, Global)
    else if StartsWith(line, "global:") then
      r.(block := Some(Add(v, Global, Entries(line[7..]))), scope := Global)
    else if StartsWith(line, "local:") then
      r.(block := Some(Add(v, Local, Entries(line[6..]))), scope := Local)
    else r.(block := Some(Add(v, r.scope, Entries(line))))
  }

  function ReadOutside(r: Reader, line: string): Reader {
    var name := Span(line, "{#");
    if |name| < |line| && line[|name|] == '{'
    then r.(block := Some(Version(StripEnd(name), {}, {})), scope := Global)
    else r
  }

  function ReadLine(r: Reader, raw: string): Reader {
    var line := After(raw, Space);
    match r.block
    case None => ReadOutside(r, line)
    case Some(v) => ReadInside(r, v, line)
  }

  function ReadLines(r: Reader, lines: seq<string>): Reader
    decreases lines
  {
    if lines == [] then r else ReadLines(ReadLine(r, lines[0]), lines[1..])
  }

  /** The versions of a file with these lines. */
  function Versions(lines: seq<string>): seq<Version> {
    ReadLines(Unread, lines).versions
  }

  lemma {:induction false} ReadConcat(r: Reader, a: seq<string>, b: seq<string>)
    ensures ReadLines(r, a + b) == ReadLines(ReadLines(r, a), b)
    decreases a
  {
    if a == [] {
      assert a + b == b;
    } else {
      assert (a + b)[1..] == a[1..] + b;
      ReadConcat(ReadLine(r, a[0]), a[1..], b);
    }
  }

  lemma ReadOne(r: Reader, line: string)
    ensures ReadLines(r, [line]) == ReadLine(r, line)
  {
  }

  // ---- The lines that the script prints ----

  /** The name of a function line: its leading name characters. */
  function FunctionName(line: string): string {
    Run(line, Name)
  }

  lemma {:induction false} SymbolOf(s: string, t: string)
    requires (forall i :: 0 <= i < |s| ==> !Member(s[i], Space)) && (t != "" ==> Member(t[0], Space))
    ensures Symbol(s + t) == s
  {
    if s == "" {
      assert s + t == t;
    } else {
      assert (s + t)[1..] == s[1..] + t;
      SymbolOf(s[1..], t);
      assert s == [s[0]] + s[1..];
    }
  }

  /** A comment, or nothing, has no symbols. */
  lemma NoEntries(w: string, comment: string)
    requires All(w, Space) && Comment(comment)
    ensures Entries(w + comment) == {}
  {
    SpacesAreFree(w);
    SpanOf(w, comment, ";#");
  }

  lemma SpacesAreFree(w: string)
    requires All(w, Space)
    ensures Free(w, ";#") && Free(w, "{#")
  {
  }

  lemma NamesAreFree(f: string)
    requires All(f, Name)
    ensures Free(f, ";#") && forall i :: 0 <= i < |f| ==> !Member(f[i], Space) && f[i] !in ":}"
  {
  }

  lemma SpaceIsNoMark(w: string)
    requires All(w, Space)
    ensures forall i :: 0 <= i < |w| ==> w[i] !in ":}" && !Member(w[i], Name)
  {
  }

  lemma EntriesOfFunction(line: string, f: string, w1: string, w2: string, comment: string)
    requires FuncPattern(line, f, w1, w2, comment)
    ensures Entries(line) == {f} && FunctionName(line) == f
  {
    hide Member, After, Span, All, Run, Symbol, Comment, Free;
    var statement, rest := f + w1, w2 + comment;
    assert line == statement + (";" + rest);
    NamesAreFree(f);
    SpacesAreFree(w1);
    BothFree(f, w1);
    SpanOf(statement, ";" + rest, ";#");
    Behind(statement, rest);
    NoEntries(w2, comment);
    SymbolOfStatement(f, w1);
    FirstOf(w1, ";" + rest);
    assert line == f + (w1 + (";" + rest));
    NameOf(line, f, w1 + (";" + rest));
  }

  lemma BothFree(f: string, w: string)
    requires Free(f, ";#") && Free(w, ";#")
    ensures Free(f + w, ";#")
  {
  }

  lemma Behind(a: string, b: string)
    ensures (a + (";" + b))[|a|] == ';' && (a + (";" + b))[|a| + 1..] == b
  {
  }

  lemma SymbolOfStatement(f: string, w: string)
    requires f != "" && All(f, Name) && All(w, Space)
    ensures Symbol(After(f + w, Space)) == f
  {
    hide Symbol, After, Member, All;
    NamesAreFree(f);
    Skip("", f + w, Space);
    assert "" + (f + w) == f + w;
    AllAreSpace(w);
    SymbolOf(f, w);
  }

  lemma AllAreSpace(w: string)
    requires All(w, Space)
    ensures w != "" ==> Member(w[0], Space)
  {
  }

  lemma NameOf(line: string, f: string, rest: string)
    requires line == f + rest && All(f, Name) && rest != "" && !Member(rest[0], Name)
    ensures Run(line, Name) == f
  {
    RunAndAfter(line, Name);
    Skip(f, rest, Name);
    assert |Run(line, Name)| == |f|;
    assert Run(line, Name) == line[..|f|] == f;
  }

  // ---- Reading what the script prints ----

  predicate Reading(r: Reader, v: Version) {
    r.block == Some(v)
  }

  lemma ReadHeader(r: Reader, name: string)
    requires r.block == None && name != "" && !Member(name[0], Space) && !Member(name[|name| - 1], Space)
    requires Free(name, "{#")
    ensures ReadLine(r, Header(name)) == Reader(r.versions, Some(Version(name, {}, {})), Global)
  {
    hide Span, Member;
    var line := Header(name);
    Skip("", line, Space);
    assert "" + line == line;
    var before := name + " ";
    assert line == before + "{";
    SpanOf(before, "{", "{#");
    StripOneBlank(name);
  }

  lemma StripOneBlank(name: string)
    requires name != "" && !Member(name[|name| - 1], Space)
    ensures StripEnd(name + " ") == name
  {
    assert (name + " ")[..|name|] == name;
  }

  lemma ReadBlank(r: Reader)
    ensures ReadLine(r, "") == r
  {
    assert Span("", ";#") == "";
    if r.block.Some? {
      var v := r.block.value;
      assert v.globals + {} == v.globals && v.locals + {} == v.locals;
    }
  }

  lemma ReadClose(r: Reader, v: Version)
    requires Reading(r, v)
    ensures ReadLine(r, "};") == Reader(r.versions + [v], None, Global)
  {
    assert After("};", Space) == "};";
  }

  lemma ReadGlobal(r: Reader, v: Version)
    requires Reading(r, v)
    ensures ReadLine(r, "\tglobal:") == r.(scope := Global)
  {
    var line := "global:";
    assert "\tglobal:"[1..] == line;
    assert After("\tglobal:", Space) == line;
    assert line[..7] == "global:" && line[7..] == "";
    assert Entries("") == {};
    assert v.globals + {} == v.globals;
  }

  lemma ReadLocalStar(r: Reader, v: Version)
    requires Reading(r, v)
    ensures ReadLine(r, "\tlocal: *;") == r.(block := Some(v.(locals := v.locals + {"*"})), scope := Local)
  {
    hide After, Entries;
    LocalStarParts();
    EntriesOfStar();
  }

  lemma LocalStarParts()
    ensures After("\tlocal: *;", Space) == "local: *;"
    ensures var line := "local: *;";
      line[0] == 'l' && StartsWith(line, "local:") && !StartsWith(line, "global:") && line[6..] == " *;"
  {
    var line := "local: *;";
    assert "\tlocal: *;"[1..] == line;
    assert line[..6] == "local:" && line[6..] == " *;";
  }

  lemma EntriesOfStar()
    ensures Entries(" *;") == {"*"}
  {
    hide Symbol;
    var s := " *;";
    assert s == " *" + ";";
    SpanOf(" *", ";", ";#");
    assert " *"[1..] == "*";
    assert After(" *", Space) == "*";
    assert "*" + "" == "*";
    SymbolOf("*", "");
    assert s[|" *"| + 1..] == "";
    assert Entries("") == {};
  }

  /** A function line is one symbol under the label in force. */
  lemma ReadFunction(r: Reader, v: Version, line: string)
    requires Reading(r, v) && r.scope.Global? && Clean(line) && FuncLine(line) == Some(line)
    ensures ReadLine(r, "\t" + line) == r.(block := Some(v.(globals := v.globals + {FunctionName(line)})))
  {
    hide FuncLine, Entries, Run;
    FuncLineMatches(line, line);
    var f, w1, w2, comment :| FuncPattern(line, f, w1, w2, comment);
    EntriesOfFunction(line, f, w1, w2, comment);
    Indentation(line);
    NoLabel(line, f, w1, w2, comment);
  }

  lemma Indentation(line: string)
    requires Stripped(line)
    ensures After("\t" + line, Space) == line
  {
    Skip("\t", line, Space);
  }

  lemma NoLabel(line: string, f: string, w1: string, w2: string, comment: string)
    requires FuncPattern(line, f, w1, w2, comment)
    ensures line != "" && line[0] != '}' && !StartsWith(line, "global:") && !StartsWith(line, "local:")
  {
    hide Comment;
    NamesAreFree(f);
    assert line[0] == f[0];
    NoPrefix(line, f, w1, w2 + comment, "global");
    NoPrefix(line, f, w1, w2 + comment, "local");
    assert "global" + ":" == "global:" && "local" + ":" == "local:";
  }

  /** Only a name and white space come before the semicolon, and no colon. */
  lemma NoPrefix(line: string, f: string, w1: string, rest: string, word: string)
    requires line == f + (w1 + (";" + rest)) && All(f, Name) && All(w1, Space) && All(word, Name)
    ensures !StartsWith(line, word + ":")
  {
    var p := word + ":";
    NamesAreFree(f);
    SpaceIsNoMark(w1);
    var n := |p| - 1;
    if n < |f| {
      assert line[n] == f[n] != p[n];
      assert |p| <= |line| ==> line[..|p|][n] == line[n];
    } else {
      var k := |f|;
      assert line[k] == (w1 + (";" + rest))[0];
      assert p[k] == if k == n then ':' else word[k];
      assert line[k] != p[k];
      assert |p| <= |line| ==> line[..|p|][k] == line[k];
    }
  }

  /** The names of function lines. */
  function FunctionNames(lines: set<string>): set<string> {
    set line | line in lines :: FunctionName(line)
  }

  lemma {:induction false} ReadFunctions(r: Reader, v: Version, lines: seq<string>)
    requires Reading(r, v) && r.scope.Global?
    requires forall line :: line in lines ==> Clean(line) && FuncLine(line) == Some(line)
    ensures ReadLines(r, Tabbed(lines))
      == r.(block := Some(v.(globals := v.globals + FunctionNames(Elements(lines)))))
    decreases lines
  {
    hide ReadLine, FuncLine, Clean, FunctionName;
    if lines == [] {
      assert v.globals + FunctionNames(Elements(lines)) == v.globals;
    } else {
      ReadFunction(r, v, lines[0]);
      var w := v.(globals := v.globals + {FunctionName(lines[0])});
      ReadFunctions(r.(block := Some(w)), w, lines[1..]);
      assert Tabbed(lines)[1..] == Tabbed(lines[1..]);
      NamesOfOneMore(lines);
      assert v.globals + {FunctionName(lines[0])} + FunctionNames(Elements(lines[1..]))
          == v.globals + FunctionNames(Elements(lines));
    }
  }

  lemma NamesOfOneMore(lines: seq<string>)
    requires lines != []
    ensures FunctionNames(Elements(lines)) == {FunctionName(lines[0])} + FunctionNames(Elements(lines[1..]))
  {
    hide FunctionName;
    assert Elements(lines) == {lines[0]} + Elements(lines[1..]);
  }

  lemma ReadGlobalBlock(r: Reader, name: string, sorted: seq<string>)
    requires r == Reader([], Some(Version(name, {}, {})), Global)
    requires forall line :: line in sorted ==> Clean(line) && FuncLine(line) == Some(line)
    ensures ReadLines(r, GlobalBlock(sorted))
      == Reader([], Some(Version(name, FunctionNames(Elements(sorted)), {})), Global)
  {
    hide ReadLine, Tabbed, FuncLine, Clean, FunctionName;
    var v := Version(name, {}, {});
    if sorted == [] {
      assert FunctionNames(Elements(sorted)) == {};
    } else {
      ReadGlobal(r, v);
      ReadBlank(r);
      ReadFunctions(r, v, sorted);
      var after := ReadLines(r, Tabbed(sorted));
      ReadBlank(after);
      ReadConcat(r, ["\tglobal:", ""] + Tabbed(sorted), [""]);
      ReadConcat(r, ["\tglobal:", ""], Tabbed(sorted));
      assert ["\tglobal:", ""] == ["\tglobal:"] + [""];
      ReadConcat(r, ["\tglobal:"], [""]);
      ReadOne(r, "\tglobal:");
      ReadOne(r, "");
      ReadOne(after, "");
      assert {} + FunctionNames(Elements(sorted)) == FunctionNames(Elements(sorted));
    }
  }

  /** The merged version: its functions are global, and all else is local. */
  lemma ReadStable(major: string, sorted: seq<string>)
    requires Plain(major) && forall line :: line in sorted ==> Clean(line) && FuncLine(line) == Some(line)
    ensures ReadLines(Unread, StableBlock(major, sorted))
      == Reader([Version("DPDK_" + major, FunctionNames(Elements(sorted)), {"*"})], None, Global)
  {
    hide ReadLine, GlobalBlock, FuncLine, Clean, FunctionName;
    var name := "DPDK_" + major;
    PlainHeader(major);
    ReadHeader(Unread, name);
    var begun := ReadLine(Unread, Header(name));
    ReadGlobalBlock(begun, name, sorted);
    var after := ReadLines(begun, GlobalBlock(sorted));
    var v := after.block.value;
    ReadLocalStar(after, v);
    assert v.locals + {"*"} == {"*"};
    var last := ReadLine(after, "\tlocal: *;");
    ReadClose(last, last.block.value);
    ReadConcat(Unread, [Header(name)] + GlobalBlock(sorted), ["\tlocal: *;", "};"]);
    ReadConcat(Unread, [Header(name)], GlobalBlock(sorted));
    ReadOne(Unread, Header(name));
    assert ["\tlocal: *;", "};"] == ["\tlocal: *;"] + ["};"];
    ReadConcat(after, ["\tlocal: *;"], ["};"]);
    ReadOne(after, "\tlocal: *;");
    ReadOne(last, "};");
  }

  lemma PlainHeader(major: string)
    requires Plain(major)
    ensures var name := "DPDK_" + major;
      !Member(name[0], Space) && !Member(name[|name| - 1], Space) && Free(name, "{#")
  {
    var name := "DPDK_" + major;
    assert name[|name| - 1] == major[|major| - 1];
    forall i | 0 <= i < |name| ensures name[i] !in "{#" {
      if i >= 5 {
        assert name[i] == major[i - 5];
      }
    }
  }

  // ---- The sections that are copied ----

  /** No line would close the block. */
  predicate NoneCloses(lines: seq<string>) {
    forall i :: 0 <= i < |lines| ==> !Closes(lines[i])
  }

  predicate Closes(line: string) {
    var t := After(line, Space);
    t != "" && t[0] == '}'
  }

  /** An open block does not depend on the blocks before it, and stays open. */
  lemma {:induction false} ReadBody(r: Reader, before: seq<Version>, lines: seq<string>)
    requires r.block.Some? && NoneCloses(lines)
    ensures ReadLines(r.(versions := before), lines) == ReadLines(r, lines).(versions := before)
    ensures ReadLines(r, lines).block.Some?
    decreases lines
  {
    hide ReadInside, Closes, After;
    if lines != [] {
      StaysOpen(r, lines[0]);
      StaysOpen(r.(versions := before), lines[0]);
      ReadBody(ReadLine(r, lines[0]), before, lines[1..]);
      OtherVersions(r, before, lines[0]);
    }
  }

  lemma StaysOpen(r: Reader, line: string)
    requires r.block.Some? && !Closes(line)
    ensures ReadLine(r, line).block.Some?
  {
    hide Entries;
  }

  lemma OtherVersions(r: Reader, before: seq<Version>, line: string)
    requires r.block.Some? && !Closes(line)
    ensures ReadLine(r.(versions := before), line) == ReadLine(r, line).(versions := before)
  {
    hide Entries;
  }

  /** What the linker makes of the body of a block. */
  function Body(name: string, lines: seq<string>): Version
    requires NoneCloses(lines)
  {
    var r := Reader([], Some(Version(name, {}, {})), Global);
    ReadBody(r, [], lines);
    ReadLines(r, lines).block.value
  }

  /** Indenting makes no difference. */
  lemma {:induction false} ReadIndented(r: Reader, lines: seq<string>)
    ensures ReadLines(r, Indented(lines)) == ReadLines(r, lines)
    decreases lines
  {
    hide ReadInside, ReadOutside;
    if lines != [] {
      assert ReadLine(r, Indented(lines)[0]) == ReadLine(r, lines[0]) by {
        if lines[0] != "" {
          assert ("\t" + lines[0])[1..] == lines[0];
        }
      }
      assert Indented(lines)[1..] == Indented(lines[1..]);
      ReadIndented(ReadLine(r, lines[0]), lines[1..]);
    }
  }

  /** A copied section is one more version, with the body it had. */
  lemma ReadSection(r: Reader, name: string, lines: seq<string>)
    requires r.block == None && name in {"EXPERIMENTAL", "INTERNAL"} && NoneCloses(lines)
    ensures ReadLines(r, SectionBlock(name, lines)) == Reader(r.versions + [Body(name, lines)], None, Global)
  {
    hide ReadLine, Closes, Indented;
    var inside := Reader([], Some(Version(name, {}, {})), Global);
    SectionHeader(name);
    ReadHeader(r, name);
    ReadBody(inside, r.versions, lines);
    var begun := inside.(versions := r.versions);
    ReadIndented(begun, lines);
    var after := ReadLines(begun, lines);
    ReadClose(after, after.block.value);
    ReadConcat(r, [Header(name)] + Indented(lines), ["};"]);
    ReadConcat(r, [Header(name)], Indented(lines));
    ReadOne(r, Header(name));
    ReadOne(after, "};");
  }

  /** The version of a section, if it is printed at all. */
  function Copied(name: string, lines: seq<string>): seq<Version>
    requires NoneCloses(lines)
  {
    if lines != [] then [Body(name, lines)] else []
  }

  lemma ReadCopied(r: Reader, gap: bool, name: string, lines: seq<string>)
    requires r.block == None && r.scope.Global? && name in {"EXPERIMENTAL", "INTERNAL"} && NoneCloses(lines)
    ensures ReadLines(r, CopiedPart(gap, name, lines)) == Reader(r.versions + Copied(name, lines), None, Global)
  {
    hide ReadLine, NoneCloses, SectionBlock, ReadLines, Body;
    var section := if lines != [] then SectionBlock(name, lines) else [];
    ReadConcat(r, Gap(gap), section);
    ReadGap(r, gap);
    ReadNothing(r);
    ReadSection(r, name, lines);
  }

  lemma ReadNothing(r: Reader)
    ensures ReadLines(r, []) == r
  {
  }

  lemma ReadGap(r: Reader, needed: bool)
    ensures ReadLines(r, Gap(needed)) == r
  {
    ReadBlank(r);
    ReadOne(r, "");
  }

  lemma SectionHeader(name: string)
    requires name in {"EXPERIMENTAL", "INTERNAL"}
    ensures name != "" && !Member(name[0], Space) && !Member(name[|name| - 1], Space) && Free(name, "{#")
  {
  }

  // ---- The whole file ----

  /** Lines behind the closed blocks do not take them back. */
  lemma {:induction false} VersionsGrow(r: Reader, lines: seq<string>)
    ensures r.versions <= ReadLines(r, lines).versions
    decreases lines
  {
    hide Entries, After, Span;
    if lines != [] {
      VersionsGrow(ReadLine(r, lines[0]), lines[1..]);
    }
  }

  /** To the linker the first version of a printed file is the merged one, with exactly the functions of
      the stable versions global and everything else local, whatever the other sections hold. */
  lemma MergedVersionComesFirst(a: Abi, major: string)
    requires Proper(a) && Plain(major) && a.hasStable
    ensures var versions := Versions(Printed(a, major));
      versions != [] && versions[0] == Version("DPDK_" + major, FunctionNames(a.stable), {"*"})
  {
    hide ReadLine, StableBlock, SectionBlock, FuncLine, Clean, FunctionName, Verbatim;
    var sorted := Sorted(a.stable);
    forall line | line in sorted ensures line in a.stable {
      assert line in Elements(sorted);
    }
    var stable := StableBlock(major, sorted);
    var rest := Printed(a, major)[|stable|..];
    assert Printed(a, major) == stable + rest;
    ReadStable(major, sorted);
    ReadConcat(Unread, stable, rest);
    VersionsGrow(ReadLines(Unread, stable), rest);
  }

  function Merged(a: Abi, major: string): seq<Version> {
    if a.hasStable then [Version("DPDK_" + major, FunctionNames(a.stable), {"*"})] else []
  }

  lemma ReadMerged(a: Abi, major: string)
    requires Proper(a) && Plain(major)
    ensures ReadLines(Unread, StablePart(a, major)) == Reader(Merged(a, major), None, Global)
  {
    hide ReadLine, StableBlock, ReadLines, Verbatim, FuncLine, Clean, FunctionName;
    var sorted := Sorted(a.stable);
    forall line | line in sorted ensures line in a.stable {
      assert line in Elements(sorted);
    }
    ReadNothing(Unread);
    ReadStable(major, sorted);
  }

  ghost function StablePart(a: Abi, major: string): seq<string> {
    if a.hasStable then StableBlock(major, Sorted(a.stable)) else []
  }

  function CopiedPart(gap: bool, name: string, lines: seq<string>): seq<string> {
    Gap(gap) + if lines != [] then SectionBlock(name, lines) else []
  }

  lemma PrintedParts(a: Abi, major: string)
    ensures Printed(a, major) == StablePart(a, major)
      + CopiedPart(a.hasStable && a.experimental != [], "EXPERIMENTAL", a.experimental)
      + CopiedPart(a.internal_ != [] && (a.hasStable || a.experimental != []), "INTERNAL", a.internal_)
  {
    hide StableBlock, SectionBlock, Sorted;
  }

  lemma ReadParts(r: Reader, a: seq<string>, b: seq<string>, c: seq<string>)
    ensures ReadLines(r, a + b + c) == ReadLines(ReadLines(ReadLines(r, a), b), c)
  {
    hide ReadLines;
    ReadConcat(r, a + b, c);
    ReadConcat(r, a, b);
  }

  /** If no copied line closes its block early, the versions of a printed file are exactly the merged one
      and the copied sections with the symbols they had. */
  lemma ReadPrinted(a: Abi, major: string)
    requires Proper(a) && Plain(major) && NoneCloses(a.experimental) && NoneCloses(a.internal_)
    ensures ReadLines(Unread, Printed(a, major)) == Reader(
      Merged(a, major) + Copied("EXPERIMENTAL", a.experimental) + Copied("INTERNAL", a.internal_), None, Global)
  {
    hide Printed, Copied, Merged, ReadLines, NoneCloses, Proper, Plain, StablePart, CopiedPart;
    var gap1, gap2 := a.hasStable && a.experimental != [], a.internal_ != [] && (a.hasStable || a.experimental != []);
    var exp, int_ := CopiedPart(gap1, "EXPERIMENTAL", a.experimental), CopiedPart(gap2, "INTERNAL", a.internal_);
    PrintedParts(a, major);
    ReadParts(Unread, StablePart(a, major), exp, int_);
    ReadMerged(a, major);
    var r1 := ReadLines(Unread, StablePart(a, major));
    ReadCopied(r1, gap1, "EXPERIMENTAL", a.experimental);
    ReadCopied(ReadLines(r1, exp), gap2, "INTERNAL", a.internal_);
  }

  // ---- What it looks like ----

  /** A printed file with all three sections. */
  lemma PrintedLooksLike()
    ensures Printed(Abi(true, {"rte_b;", "rte_a;"}, ["global:", "", "rte_x;"], ["rte_i;"]), "23") ==
      ["DPDK_23 {", "\tglobal:", "", "\trte_a;", "\trte_b;", "", "\tlocal: *;", "};",
       "",
       "EXPERIMENTAL {", "\tglobal:", "", "\trte_x;", "};",
       "",
       "INTERNAL {", "\trte_i;", "};"]
  {
    hide StableBlock, SectionBlock, Sorted;
    SortedPair();
    StableLooksLike();
    SectionsLookLike();
  }

  lemma StableLooksLike()
    ensures StableBlock("23", ["rte_a;", "rte_b;"]) ==
      ["DPDK_23 {", "\tglobal:", "", "\trte_a;", "\trte_b;", "", "\tlocal: *;", "};"]
  {
    assert "DPDK_" + "23" + " {" == "DPDK_23 {";
    assert "\t" + "rte_a;" == "\trte_a;" && "\t" + "rte_b;" == "\trte_b;";
    assert Tabbed(["rte_a;", "rte_b;"]) == ["\trte_a;", "\trte_b;"];
  }

  lemma SectionsLookLike()
    ensures SectionBlock("EXPERIMENTAL", ["global:", "", "rte_x;"]) ==
      ["EXPERIMENTAL {", "\tglobal:", "", "\trte_x;", "};"]
    ensures SectionBlock("INTERNAL", ["rte_i;"]) == ["INTERNAL {", "\trte_i;", "};"]
  {
    assert "\t" + "global:" == "\tglobal:" && "\t" + "rte_x;" == "\trte_x;" && "\t" + "rte_i;" == "\trte_i;";
    assert Indented(["global:", "", "rte_x;"]) == ["\tglobal:", "", "\trte_x;"];
    assert Indented(["rte_i;"]) == ["\trte_i;"];
    assert "EXPERIMENTAL" + " {" == "EXPERIMENTAL {" && "INTERNAL" + " {" == "INTERNAL {";
  }

  lemma SortedPair()
    ensures Sorted({"rte_b;", "rte_a;"}) == ["rte_a;", "rte_b;"]
  {
    var sorted := ["rte_a;", "rte_b;"];
    assert sorted[0][..4] == sorted[1][..4] == "rte_";
    assert FirstDifference(sorted[0], sorted[1], 4);
    LessMeans(sorted[0], sorted[1]);
    assert Elements(sorted) == {"rte_b;", "rte_a;"};
    SortedIsUnique(sorted, Sorted({"rte_b;", "rte_a;"}));
  }
}
