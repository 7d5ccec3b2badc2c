/** What becomes of a version map that is rewritten: to the linker, and to the script when it rewrites the
    file once more. */
module MapRewrite {
  import opened Words
  import opened Tokens
  import opened MapLines
  import opened StringOrder
  import opened MapFile
  import opened MapSections
  import opened VersionScript

  ghost function Parsed(text: string): Abi {
    ParseFrom(Start, Lines(text)).abi
  }

  /** What a file with this text holds after the script rewrote it for an ABI version. */
  ghost function Rewritten(text: string, major: string): string {
    Text(Printed(Parsed(text), major))
  }

  /** What is left of an ABI when it is printed: functions outside of any stable section are not. */
  function Kept(a: Abi, major: string): Abi {
    a.(hasStable := a.hasStable && All(major, NameDot), stable := if a.hasStable then a.stable else {})
  }

  /** `__main`, behind the checks of its arguments. To the linker the file it writes for a file with a
      stable section begins with the merged version. */
  method RewriteFile(text: string, major: string) returns (written: string)
    ensures written == Rewritten(text, major)
    ensures Plain(major) && HasStable(Lines(text)) ==> IsMergedVersion(Lines(written), major, Lines(text))
  {
    hide Text, Lines, Printed, Plain, HasStable, IsMergedVersion;
    if Plain(major) && HasStable(Lines(text)) {
      LinkerReads(text, major);
    }
    var abi := Parse(Lines(text));
    var out := new Output();
    out.Generate(abi, major);
    written := out.text;
  }

  lemma {:induction false} ParsePrinted(a: Abi, major: string)
    requires Proper(a) && Plain(major)
    ensures ParseFrom(Start, Printed(a, major)) == State(Kept(a, major), false, false)
  {
    hide Take, StableBlock, SectionBlock, Verbatim, FuncLine, Clean, Stripped, ParseFrom;
    var sorted := Sorted(a.stable);
    var stable := if a.hasStable then StableBlock(major, sorted) else [];
    var gap1 := Gap(a.hasStable && a.experimental != []);
    var exp := if a.experimental != [] then SectionBlock("EXPERIMENTAL", a.experimental) else [];
    var gap2 := Gap(a.internal_ != [] && (a.hasStable || a.experimental != []));
    var int_ := if a.internal_ != [] then SectionBlock("INTERNAL", a.internal_) else [];
    assert Printed(a, major) == stable + gap1 + exp + gap2 + int_;
    ParseConcat(Start, stable + gap1 + exp + gap2, int_);
    ParseConcat(Start, stable + gap1 + exp, gap2);
    ParseConcat(Start, stable + gap1, exp);
    ParseConcat(Start, stable, gap1);
    forall line | line in sorted ensures line in a.stable {
      assert line in Elements(sorted);
    }
    ParseNothing(Start);
    ParseStable(Start, major, sorted);
    var afterStable := ParseFrom(Start, stable);
    assert {} + Elements(sorted) == a.stable;
    ParseGap(afterStable, a.hasStable && a.experimental != []);
    assert [] + a.experimental == a.experimental && [] + a.internal_ == a.internal_;
    ParseNothing(afterStable);
    ParseSection(afterStable, "EXPERIMENTAL", a.experimental);
    var afterExp := ParseFrom(afterStable, exp);
    ParseGap(afterExp, a.internal_ != [] && (a.hasStable || a.experimental != []));
    ParseNothing(afterExp);
    ParseSection(afterExp, "INTERNAL", a.internal_);
  }

  lemma ParseNothing(st: State)
    ensures ParseFrom(st, []) == st
  {
  }

  lemma ParseGap(st: State, needed: bool)
    requires Outside(st)
    ensures ParseFrom(st, Gap(needed)) == st
  {
    TakeBlank(st);
    ParseOne(st, "");
  }

  lemma PrintedHasNoNewlines(a: Abi, major: string)
    requires Proper(a) && Plain(major)
    ensures NoNewlines(Printed(a, major))
  {
    hide FuncLine, SectionEnd, Stripped, StableBlock, SectionBlock;
    StableHasNoNewlines(major, Sorted(a.stable), a.stable);
    SectionHasNoNewlines("EXPERIMENTAL", a.experimental);
    SectionHasNoNewlines("INTERNAL", a.internal_);
  }

  lemma SectionHasNoNewlines(name: string, lines: seq<string>)
    requires NoNewlines(lines) && '\n' !in name
    ensures NoNewlines(SectionBlock(name, lines))
  {
  }

  lemma StableHasNoNewlines(major: string, sorted: seq<string>, stable: set<string>)
    requires Plain(major) && Elements(sorted) == stable && forall line :: line in stable ==> '\n' !in line
    ensures NoNewlines(StableBlock(major, sorted))
  {
    forall i | 0 <= i < |sorted| ensures '\n' !in sorted[i] {
      assert sorted[i] in Elements(sorted);
    }
    forall i | 0 <= i < |major| ensures major[i] != '\n' {
      assert !Member(major[i], Space);
    }
    assert NoNewlines(GlobalBlock(sorted));
  }

  /** The round trip: of any file, the experimental and internal sections come back line by line, and
      so does the set of stable functions if the file has a stable section. */
  lemma RoundTrip(text: string, major: string)
    requires Plain(major)
    ensures Parsed(Rewritten(text, major)) == Kept(Parsed(text), major)
  {
    ParsedIsProper(Start, Lines(text));
    PrintedHasNoNewlines(Parsed(text), major);
    LinesOfText(Printed(Parsed(text), major));
    ParsePrinted(Parsed(text), major);
  }

  // ---- What the linker makes of it ----

  ghost predicate HasStable(lines: seq<string>) {
    exists i :: 0 <= i <= |lines| && InStableSection(lines, i)
  }

  /** Some function line outside the sections that are copied has this name. */
  ghost predicate ListsName(lines: seq<string>, name: string) {
    exists i: nat, f :: Lists(lines, i, f) && FunctionName(f) == name
  }

  /** The first version that the linker finds makes exactly the functions global that the original file
      lists outside the sections that are copied, and all else local. */
  ghost predicate IsMergedVersion(lines: seq<string>, major: string, original: seq<string>) {
    var versions := Versions(lines);
    && versions != [] && versions[0].name == "DPDK_" + major && versions[0].locals == {"*"}
    && forall name :: name in versions[0].globals <==> ListsName(original, name)
  }

  lemma LinkerReads(text: string, major: string)
    requires Plain(major) && HasStable(Lines(text))
    ensures IsMergedVersion(Lines(Rewritten(text, major)), major, Lines(text))
  {
    hide Plain, Text, Lines, Versions, Printed, Proper, HasStable, ListsName, FunctionNames, Gathered, ParseFrom;
    var lines := Lines(text);
    LinesOfRewritten(text, major);
    ParseGathers(lines, |lines|);
    assert lines[..|lines|] == lines;
    NamesAreListed(lines, ParseFrom(Start, lines));
    MergedVersionComesFirst(Parsed(text), major);
  }

  lemma NamesAreListed(lines: seq<string>, st: State)
    requires Gathered(lines, |lines|, st)
    ensures HasStable(lines) <==> st.abi.hasStable
    ensures forall name :: name in FunctionNames(st.abi.stable) <==> ListsName(lines, name)
  {
    hide FunctionName, Lists, InStableSection, SectionAt, LinesOfSection;
    forall name ensures name in FunctionNames(st.abi.stable) <==> ListsName(lines, name) {
      if name in FunctionNames(st.abi.stable) {
        var f :| f in st.abi.stable && FunctionName(f) == name;
        var i :| 0 <= i < |lines| && Lists(lines, i, f);
      }
      if ListsName(lines, name) {
        var i: nat, f :| Lists(lines, i, f) && FunctionName(f) == name;
        ListsWithin(lines, i, f);
        assert f in st.abi.stable;
      }
    }
  }

  lemma ListsWithin(lines: seq<string>, i: nat, f: string)
    requires Lists(lines, i, f)
    ensures i < |lines|
  {
  }

  lemma LinesOfRewritten(text: string, major: string)
    requires Plain(major)
    ensures Lines(Rewritten(text, major)) == Printed(Parsed(text), major) && Proper(Parsed(text))
  {
    hide Text;
    ParsedIsProper(Start, Lines(text));
    PrintedHasNoNewlines(Parsed(text), major);
    LinesOfText(Printed(Parsed(text), major));
  }

  /** If no copied line closes its block early, the linker finds the merged version, and the sections that
      are copied with the symbols they had, and nothing else. */
  lemma LinkerReadsAll(text: string, major: string)
    requires Plain(major) && NoneCloses(Parsed(text).experimental) && NoneCloses(Parsed(text).internal_)
    ensures var a := Parsed(text);
      ReadLines(Unread, Lines(Rewritten(text, major))) == Reader(
        Merged(a, major) + Copied("EXPERIMENTAL", a.experimental) + Copied("INTERNAL", a.internal_), None, Global)
  {
    hide Plain, Text, Lines, ReadLines, Printed, Proper, NoneCloses, Copied, Merged;
    LinesOfRewritten(text, major);
    ReadPrinted(Parsed(text), major);
  }

  /** The stable functions are lost just when the file lists some but has no stable section. */
  lemma StableSurvives(text: string, major: string)
    requires Plain(major)
    ensures Parsed(Rewritten(text, major)).stable == Parsed(text).stable
      <==> Parsed(text).hasStable || Parsed(text).stable == {}
  {
    RoundTrip(text, major);
  }

  /** A second rewriting undoes nothing of what the second would have done alone. */
  lemma LastRewriteWins(text: string, first: string, second: string)
    requires Plain(first) && (Parsed(text).hasStable ==> All(first, NameDot))
    ensures Rewritten(Rewritten(text, first), second) == Rewritten(text, second)
  {
    RoundTrip(text, first);
  }

  /** Rewriting again with the same version changes nothing, unless the version has digits that the
      pattern for section headers does not know: then the second time the stable section is lost. */
  lemma RewritingTwice(text: string, major: string)
    requires Plain(major)
    ensures Rewritten(Rewritten(text, major), major) == Rewritten(text, major)
      <==> (Parsed(text).hasStable ==> All(major, NameDot))
  {
    RoundTrip(text, major);
    var a := Parsed(text);
    if a.hasStable && !All(major, NameDot) {
      StartsWithStable(a, major);
      StartsWithoutStable(Kept(a, major), major);
    }
  }

  lemma StartsWithStable(a: Abi, major: string)
    requires a.hasStable
    ensures var text := Text(Printed(a, major));
      text != "" && text[0] == 'D'
  {
    var lines := Printed(a, major);
    assert lines[0] == Header("DPDK_" + major);
    assert lines[0][0] == 'D';
  }

  lemma StartsWithoutStable(a: Abi, major: string)
    requires !a.hasStable
    ensures var text := Text(Printed(a, major));
      text == "" || text[0] != 'D'
  {
    var lines := Printed(a, major);
    if a.experimental != [] {
      assert lines[0] == Header("EXPERIMENTAL");
      assert lines[0][0] == 'E';
    } else if a.internal_ != [] {
      assert lines[0] == Header("INTERNAL");
      assert lines[0][0] == 'I';
    }
  }

  // ---- The version on the command line ----

  /** The code point of a digit zero, in Unicode 14; behind each follow the other digits of its script. */
  predicate IsZero(z: int) {
    || z == 0x30 || z == 0x660 || z == 0x6F0 || z == 0x7C0 || z == 0x966 || z == 0x9E6 || z == 0xA66
    || z == 0xAE6 || z == 0xB66 || z == 0xBE6 || z == 0xC66 || z == 0xCE6 || z == 0xD66 || z == 0xDE6
    || z == 0xE50 || z == 0xED0 || z == 0xF20 || z == 0x1040 || z == 0x1090 || z == 0x17E0 || z == 0x1810
    || z == 0x1946 || z == 0x19D0 || z == 0x1A80 || z == 0x1A90 || z == 0x1B50 || z == 0x1BB0 || z == 0x1C40
    || z == 0x1C50 || z == 0xA620 || z == 0xA8D0 || z == 0xA900 || z == 0xA9D0 || z == 0xA9F0 || z == 0xAA50
    || z == 0xABF0 || z == 0xFF10 || z == 0x104A0 || z == 0x10D30 || z == 0x11066 || z == 0x110F0 || z == 0x11136
    || z == 0x111D0 || z == 0x112F0 || z == 0x11450 || z == 0x114D0 || z == 0x11650 || z == 0x116C0 || z == 0x11730
    || z == 0x118E0 || z == 0x11950 || z == 0x11C50 || z == 0x11D50 || z == 0x11DA0 || z == 0x16A60 || z == 0x16AC0
    || z == 0x16B50 || z == 0x1D7CE || z == 0x1D7D8 || z == 0x1D7E2 || z == 0x1D7EC || z == 0x1D7F6 || z == 0x1E140
    || z == 0x1E2F0 || z == 0x1E950 || z == 0x1FBF0
  }

  predicate HasValue(c: char, d: nat) {
    IsZero(c as int - d)
  }

  /** `\d`: a decimal digit of any script. */
  predicate IsDigit(c: char) {
    exists d :: 0 <= d < 10 && HasValue(c, d)
  }

  predicate IsAsciiDigit(c: char) {
    '0' <= c <= '9'
  }

  /** The argument begins with one or two digits, a period, and another digit. */
  predicate AcceptedVersion(v: string) {
    exists k :: 1 <= k <= 2 && MatchesWith(v, k)
  }

  predicate MatchesWith(v: string, k: nat) {
    |v| > k + 1 && (forall i :: 0 <= i < k ==> IsDigit(v[i])) && v[k] == '.' && IsDigit(v[k + 1])
  }

  /** `abi_version.split('.')[0]`. */
  function Major(v: string): string {
    Span(v, ".")
  }

  /** All zeros but the ASCII one are behind the ASCII characters, and none is near white space. */
  lemma ZerosAreApart(z: int)
    requires IsZero(z)
    ensures z == 0x30 || (z >= 0x660 && !(0x1677 <= z <= 0x1680) && !(0x1FF7 <= z <= 0x3000))
  {
  }

  lemma DigitsArePlain(c: char)
    requires IsDigit(c)
    ensures !Member(c, Space) && c !in "{};#."
    ensures Member(c, NameDot) <==> IsAsciiDigit(c)
  {
    hide IsZero;
    var d :| 0 <= d < 10 && HasValue(c, d);
    ZerosAreApart(c as int - d);
  }

  /** The check of the argument lets only plain versions through. Their characters are those of a section
      name exactly when they are ASCII digits. */
  lemma AcceptedIsPlain(v: string)
    requires AcceptedVersion(v)
    ensures Plain(Major(v)) && forall i :: 0 <= i < |Major(v)| ==> IsDigit(Major(v)[i])
    ensures All(Major(v), NameDot) <==> forall i :: 0 <= i < |Major(v)| ==> IsAsciiDigit(Major(v)[i])
  {
    hide IsDigit, Member, IsAsciiDigit;
    var k :| 1 <= k <= 2 && MatchesWith(v, k);
    forall i | 0 <= i < k
      ensures !Member(v[i], Space) && v[i] !in "{};#."
      ensures Member(v[i], NameDot) <==> IsAsciiDigit(v[i])
    {
      DigitsArePlain(v[i]);
    }
    SpanOf(v[..k], v[k..], ".");
    assert v == v[..k] + v[k..];
  }

  datatype Outcome = InvalidFile | InvalidVersion | Written(text: string)

  predicate EndsWith(s: string, tail: string) {
    |s| >= |tail| && s[|s| - |tail|..] == tail
  }

  /** `__main`, for a file of this name with this text. */
  method Update(mapFile: string, version: string, text: string) returns (outcome: Outcome)
    ensures outcome.InvalidFile? <==> !EndsWith(mapFile, "version.map")
    ensures outcome.InvalidVersion? <==> EndsWith(mapFile, "version.map") && !AcceptedVersion(version)
    ensures outcome.Written? ==> outcome.text == Rewritten(text, Major(version))
    ensures outcome.Written? && HasStable(Lines(text)) ==>
      IsMergedVersion(Lines(outcome.text), Major(version), Lines(text))
    ensures outcome.Written? ==>
      (Rewritten(outcome.text, Major(version)) == outcome.text <==>
       (Parsed(text).hasStable ==> forall i :: 0 <= i < |Major(version)| ==> IsAsciiDigit(Major(version)[i])))
  {
    hide AcceptedVersion, Rewritten, Parsed, Major, Plain, All, IsAsciiDigit, HasStable, IsMergedVersion;
    if !EndsWith(mapFile, "version.map") {
      return InvalidFile;
    }
    if !AcceptedVersion(version) {
      return InvalidVersion;
    }
    AcceptedIsPlain(version);
    RewritingTwice(text, Major(version));
    var written := RewriteFile(text, Major(version));
    outcome := Written(written);
  }

  /** An accepted version whose second use loses the stable section. */
  lemma ArabicDigitLosesTheStableSection()
    ensures AcceptedVersion("\U{0662}.0") && Major("\U{0662}.0") == "\U{0662}"
    ensures var text := Text([Header("DPDK_22"), "};"]);
      Rewritten(Rewritten(text, "\U{0662}"), "\U{0662}") != Rewritten(text, "\U{0662}")
  {
    hide Text, Rewritten, Take, Lines, Parsed, All, Plain;
    var lines, v, two := [Header("DPDK_22"), "};"], "\U{0662}.0", "\U{0662}";
    ArabicVersion();
    AcceptedIsPlain(v);
    assert !IsAsciiDigit(two[0]);
    RewritingTwice(Text(lines), two);
    ParseHeaderAlone();
  }

  lemma ArabicVersion()
    ensures AcceptedVersion("\U{0662}.0") && Major("\U{0662}.0") == "\U{0662}"
  {
    var v := "\U{0662}.0";
    assert HasValue(v[0], 2) && HasValue(v[2], 0);
    assert IsDigit(v[0]) && IsDigit(v[2]);
    assert MatchesWith(v, 1);
    SpanOf("\U{0662}", ".0", ".");
    assert v == "\U{0662}" + ".0";
  }

  lemma ParseHeaderAlone()
    ensures Parsed(Text([Header("DPDK_22"), "};"])).hasStable
  {
    hide Text, Take, Lines, FirstLine;
    var lines := [Header("DPDK_22"), "};"];
    LinesOfText(lines);
    TakeHeader(Start, "DPDK_22");
    TakeEnd(Take(Start, lines[0]));
    assert lines[1..] == ["};"];
    ParseOne(Take(Start, lines[0]), "};");
  }
}
