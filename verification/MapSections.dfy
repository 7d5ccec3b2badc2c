/** What devtools/update_version_map_abi.py gathers from a whole file, line by line of the file: which
    section a line is in, and what comes of it. */
module MapSections {
  import opened Words
  import opened MapLines
  import opened MapFile

  /** The section that line `i` is in. Inside a section that is copied no other can begin. */
  function SectionAt(lines: seq<string>, i: nat): Option<string>
    requires i <= |lines|
  {
    if i == 0 then None
    else
      var before, line := SectionAt(lines, i - 1), Strip(lines[i - 1]);
      if SectionEnd(line) then None
      else if IsCopied(before) || SectionBegin(line) == None then before
      else SectionBegin(line)
  }

  predicate IsCopied(section: Option<string>) {
    section == Some("EXPERIMENTAL") || section == Some("INTERNAL")
  }

  /** Line `i` is a function line outside the sections that are copied. */
  predicate Lists(lines: seq<string>, i: nat, f: string) {
    i < |lines| && !IsCopied(SectionAt(lines, i)) && FuncLine(Strip(lines[i])) == Some(f)
  }

  predicate InStableSection(lines: seq<string>, i: nat) {
    i <= |lines| && SectionAt(lines, i).Some? && !IsCopied(SectionAt(lines, i))
  }

  /** The lines, up to line `n`, of all sections of this name. */
  function LinesOfSection(lines: seq<string>, n: nat, name: string): seq<string>
    requires n <= |lines|
  {
    if n == 0 then []
    else
      var line := Strip(lines[n - 1]);
      LinesOfSection(lines, n - 1, name)
      + if SectionAt(lines, n - 1) == Some(name) && !SectionEnd(line) then [line] else []
  }

  ghost predicate Gathered(lines: seq<string>, n: nat, st: State)
    requires n <= |lines|
  {
    && (st.inExperimental <==> SectionAt(lines, n) == Some("EXPERIMENTAL"))
    && (st.inInternal <==> SectionAt(lines, n) == Some("INTERNAL"))
    && (st.abi.hasStable <==> exists i :: 0 <= i <= n && InStableSection(lines, i))
    && (forall f :: f in st.abi.stable <==> exists i :: 0 <= i < n && Lists(lines, i, f))
    && st.abi.experimental == LinesOfSection(lines, n, "EXPERIMENTAL")
    && st.abi.internal_ == LinesOfSection(lines, n, "INTERNAL")
  }

  /** For every file: it has a stable section if one begins anywhere outside the copied ones; the stable
      functions are those of all function lines outside the copied sections, wherever they are; and the
      copied lines are those of all sections of their name, in order. */
  lemma {:induction false} ParseGathers(lines: seq<string>, n: nat)
    requires n <= |lines|
    ensures Gathered(lines, n, ParseFrom(Start, lines[..n]))
    decreases n
  {
    hide SectionEnd, SectionBegin, FuncLine, Strip, Take, Gathered;
    if n == 0 {
      NothingGathered(lines);
    } else {
      ParseGathers(lines, n - 1);
      assert lines[..n] == lines[..n - 1] + [lines[n - 1]];
      ParseConcat(Start, lines[..n - 1], [lines[n - 1]]);
      var st := ParseFrom(Start, lines[..n - 1]);
      ParseOne(st, lines[n - 1]);
      GatherOne(lines, n, st);
    }
  }

  lemma NothingGathered(lines: seq<string>)
    ensures Gathered(lines, 0, Start)
  {
  }

  lemma GatherOne(lines: seq<string>, n: nat, st: State)
    requires 0 < n <= |lines| && Gathered(lines, n - 1, st)
    ensures Gathered(lines, n, Take(st, lines[n - 1]))
  {
    hide SectionEnd, SectionBegin, FuncLine, Strip;
    var line := Strip(lines[n - 1]);
    if FuncLine(line).Some? {
      FuncLineIsNoSection(line);
      NoEmptyFunction();
    }
    NoEmptySection();
    StableStays(lines, n, st);
    var next := Take(st, lines[n - 1]);
    assert forall f :: f in next.abi.stable <==> f in st.abi.stable || Lists(lines, n - 1, f);
  }

  lemma StableStays(lines: seq<string>, n: nat, st: State)
    requires 0 < n <= |lines| && Gathered(lines, n - 1, st)
    ensures Take(st, lines[n - 1]).abi.hasStable <==> st.abi.hasStable || InStableSection(lines, n)
  {
    hide SectionEnd, SectionBegin, FuncLine, Strip, LinesOfSection, Lists;
    NoEmptySection();
    assert InStableSection(lines, n - 1) ==> st.abi.hasStable;
  }

  lemma NoEmptySection()
    ensures SectionBegin("") == None
  {
  }
}
