/**
  The acknowledgements generator: which file in a dependency's directory is
  its license, what text stands for that license, how a dependency's section
  is rendered, the copyright header, the sorted dependency list, and the
  assembled (not yet pretty-printed) document.

  Everything the script reads from disk is an input here: the declared
  dependency names, and for each installed dependency its directory listing,
  the contents of its files and the `license` field of its package.json.
*/
module Acknowledgements {

  import opened Wrappers
  import opened Text
  import opened Header
  import Ordering

  // ---------------------------------------------------------------------
  // Recognising a license file

  /**
    Case folding for the `i` flag. Without the `u` flag a character is only
    identified with its ASCII counterpart when both are ASCII, and every
    character of the pattern is ASCII, so folding ASCII letters is exact.
  */
  function FoldCase(c: char): char {
    if 'A' <= c <= 'Z' then (c as int + 32) as char else c
  }

  function LowerAscii(s: string): (r: string)
    ensures |r| == |s|
  {
    seq(|s|, i requires 0 <= i < |s| => FoldCase(s[i]))
  }

  /**
    `isItALicenseFile`, the test `/^licen[s|c]e/i`: anchored at the start,
    ignoring case, the literal `licen`, one character of the class `[s|c]`
    (inside brackets `|` is an ordinary character, so the class accepts
    `s`, `|` and `c`), then the literal `e`.
  */
  predicate IsLicenseFile(entry: string) {
    && |entry| >= 7
    && LowerAscii(entry[..5]) == "licen"
    && FoldCase(entry[5]) in "s|c"
    && FoldCase(entry[6]) == 'e'
  }

  /**
    A name is a license file exactly when its first seven characters, with
    letters folded to lower case, spell `license`, `licence` or `licen|e`.
  */
  lemma IsLicenseFileSpec(entry: string)
    ensures IsLicenseFile(entry) <==>
      |entry| >= 7 && LowerAscii(entry[..7]) in {"license", "licence", "licen|e"}
  {
    if |entry| >= 7 {
      var w := LowerAscii(entry[..7]);
      assert w[..5] == LowerAscii(entry[..5]);
      assert w == w[..5] + [w[5]] + [w[6]];
      assert "license" == "licen" + ['s'] + ['e'];
      assert "licence" == "licen" + ['c'] + ['e'];
      assert "licen|e" == "licen" + ['|'] + ['e'];
    }
  }

  /** What follows the seven matched characters, an extension included, never matters. */
  lemma LicenseFileIgnoresSuffix(entry: string, suffix: string)
    ensures IsLicenseFile(entry) ==> IsLicenseFile(entry + suffix)
    ensures |entry| >= 7 ==> (IsLicenseFile(entry + suffix) <==> IsLicenseFile(entry))
  {
    if |entry| >= 5 {
      assert (entry + suffix)[..5] == entry[..5];
    }
  }

  lemma LicenseFileAccepted()
    ensures IsLicenseFile("LICENSE") && IsLicenseFile("license.md") && IsLicenseFile("Licence.txt")
    ensures IsLicenseFile("LICENSE-MIT") && IsLicenseFile("licen|e")
  {
    IsLicenseFileSpec("LICENSE");
    IsLicenseFileSpec("license.md");
    IsLicenseFileSpec("Licence.txt");
    IsLicenseFileSpec("LICENSE-MIT");
    IsLicenseFileSpec("licen|e");
  }

  lemma LicenseFileRejected()
    ensures !IsLicenseFile("LICENS") && !IsLicenseFile("README.md") && !IsLicenseFile("UNLICENSE")
    ensures !IsLicenseFile("licenze") && !IsLicenseFile("package.json")
  {
    IsLicenseFileSpec("LICENS");
    IsLicenseFileSpec("README.md");
    IsLicenseFileSpec("UNLICENSE");
    IsLicenseFileSpec("licenze");
    IsLicenseFileSpec("package.json");
  }

  // ---------------------------------------------------------------------
  // Choosing the license text of one dependency

  /** The dependency known to ship no license file, and the text used for it. */
  const OverriddenDependency := "fs-xattr"
  const OverrideBody := "License: MIT"

  /**
    What the disk holds for one installed dependency: the entry names of its
    directory in listing order, the contents of those entries that can be
    read as text, and the `license` field of its package.json.
  */
  datatype Installed = Installed(entries: seq<string>, files: map<string, string>, license: Option<string>)

  /** Why no section could be produced for a dependency. */
  datatype Error =
    | NotInstalled(dependency: string)                 // its directory cannot be listed
    | Unreadable(dependency: string, entry: string)    // the chosen license entry cannot be read
    | LicenseNotFound(dependency: string)              // no license entry and no declared license
  {
    /** The text of the error thrown when no license is found. */
    function Message(): string
      requires LicenseNotFound?
    {
      NotFoundPrefix + dependency
    }
  }

  const NotFoundPrefix := "Could not find license for "

  /** The message names the dependency: two not-found errors read the same only for the same dependency. */
  lemma MessageNamesDependency(e1: Error, e2: Error)
    requires e1.LicenseNotFound? && e2.LicenseNotFound?
    ensures e1.Message() == e2.Message() <==> e1 == e2
  {
    var n := |NotFoundPrefix|;
    assert e1.Message()[n..] == e1.dependency;
    assert e2.Message()[n..] == e2.dependency;
  }

  /** Entry `i` is a license file and no earlier entry is. */
  predicate IsFirstLicenseEntry(entries: seq<string>, i: int) {
    && 0 <= i < |entries| && IsLicenseFile(entries[i])
    && forall j :: 0 <= j < i ==> !IsLicenseFile(entries[j])
  }

  lemma FirstLicenseEntryUnique(entries: seq<string>, i: int)
    requires IsFirstLicenseEntry(entries, i)
    ensures forall k :: IsFirstLicenseEntry(entries, k) ==> k == i
  {
  }

  /** `entries.find(isItALicenseFile)`, as the position found. */
  function FindLicenseEntry(entries: seq<string>): (r: Option<nat>)
    ensures r.Some? ==> IsFirstLicenseEntry(entries, r.value)
    ensures r.None? <==> forall j :: 0 <= j < |entries| ==> !IsLicenseFile(entries[j])
    decreases |entries|
  {
    if entries == [] then None
    else if IsLicenseFile(entries[0]) then Some(0)
    else
      match FindLicenseEntry(entries[1..])
      case None => None
      case Some(i) =>
        assert forall j :: 1 <= j <= i ==> entries[j] == entries[1..][j - 1];
        Some(i + 1)
  }

  /** True when the `license` field is missing or falsy (the empty string). */
  predicate NoDeclaredLicense(license: Option<string>) {
    license.None? || license.value == ""
  }

  /** The license text of an installed dependency that is not overridden. */
  function InstalledLicenseBody(name: string, pkg: Installed): (r: Result<string, Error>)
    ensures forall i :: IsFirstLicenseEntry(pkg.entries, i) ==>
      r == (if pkg.entries[i] in pkg.files then Ok(Trim(pkg.files[pkg.entries[i]]))
            else Err(Unreadable(name, pkg.entries[i])))
    ensures (forall i :: 0 <= i < |pkg.entries| ==> !IsLicenseFile(pkg.entries[i])) ==>
      r == (if NoDeclaredLicense(pkg.license) then Err(LicenseNotFound(name))
            else Ok("License: " + pkg.license.value))
  {
    match FindLicenseEntry(pkg.entries)
    case Some(i) =>
      FirstLicenseEntryUnique(pkg.entries, i);
      var entry := pkg.entries[i];
      if entry in pkg.files then Ok(Trim(pkg.files[entry])) else Err(Unreadable(name, entry))
    case None =>
      if NoDeclaredLicense(pkg.license) then Err(LicenseNotFound(name))
      else Ok("License: " + pkg.license.value)
  }

  /** The `license_body` that `getMarkdownForDependency` settles on, or why there is none. */
  function LicenseBody(name: string, tree: map<string, Installed>): (r: Result<string, Error>)
    ensures name == OverriddenDependency ==> r == Ok(OverrideBody)
    ensures name != OverriddenDependency && name !in tree ==> r == Err(NotInstalled(name))
    ensures name != OverriddenDependency && name in tree ==> r == InstalledLicenseBody(name, tree[name])
    ensures r.Err? ==> r.error.dependency == name
  {
    if name == OverriddenDependency then Ok(OverrideBody)
    else if name !in tree then Err(NotInstalled(name))
    else InstalledLicenseBody(name, tree[name])
  }

  /**
    The run stops with "Could not find license" for a dependency exactly when
    it is not the overridden one, it is installed, no entry of its directory
    is a license file and its package.json declares no license.
  */
  lemma LicenseNotFoundExactly(name: string, tree: map<string, Installed>)
    ensures LicenseBody(name, tree) == Err(LicenseNotFound(name)) <==>
      && name != OverriddenDependency && name in tree
      && (forall i :: 0 <= i < |tree[name].entries| ==> !IsLicenseFile(tree[name].entries[i]))
      && NoDeclaredLicense(tree[name].license)
  {
    if name != OverriddenDependency && name in tree {
      var r := InstalledLicenseBody(name, tree[name]);
      var found := FindLicenseEntry(tree[name].entries);
      if found.Some? {
        var i := found.value;
        assert r.Err? ==> r.error == Unreadable(name, tree[name].entries[i]);
      }
    }
  }

  // ---------------------------------------------------------------------
  // Rendering one dependency's section

  /** One line of license text as it appears in the section. */
  function RenderLine(line: string): (r: string)
    ensures r == "" <==> AllWhitespace(line)
    ensures r != "" ==> |r| > 4 && r[..4] == "    " && r[4..] == Trim(line)
    ensures r != "" ==> !IsWhitespace(r[4]) && !IsWhitespace(r[|r| - 1])
  {
    var trimmed := Trim(line);
    if trimmed != "" then "    " + trimmed else trimmed
  }

  /** Removes the four-space indentation RenderLine adds. */
  function Unindent(line: string): string {
    if |line| >= 4 && line[..4] == "    " then line[4..] else line
  }

  /** The lines of a section: heading, empty line, then each license line rendered. */
  function SectionLines(name: string, body: string): (lines: seq<string>)
    ensures |lines| == 2 + |SplitLines(body)|
    ensures lines[0] == "## " + name && lines[1] == ""
  {
    var source := SplitLines(body);
    ["## " + name, ""] + seq(|source|, i requires 0 <= i < |source| => RenderLine(source[i]))
  }

  /**
    Each source line becomes one section line: empty exactly when the source
    line is blank, and otherwise the trimmed source line after four spaces,
    so removing the indentation gives back the trimmed line.
  */
  lemma SectionBodyLines(name: string, body: string)
    ensures var lines := SectionLines(name, body);
      forall i :: 0 <= i < |SplitLines(body)| ==>
        && (lines[i + 2] == "" <==> AllWhitespace(SplitLines(body)[i]))
        && (lines[i + 2] != "" ==> lines[i + 2] == "    " + Trim(SplitLines(body)[i]))
        && Unindent(lines[i + 2]) == Trim(SplitLines(body)[i])
  {
    var lines := SectionLines(name, body);
    var source := SplitLines(body);
    forall i | 0 <= i < |source|
      ensures lines[i + 2] == RenderLine(source[i])
    {
    }
  }

  /** The markdown `getMarkdownForDependency` returns for a dependency with this body. */
  function Section(name: string, body: string): string {
    Join(SectionLines(name, body), "\n")
  }

  /**
    Read back line by line, a section is exactly its heading, the empty line
    and the rendered license lines, so it has 3 + (number of `\n` in the
    body) lines; the name only has to be free of line breaks.
  */
  lemma SectionReadsBack(name: string, body: string)
    requires SingleLine(name)
    ensures SplitLines(Section(name, body)) == SectionLines(name, body)
    ensures |SplitLines(Section(name, body))| == 3 + NewlineCount(body)
  {
    SplitLinesCount(body);
    SectionLinesAreSingle(name, body);
    SplitJoinLf(SectionLines(name, body));
  }

  lemma SectionLinesAreSingle(name: string, body: string)
    requires SingleLine(name)
    ensures SingleLines(SectionLines(name, body))
  {
    var lines := SectionLines(name, body);
    var source := SplitLines(body);
    assert lines[2..] == seq(|source|, i requires 0 <= i < |source| => RenderLine(source[i]));
    assert SingleLine(lines[0]) && SingleLine(lines[1]);
    forall i | 2 <= i < |lines| ensures SingleLine(lines[i]) {
      RenderedLineIsSingle(source[i - 2]);
      assert lines[i] == lines[2..][i - 2];
    }
  }

  lemma RenderedLineIsSingle(line: string)
    requires '\n' !in line
    ensures SingleLine(RenderLine(line))
  {
  }

  /** `getMarkdownForDependency`: the section, or the error that stops the run. */
  function MarkdownForDependency(name: string, tree: map<string, Installed>): (r: Result<string, Error>)
    ensures r.Ok? <==> LicenseBody(name, tree).Ok?
    ensures r.Err? ==> r.error == LicenseBody(name, tree).error
    ensures r.Ok? && SingleLine(name) ==> SplitLines(r.value) == SectionLines(name, LicenseBody(name, tree).value)
  {
    var body :- LicenseBody(name, tree);
    assert SingleLine(name) ==> SplitLines(Section(name, body)) == SectionLines(name, body) by {
      if SingleLine(name) {
        SectionReadsBack(name, body);
      }
    }
    Ok(Section(name, body))
  }

  /**
    `pMap` as far as its result goes: every element mapped, results in input
    order whatever the order of completion, and no result at all once one
    element fails. The model reports the first failure in input order.
  */
  function MapAllOrNothing<A, B(==), E(==)>(xs: seq<A>, f: A -> Result<B, E>): (r: Result<seq<B>, E>)
    ensures r.Ok? <==> forall i :: 0 <= i < |xs| ==> f(xs[i]).Ok?
    ensures r.Ok? ==> |r.value| == |xs| && forall i :: 0 <= i < |xs| ==> f(xs[i]) == Ok(r.value[i])
    ensures r.Err? ==> exists i :: 0 <= i < |xs| && f(xs[i]) == Err(r.error)
    decreases |xs|
  {
    if xs == [] then Ok([])
    else
      var first := f(xs[0]);
      if first.Err? then Err(first.error)
      else
        var rest := MapAllOrNothing(xs[1..], f);
        if rest.Err? then
          var i :| 0 <= i < |xs| - 1 && f(xs[1..][i]) == Err(rest.error);
          assert xs[i + 1] == xs[1..][i];
          Err(rest.error)
        else
          assert forall i :: 0 < i < |xs| ==> xs[i] == xs[1..][i - 1];
          Ok([first.value] + rest.value)
  }

  /** The fan-out over all dependency names. */
  function MarkdownsForDependencies(names: seq<string>, tree: map<string, Installed>): Result<seq<string>, Error> {
    MapAllOrNothing(names, name => MarkdownForDependency(name, tree))
  }

  // ---------------------------------------------------------------------
  // The dependency list

  /** `SKIPPED_DEPENDENCIES`, empty in the script. */
  const Skipped: set<string> := {}

  /** The keys not skipped; their order does not matter once the list is sorted. */
  function WithoutSkipped(keys: seq<string>, skipped: set<string>): (r: seq<string>)
    ensures forall x :: multiset(r)[x] == if x in skipped then 0 else multiset(keys)[x]
    decreases |keys|
  {
    if keys == [] then []
    else
      assert keys == [keys[0]] + keys[1..];
      (if keys[0] in skipped then [] else [keys[0]]) + WithoutSkipped(keys[1..], skipped)
  }

  /** The dependency names in the order their sections appear. */
  function DependencyNames(keys: seq<string>, skipped: set<string>): (r: seq<string>)
    ensures Ordering.Sorted(r)
    ensures forall x :: multiset(r)[x] == if x in skipped then 0 else multiset(keys)[x]
  {
    var kept := WithoutSkipped(keys, skipped);
    Ordering.SortSorted(kept);
    Ordering.Sort(kept)
  }

  /** The list holds exactly the keys outside the skip set. */
  lemma DependencyNamesMembers(keys: seq<string>, skipped: set<string>)
    ensures forall x :: x in DependencyNames(keys, skipped) <==> x in keys && x !in skipped
  {
    var names := DependencyNames(keys, skipped);
    forall x ensures x in names <==> x in keys && x !in skipped {
      assert x in names <==> x in multiset(names);
      assert x in keys <==> x in multiset(keys);
    }
  }

  /**
    For the distinct keys of the `dependencies` object: each key outside the
    skip set is in the list exactly once, in strictly ascending order.
  */
  lemma DependencyNamesSpec(keys: seq<string>, skipped: set<string>)
    requires Ordering.NoDuplicates(keys)
    ensures var names := DependencyNames(keys, skipped);
      && Ordering.NoDuplicates(names)
      && (forall i, j :: 0 <= i < j < |names| ==>
            Ordering.AtOrBefore(names[i], names[j]) && names[i] != names[j])
  {
    var names := DependencyNames(keys, skipped);
    DependencyNamesMembers(keys, skipped);
    forall x | x in names ensures multiset(names)[x] == 1 {
      assert x in keys;
    }
    Ordering.StrictlyAscending(names);
  }

  /** The order of the keys in the `dependencies` object does not matter. */
  lemma DependencyNamesIgnoreKeyOrder(keys1: seq<string>, keys2: seq<string>, skipped: set<string>)
    requires multiset(keys1) == multiset(keys2)
    ensures DependencyNames(keys1, skipped) == DependencyNames(keys2, skipped)
  {
    var a := DependencyNames(keys1, skipped);
    var b := DependencyNames(keys2, skipped);
    assert multiset(a) == multiset(b) by {
      forall x ensures multiset(a)[x] == multiset(b)[x] {
      }
    }
    Ordering.SortedUnique(a, b);
  }

  // ---------------------------------------------------------------------
  // The document

  const DefaultProductName := "de arco"

  /** `unformatted_output` for the given sections. */
  function Document(product: string, currentYear: int, markdowns: seq<string>): string {
    Join([LicenseComment(currentYear), Title, "", Intro(product), "", Join(markdowns, "\n\n")], "\n")
  }

  /** Groups of lines with one empty line between consecutive groups. */
  function Layout(groups: seq<seq<string>>): (lines: seq<string>)
    ensures |lines| >= 1
    decreases |groups|
  {
    if |groups| == 0 then [""]
    else if |groups| == 1 then (if groups[0] == [] then [""] else groups[0])
    else groups[0] + [""] + Layout(groups[1..])
  }

  /** Joining sections with a blank line is joining all their lines, a blank line between sections. */
  lemma {:induction false} JoinSections(markdowns: seq<string>, groups: seq<seq<string>>)
    requires |markdowns| == |groups|
    requires forall i :: 0 <= i < |groups| ==> |groups[i]| > 0 && markdowns[i] == Join(groups[i], "\n")
    ensures Join(markdowns, "\n\n") == Join(Layout(groups), "\n")
    decreases |groups|
  {
    if |groups| > 1 {
      JoinSections(markdowns[1..], groups[1..]);
      var rest := Layout(groups[1..]);
      JoinAppend(groups[0], [""] + rest, "\n");
      assert groups[0] + [""] + rest == groups[0] + ([""] + rest);
      assert ([""] + rest)[1..] == rest;
    }
  }

  /** The document's lines: the preamble, then the section groups laid out. */
  lemma DocumentLines(product: string, currentYear: int, markdowns: seq<string>, groups: seq<seq<string>>)
    requires |markdowns| == |groups|
    requires forall i :: 0 <= i < |groups| ==> |groups[i]| > 0 && markdowns[i] == Join(groups[i], "\n")
    ensures Document(product, currentYear, markdowns) == Join(Preamble(product, currentYear) + Layout(groups), "\n")
  {
    JoinSections(markdowns, groups);
    var header := [CopyrightLine(currentYear), SpdxLine];
    var middle := [Title, "", Intro(product), ""];
    var layout := Layout(groups);
    var comment := LicenseComment(currentYear);
    var sections := Join(markdowns, "\n\n");
    assert comment == Join(header, "\n");
    SixParts(comment, Title, "", Intro(product), "", sections);
    JoinNested(header, middle, layout, "\n");
    SixParts(header[0], header[1], Title, "", Intro(product), "");
  }

  /** A six-element sequence regrouped as the document's join and as header plus the rest. */
  lemma SixParts<T>(a: T, b: T, c: T, d: T, e: T, f: T)
    ensures [a, b, c, d, e, f] == [a] + [b, c, d, e] + [f]
    ensures [a, b, c, d, e, f] == [a, b] + [c, d, e, f]
  {
  }

  /** The section lines of each dependency, in order, given its license body. */
  function SectionGroups(names: seq<string>, bodies: seq<string>): (groups: seq<seq<string>>)
    requires |names| == |bodies|
  {
    seq(|names|, i requires 0 <= i < |names| => SectionLines(names[i], bodies[i]))
  }

  /**
    `main` up to the formatter: the unformatted document, or the first
    failure among the dependencies that are not skipped.
  */
  function UnformattedOutput(keys: seq<string>, productName: Option<string>, tree: map<string, Installed>, currentYear: int)
    : Result<string, Error>
  {
    var markdowns :- MarkdownsForDependencies(DependencyNames(keys, Skipped), tree);
    Ok(Document(productName.GetOr(DefaultProductName), currentYear, markdowns))
  }

  /**
    The run fails exactly when some declared, not skipped dependency has no
    license text, and the error then names a declared dependency.
  */
  lemma OutputFailsExactly(keys: seq<string>, productName: Option<string>, tree: map<string, Installed>, currentYear: int)
    ensures var r := UnformattedOutput(keys, productName, tree, currentYear);
      && (r.Err? <==> exists name :: name in keys && name !in Skipped && LicenseBody(name, tree).Err?)
      && (r.Err? ==> r.error.dependency in keys)
  {
    var names := DependencyNames(keys, Skipped);
    var all := MarkdownsForDependencies(names, tree);
    OutputIsFanOut(keys, productName, tree, currentYear);
    DependencyNamesMembers(keys, Skipped);
    FanOutFailsExactly(names, tree);
    if all.Err? {
      var i :| 0 <= i < |names| && LicenseBody(names[i], tree).Err?;
      assert names[i] in names;
    } else {
      forall name | name in keys && name !in Skipped ensures LicenseBody(name, tree).Ok? {
        assert name in names;
        var i :| 0 <= i < |names| && names[i] == name;
      }
    }
  }

  /** The run's outcome is the fan-out's: it fails exactly when the fan-out does, with its error. */
  lemma OutputIsFanOut(keys: seq<string>, productName: Option<string>, tree: map<string, Installed>, currentYear: int)
    ensures var r := UnformattedOutput(keys, productName, tree, currentYear);
      var all := MarkdownsForDependencies(DependencyNames(keys, Skipped), tree);
      && (r.Err? <==> all.Err?)
      && (r.Err? ==> r.error == all.error)
  {
  }

  /** The fan-out fails exactly when some name has no license text, with that name's error. */
  lemma FanOutFailsExactly(names: seq<string>, tree: map<string, Installed>)
    ensures var all := MarkdownsForDependencies(names, tree);
      && (all.Err? <==> exists i :: 0 <= i < |names| && LicenseBody(names[i], tree).Err?)
      && (all.Err? ==> all.error.dependency in names)
  {
    var f := name => MarkdownForDependency(name, tree);
    var all := MarkdownsForDependencies(names, tree);
    assert all == MapAllOrNothing(names, f);
    if all.Err? {
      var i :| 0 <= i < |names| && f(names[i]) == Err(all.error);
      assert MarkdownForDependency(names[i], tree) == Err(all.error);
      assert names[i] in names;
    } else {
      forall i | 0 <= i < |names| ensures LicenseBody(names[i], tree).Ok? {
        assert MarkdownForDependency(names[i], tree).Ok?;
      }
    }
  }

  /** With every body known, the fan-out yields each section, built from its lines. */
  lemma MarkdownsAreSections(names: seq<string>, tree: map<string, Installed>, bodies: seq<string>)
    requires |bodies| == |names|
    requires forall i :: 0 <= i < |names| ==> LicenseBody(names[i], tree) == Ok(bodies[i])
    ensures var all := MarkdownsForDependencies(names, tree);
      && all.Ok? && |all.value| == |names|
      && forall i :: 0 <= i < |names| ==> all.value[i] == Join(SectionGroups(names, bodies)[i], "\n")
  {
    var f := name => MarkdownForDependency(name, tree);
    var all := MarkdownsForDependencies(names, tree);
    assert all == MapAllOrNothing(names, f);
    forall i | 0 <= i < |names| ensures f(names[i]) == Ok(Section(names[i], bodies[i])) {
    }
  }

  /**
    When every dependency has a license, the document read back line by line
    is the header, the title, the intro naming the product, and then each
    dependency's section in sorted order, one empty line between sections.
  */
  lemma OutputLines(keys: seq<string>, productName: Option<string>, tree: map<string, Installed>, currentYear: int, bodies: seq<string>)
    requires |bodies| == |DependencyNames(keys, Skipped)|
    requires forall i :: 0 <= i < |bodies| ==> LicenseBody(DependencyNames(keys, Skipped)[i], tree) == Ok(bodies[i])
    requires SingleLine(productName.GetOr(DefaultProductName))
    requires forall name :: name in keys ==> SingleLine(name)
    ensures UnformattedOutput(keys, productName, tree, currentYear).Ok?
    ensures SplitLines(UnformattedOutput(keys, productName, tree, currentYear).value)
         == Preamble(productName.GetOr(DefaultProductName), currentYear)
            + Layout(SectionGroups(DependencyNames(keys, Skipped), bodies))
  {
    var names := DependencyNames(keys, Skipped);
    DependencyNamesMembers(keys, Skipped);
    forall i | 0 <= i < |names| ensures SingleLine(names[i]) {
      assert names[i] in names;
    }
    MarkdownsAreSections(names, tree, bodies);
    OutputIsDocument(keys, productName, tree, currentYear);
    SectionsReadBack(productName.GetOr(DefaultProductName), currentYear, names, bodies,
                     MarkdownsForDependencies(names, tree).value);
  }

  /** A document whose sections are built from single-line names reads back as its lines. */
  lemma SectionsReadBack(product: string, currentYear: int, names: seq<string>, bodies: seq<string>, markdowns: seq<string>)
    requires |names| == |bodies| == |markdowns|
    requires SingleLine(product)
    requires forall i :: 0 <= i < |names| ==> SingleLine(names[i])
    requires forall i :: 0 <= i < |names| ==> markdowns[i] == Join(SectionGroups(names, bodies)[i], "\n")
    ensures SplitLines(Document(product, currentYear, markdowns))
         == Preamble(product, currentYear) + Layout(SectionGroups(names, bodies))
  {
    var groups := SectionGroups(names, bodies);
    DocumentLines(product, currentYear, markdowns, groups);
    SectionGroupsAreSingleLines(names, bodies);
    DocumentLinesAreSingle(product, currentYear, groups);
    SplitJoinSingleLines(Preamble(product, currentYear) + Layout(groups));
  }

  /** When the fan-out succeeds, the run's text is the document built from its sections. */
  lemma OutputIsDocument(keys: seq<string>, productName: Option<string>, tree: map<string, Installed>, currentYear: int)
    requires MarkdownsForDependencies(DependencyNames(keys, Skipped), tree).Ok?
    ensures UnformattedOutput(keys, productName, tree, currentYear)
         == Ok(Document(productName.GetOr(DefaultProductName), currentYear,
                        MarkdownsForDependencies(DependencyNames(keys, Skipped), tree).value))
  {
  }

  lemma SectionGroupsAreSingleLines(names: seq<string>, bodies: seq<string>)
    requires |names| == |bodies|
    requires forall i :: 0 <= i < |names| ==> SingleLine(names[i])
    ensures var groups := SectionGroups(names, bodies);
      forall i :: 0 <= i < |groups| ==> SingleLines(groups[i])
  {
    forall i | 0 <= i < |names| ensures SingleLines(SectionGroups(names, bodies)[i]) {
      SectionLinesAreSingle(names[i], bodies[i]);
    }
  }

  lemma DocumentLinesAreSingle(product: string, currentYear: int, groups: seq<seq<string>>)
    requires SingleLine(product)
    requires forall i :: 0 <= i < |groups| ==> SingleLines(groups[i])
    ensures SingleLines(Preamble(product, currentYear) + Layout(groups))
  {
    PreambleLinesAreSingle(product, currentYear);
    LayoutSingleLines(groups);
    SingleLinesConcat(Preamble(product, currentYear), Layout(groups));
  }

  lemma {:induction false} LayoutSingleLines(groups: seq<seq<string>>)
    requires forall i :: 0 <= i < |groups| ==> SingleLines(groups[i])
    ensures SingleLines(Layout(groups))
    decreases |groups|
  {
    if |groups| > 1 {
      assert forall i :: 0 <= i < |groups| - 1 ==> groups[1..][i] == groups[i + 1];
      LayoutSingleLines(groups[1..]);
      SingleLinesConcat(groups[0], [""]);
      SingleLinesConcat(groups[0] + [""], Layout(groups[1..]));
    }
  }
}
