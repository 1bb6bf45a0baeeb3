/** The two artifacts built from an analysis: the fields of the JSON
    summary (`generate_structured_output`) and the text of the contents
    file (`generate_content_file`). */
module Output {
  import opened Wrappers
  import opened Strings
  import opened Walk
  import opened Analyzer

  /** How many README characters the summary keeps. */
  const SummaryLength: nat := 500

  const NoReadme: string := "No README found"

  /** `readme[:500] + "..." if readme else "No README found"`: a missing
      or empty README gives the sentinel; otherwise the summary is the
      README's first 500 characters (all of a shorter one) followed by
      "...", which is added even when nothing was cut. */
  function ReadmeSummary(readme: Option<string>): (r: string)
    ensures readme.None? || readme.value == [] ==> r == NoReadme
    ensures readme.Some? && readme.value != [] ==>
      |r| == (if |readme.value| < SummaryLength then |readme.value| else SummaryLength) + 3 &&
      r[..|r| - 3] == readme.value[..|r| - 3] && r[|r| - 3..] == "..."
  {
    if readme.Some? && readme.value != [] then
      (if |readme.value| < SummaryLength then readme.value else readme.value[..SummaryLength]) + "..."
    else NoReadme
  }

  /** The fields of the JSON document that depend on the analysis
      (`analysis_prompts` is constant text). */
  datatype StructuredOutput = StructuredOutput(folderPath: string, readmeSummary: string, fileStructure: seq<string>)

  function GenerateStructuredOutput(path: string, a: Analysis): StructuredOutput {
    StructuredOutput(path, ReadmeSummary(a.readme), StructurePaths(a.structure))
  }

  /** For the analysis of a tree: `file_structure` lists the selected
      files' relative paths in walk order, and without any readable README
      among them the summary is the sentinel. */
  lemma StructuredOutputOfScan(path: string, excludes: set<string>, includes: set<string>, root: Dir)
    ensures var out := GenerateStructuredOutput(path, Scan(excludes, includes, root));
      var selected := Selection(excludes, includes, Reached(KeepDir(excludes), [], root));
      out.folderPath == path &&
      out.fileStructure == RelPaths(selected) &&
      ((forall j :: 0 <= j < |selected| ==> !ReadableReadme(selected[j])) ==> out.readmeSummary == NoReadme)
  {
    var selected := Selection(excludes, includes, Reached(KeepDir(excludes), [], root));
    ScanStructure(excludes, includes, root);
    if forall j :: 0 <= j < |selected| ==> !ReadableReadme(selected[j]) {
      RecordAllNoReadme(EmptyAnalysis, selected);
    }
  }

  // ----- The contents file -----

  /** The text around the README and around each file: a rule of fifty
      '=' (README) or fifty '-' (file) after the title line and again after
      the text, which is followed by a blank line. */
  const ReadmeOpen: string := "README:\n" + ReadmeRule + "\n"
  const ReadmeClose: string := "\n\n" + ReadmeRule + "\n\n"
  const FileOpen: string := "File: "
  const FileRule: string := "\n" + DashRule + "\n"
  const FileClose: string := "\n\n" + DashRule + "\n\n"
  const ReadmeRule: string := Repeat('=', 50)
  const DashRule: string := Repeat('-', 50)
  const HeadingOpen: string := "Contents of folder: "
  const HeadingClose: string := "\n\n"

  function Heading(path: string): string {
    HeadingOpen + path + HeadingClose
  }

  /** The README section, written only when the README is non-empty. */
  function ReadmeBlock(readme: Option<string>): string {
    if readme.Some? && readme.value != [] then ReadmeOpen + readme.value + ReadmeClose else ""
  }

  function FileBlock(path: string, content: string): string {
    FileOpen + path + FileRule + content + FileClose
  }

  /** The blocks of the dictionary's entries, in its insertion order. */
  function FileBlocks(d: Dict): string
    decreases |d|
  {
    if d == [] then "" else FileBlocks(d[..|d| - 1]) + FileBlock(d[|d| - 1].0, d[|d| - 1].1)
  }

  function ContentText(path: string, a: Analysis): string {
    Heading(path) + ReadmeBlock(a.readme) + FileBlocks(a.fileContents)
  }

  /** The sequence of writes `generate_content_file` makes; the text is
      what ends up in the file. */
  method GenerateContentFile(path: string, a: Analysis) returns (text: string)
    ensures text == ContentText(path, a)
  {
    text := HeadingOpen + path + HeadingClose;
    if a.readme.Some? && a.readme.value != [] {
      text := text + (ReadmeOpen + a.readme.value + ReadmeClose);
    }
    text := WriteFileBlocks(text, a.fileContents);
  }

  /** The loop over `file_contents`: one block per entry, appended in the
      dictionary's order. */
  method WriteFileBlocks(start: string, d: Dict) returns (text: string)
    ensures text == start + FileBlocks(d)
  {
    text := start;
    var i := 0;
    assert d[..0] == [];
    while i < |d|
      invariant 0 <= i <= |d|
      invariant text == start + FileBlocks(d[..i])
    {
      var (p, content) := d[i];
      var block := FileBlock(p, content);
      FileBlocksStep(d, i);
      text := text + block;
      i := i + 1;
    }
    assert d[..i] == d;
  }

  lemma FileBlocksStep(d: Dict, i: nat)
    requires i < |d|
    ensures FileBlocks(d[..i + 1]) == FileBlocks(d[..i]) + FileBlock(d[i].0, d[i].1)
  {
    assert d[..i + 1][..i] == d[..i];
  }

  lemma {:induction false} FileBlocksAppend(d: Dict, e: Dict)
    ensures FileBlocks(d + e) == FileBlocks(d) + FileBlocks(e)
    decreases |e|
  {
    if e == [] {
      assert d + e == d;
    } else {
      var init := e[..|e| - 1];
      var last := e[|e| - 1];
      assert (d + e)[..|d + e| - 1] == d + init;
      assert (d + e)[|d + e| - 1] == last;
      FileBlocksAppend(d, init);
      assert FileBlocks(e) == FileBlocks(init) + FileBlock(last.0, last.1);
      assert FileBlocks(d + e) == FileBlocks(d + init) + FileBlock(last.0, last.1);
    }
  }

  /** Each entry's block stands whole in the text, after the blocks of
      the entries inserted before it and before those inserted after it. */
  lemma FileBlockAt(d: Dict, i: nat)
    requires i < |d|
    ensures FileBlocks(d) == FileBlocks(d[..i]) + FileBlock(d[i].0, d[i].1) + FileBlocks(d[i + 1..])
  {
    assert d == d[..i] + [d[i]] + d[i + 1..];
    FileBlocksAppend(d[..i] + [d[i]], d[i + 1..]);
    FileBlocksAppend(d[..i], [d[i]]);
    assert FileBlocks([d[i]]) == FileBlocks([d[i]][..0]) + FileBlock(d[i].0, d[i].1);
  }

  /** The blocks of the storable files among `vs`, in their order. */
  function StoredBlocks(vs: seq<Visit>): string {
    if vs == [] then ""
    else if Storable(vs[0]) then FileBlock(RelPath(vs[0]), vs[0].content.value) + StoredBlocks(vs[1..])
    else StoredBlocks(vs[1..])
  }

  lemma {:induction false} FileBlocksOfStored(vs: seq<Visit>)
    ensures FileBlocks(StoredEntries(vs)) == StoredBlocks(vs)
  {
    if vs != [] {
      FileBlocksOfStored(vs[1..]);
      var rest := StoredEntries(vs[1..]);
      if Storable(vs[0]) {
        var e := (RelPath(vs[0]), vs[0].content.value);
        assert StoredEntries(vs) == [e] + rest;
        FileBlocksAppend([e], rest);
        FileBlocksSingle(e);
        assert StoredBlocks(vs) == FileBlock(e.0, e.1) + StoredBlocks(vs[1..]);
      } else {
        assert StoredEntries(vs) == [] + rest == rest;
      }
    }
  }

  lemma FileBlocksSingle(e: (string, string))
    ensures FileBlocks([e]) == FileBlock(e.0, e.1)
  {
    assert [e][..0] == [];
  }

  /** For the analysis of a well-formed tree, the contents file holds the
      heading, the README section, then one block for each selected file
      that decodes and is not a README, in walk order. */
  lemma ContentTextOfScan(path: string, excludes: set<string>, includes: set<string>, root: Dir)
    requires WellNamed(root)
    ensures ContentText(path, Scan(excludes, includes, root)) ==
      Heading(path) + ReadmeBlock(Scan(excludes, includes, root).readme) +
      StoredBlocks(Selection(excludes, includes, Reached(KeepDir(excludes), [], root)))
  {
    ScanContents(excludes, includes, root);
    FileBlocksOfStored(Selection(excludes, includes, Reached(KeepDir(excludes), [], root)));
  }
}
