/** The scenarios of tests/test_folder_analyzer.py, stated about the model:
    test_should_process_file and test_folder_analyzer_initialization in
    general form, test_analyze_folder on its own tree. */
module AnalyzerExamples {
  import opened Wrappers
  import opened Paths
  import opened Strings
  import opened Glob
  import opened Walk
  import opened Analyzer

  /** With one literal exclude pattern and one `*suffix` include pattern,
      a path is selected exactly when no segment equals the excluded name
      and the whole path ends with the suffix. */
  lemma SelectedLiteralAndStar(x: string, suffix: string, segs: seq<string>)
    requires Literal(x) && Literal(suffix)
    requires segs != [] && ValidSegments(segs)
    ensures Selected({x}, {"*" + suffix}, Join(segs)) <==>
      (forall i :: 0 <= i < |segs| ==> segs[i] != x) && EndsWith(Join(segs), suffix)
  {
    SelectedBySegments({x}, {"*" + suffix}, segs);
    forall i | 0 <= i < |segs|
      ensures Matches(segs[i], x) <==> segs[i] == x
    {
      LiteralMatchesItself(segs[i], x);
    }
    StarSuffix(Join(segs), suffix);
  }

  /** `*.py` accepts a file in a subdirectory: the star runs across the
      separator, since the whole relative path is matched. */
  lemma StarCrossesSeparator()
    ensures Matches("subfolder/test.py", "*.py")
    ensures !Matches("test.txt", "*.py")
  {
    assert "*.py" == "*" + ".py";
    StarSuffix("subfolder/test.py", ".py");
    StarSuffix("test.txt", ".py");
    assert "test.txt"[5..] != ".py";
  }

  /** test_folder_analyzer_initialization: without override lists the
      preset's lists are used. These are instances of `RuleSet`'s contract,
      which states the general case. */
  lemma InitializationExample()
    ensures RuleSet(None, ["exclude_dir"]) == {"exclude_dir"}
    ensures RuleSet(None, ["*.py"]) == {"*.py"}
    ensures RuleSet(Some([]), ["*.py"]) == {"*.py"}
    ensures RuleSet(Some(["*.md"]), ["*.py"]) == {"*.md"}
  {
  }

  // ----- test_analyze_folder -----

  /** The tree the test builds: a README, a Python file and a text file at
      the top, and a Python file inside `exclude_dir`. The file texts are
      left as parameters. The empty `output` directory the constructor
      creates holds no files, so it adds nothing to the walk and is omitted. */
  function TestTree(readme: string, main: string, txt: string, excluded: string): Dir {
    Dir("tmp",
      [File("README.md", Some(readme)), File("main.py", Some(main)), File("test.txt", Some(txt))],
      [Dir("exclude_dir", [File("excluded.py", Some(excluded))], [])])
  }

  const TestExcludes: set<string> := {"exclude_dir"}
  const TestIncludes: set<string> := {"*.py", "README.md"}

  /** With the test's preset, the analysis lists README.md and main.py and
      nothing else, keeps the README's text as `readme`, and stores only
      main.py's text, under "main.py". */
  lemma AnalyzeFolderExample(readme: string, main: string, txt: string, excluded: string)
    ensures var a := Scan(TestExcludes, TestIncludes, TestTree(readme, main, txt, excluded));
      StructurePaths(a.structure) == ["README.md", "main.py"] &&
      a.readme == Some(readme) &&
      a.fileContents == [("main.py", main)]
  {
    var root := TestTree(readme, main, txt, excluded);
    var v1 := Visit(["README.md"], Some(readme));
    var v2 := Visit(["main.py"], Some(main));
    var v3 := Visit(["test.txt"], Some(txt));
    ExampleWalk(readme, main, txt, excluded);
    ExampleSelection(v1, v2, v3);
    ExampleRecord(v1, v2);
  }

  /** `exclude_dir` is pruned, so the walk reaches only the top three files. */
  lemma ExampleWalk(readme: string, main: string, txt: string, excluded: string)
    ensures Reached(KeepDir(TestExcludes), [], TestTree(readme, main, txt, excluded)) ==
      [Visit(["README.md"], Some(readme)), Visit(["main.py"], Some(main)), Visit(["test.txt"], Some(txt))]
  {
    var root := TestTree(readme, main, txt, excluded);
    var keep := KeepDir(TestExcludes);
    LiteralMatchesItself("exclude_dir", "exclude_dir");
    assert !keep("exclude_dir");
    assert Kept(keep, root.subdirs) == [];
    var fv := FileVisits([], root.files);
    assert fv[0] == Visit(["README.md"], Some(readme));
    assert fv[1] == Visit(["main.py"], Some(main));
    assert fv[2] == Visit(["test.txt"], Some(txt));
    assert fv + [] == fv;
  }

  lemma ExampleSelection(v1: Visit, v2: Visit, v3: Visit)
    requires v1.segs == ["README.md"] && v2.segs == ["main.py"] && v3.segs == ["test.txt"]
    ensures Selection(TestExcludes, TestIncludes, [v1, v2, v3]) == [v1, v2]
  {
    ExampleAccepts(v1, v2, v3);
    FilterTwoOfThree(Accepts(TestExcludes, TestIncludes), v1, v2, v3);
  }

  lemma ExampleAccepts(v1: Visit, v2: Visit, v3: Visit)
    requires v1.segs == ["README.md"] && v2.segs == ["main.py"] && v3.segs == ["test.txt"]
    ensures var sel := Accepts(TestExcludes, TestIncludes); sel(v1) && sel(v2) && !sel(v3)
  {
    AcceptsReadme(v1);
    AcceptsMain(v2);
    RejectsText(v3);
  }

  lemma AcceptsReadme(v: Visit)
    requires v.segs == ["README.md"]
    ensures Accepts(TestExcludes, TestIncludes)(v)
  {
    LiteralMatchesItself("README.md", "README.md");
    AcceptsTopLevel(v, "README.md");
  }

  lemma AcceptsMain(v: Visit)
    requires v.segs == ["main.py"]
    ensures Accepts(TestExcludes, TestIncludes)(v)
  {
    assert "*.py" == "*" + ".py";
    StarSuffix("main.py", ".py");
    assert "main.py"[4..] == ".py";
    AcceptsTopLevel(v, "main.py");
  }

  lemma RejectsText(v: Visit)
    requires v.segs == ["test.txt"]
    ensures !Accepts(TestExcludes, TestIncludes)(v)
  {
    TextNotPython();
    TextNotReadme();
    AcceptsTopLevel(v, "test.txt");
  }

  lemma TextNotPython()
    ensures !Matches("test.txt", "*.py")
  {
    assert "*.py" == "*" + ".py";
    StarSuffix("test.txt", ".py");
    assert "test.txt"[5..][1] != ".py"[1];
  }

  lemma TextNotReadme()
    ensures !Matches("test.txt", "README.md")
  {
    LiteralMatchesItself("test.txt", "README.md");
    assert "test.txt"[0] != "README.md"[0];
  }

  /** A visit of a top-level file is accepted exactly when its name matches
      an include pattern. */
  lemma AcceptsTopLevel(v: Visit, n: string)
    requires v.segs == [n] && ValidName(n) && n != "exclude_dir"
    ensures Accepts(TestExcludes, TestIncludes)(v) <==> Matches(n, "*.py") || Matches(n, "README.md")
  {
    Join1(n);
    assert RelPath(v) == n;
    SelectedName(n);
  }

  lemma FilterTwoOfThree(sel: Visit -> bool, v1: Visit, v2: Visit, v3: Visit)
    requires sel(v1) && sel(v2) && !sel(v3)
    ensures Filter(sel, [v1, v2, v3]) == [v1, v2]
  {
    assert [v3][1..] == [];
    assert Filter(sel, [v3]) == [];
    assert [v2, v3][1..] == [v3];
    assert Filter(sel, [v2, v3]) == [v2];
    assert [v1, v2, v3][1..] == [v2, v3];
  }

  /** A top-level name other than `exclude_dir` is selected exactly when
      one of the two include patterns matches it. */
  lemma SelectedName(n: string)
    requires ValidName(n) && n != "exclude_dir"
    ensures Selected(TestExcludes, TestIncludes, n) <==> Matches(n, "*.py") || Matches(n, "README.md")
  {
    SplitNoSeparator(n);
    Join1(n);
    SelectedBySegments(TestExcludes, TestIncludes, [n]);
    LiteralMatchesItself(n, "exclude_dir");
  }

  lemma Join1(n: string)
    ensures Join([n]) == n
  {
  }

  lemma ExampleRecord(v1: Visit, v2: Visit)
    requires v1.segs == ["README.md"] && v2.segs == ["main.py"]
    requires v1.content.Some? && v2.content.Some?
    ensures StructurePaths(RecordAll(EmptyAnalysis, [v1, v2]).structure) == ["README.md", "main.py"]
    ensures RecordAll(EmptyAnalysis, [v1, v2]).readme == v1.content
    ensures RecordAll(EmptyAnalysis, [v1, v2]).fileContents == [("main.py", v2.content.value)]
  {
    Join1("README.md");
    Join1("main.py");
    ExampleReadmeNames();
    RecordReadmeThenFile(v1, v2);
  }

  /** A README followed by another decodable file: both are listed, the
      README's text is kept as `readme`, the other file's under its path. */
  lemma RecordReadmeThenFile(v1: Visit, v2: Visit)
    requires ReadableReadme(v1) && Storable(v2)
    ensures var r := RecordAll(EmptyAnalysis, [v1, v2]);
      StructurePaths(r.structure) == [RelPath(v1), RelPath(v2)] &&
      r.readme == v1.content &&
      r.fileContents == [(RelPath(v2), v2.content.value)]
  {
    RecordAllPair(EmptyAnalysis, v1, v2);
    var r1 := Record(EmptyAnalysis, v1);
    RecordFields(EmptyAnalysis, v1);
    RecordFields(r1, v2);
    PutNew([], RelPath(v2), v2.content.value);
    var s := Record(r1, v2).structure;
    assert StructurePaths(s)[0] == RelPath(v1) && StructurePaths(s)[1] == RelPath(v2);
  }

  lemma RecordAllPair(a: Analysis, v1: Visit, v2: Visit)
    ensures RecordAll(a, [v1, v2]) == Record(Record(a, v1), v2)
  {
    assert [v1, v2][..1] == [v1] && [v1][..0] == [];
    assert RecordAll(a, [v1]) == Record(a, v1);
  }

  lemma ExampleReadmeNames()
    ensures IsReadme("README.md") && !IsReadme("main.py")
  {
    ReadmeLowered();
    MainLowered();
  }

  lemma ReadmeLowered()
    ensures Lower("README.md") == "readme.md"
  {
    LowerAppend("README", ".md");
    LowerAppend("REA", "DME");
    assert Lower(".md") == ".md";
    assert Lower("DME") == "dme";
    assert Lower("REA") == "rea";
    assert "README" == "REA" + "DME" && "README.md" == "README" + ".md";
  }

  lemma MainLowered()
    ensures Lower("main.py") != "readme.md"
  {
    assert Lower("main.py")[0] == 'm';
  }

  lemma {:induction false} LowerAppend(a: string, b: string)
    ensures Lower(a + b) == Lower(a) + Lower(b)
  {
    if a == [] {
      assert a + b == b;
    } else {
      assert (a + b)[0] == a[0] && (a + b)[1..] == a[1..] + b;
      LowerAppend(a[1..], b);
      assert Lower(a + b) == [LowerChar(a[0])] + (Lower(a[1..]) + Lower(b));
    }
  }
}
