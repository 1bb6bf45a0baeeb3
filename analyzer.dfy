/** `FolderAnalyzer` (src/analyze_folder_for_llm/main.py): the rule sets,
    the per-file decision `should_process_file`, and the walk
    `analyze_folder` that accumulates the structure list, the file-contents
    dictionary and the README text. */
module Analyzer {
  import opened Wrappers
  import opened Paths
  import opened Strings
  import opened Glob
  import opened Walk

  /** The two lists a preset file provides (`PresetConfig`). */
  datatype PresetConfig = PresetConfig(excludes: seq<string>, includes: seq<string>)

  /** `set(arg or preset_list)`: a non-empty argument list replaces the
      preset's list, it is never merged with it; a missing or empty one
      falls back to the preset. */
  function RuleSet(arg: Option<seq<string>>, preset: seq<string>): (r: set<string>)
    ensures arg.Some? && arg.value != [] ==> forall p :: p in r <==> p in arg.value
    ensures arg.None? || arg.value == [] ==> forall p :: p in r <==> p in preset
  {
    if arg.Some? && arg.value != [] then set p | p in arg.value else set p | p in preset
  }

  // ----- The selection rules -----

  /** Some segment of the path matches the pattern. */
  predicate SegmentMatches(parts: seq<string>, pattern: string) {
    exists i :: 0 <= i < |parts| && Matches(parts[i], pattern)
  }

  /** Some exclude pattern matches some segment of the path. */
  predicate Excluded(excludes: set<string>, parts: seq<string>) {
    exists pattern :: pattern in excludes && SegmentMatches(parts, pattern)
  }

  /** Some include pattern matches the whole relative path. */
  predicate IncludedBy(includes: set<string>, relPath: string) {
    exists pattern :: pattern in includes && Matches(relPath, pattern)
  }

  /** The answer `should_process_file` gives for a relative path. */
  predicate Selected(excludes: set<string>, includes: set<string>, relPath: string) {
    !Excluded(excludes, Split(relPath)) && (includes == {} || IncludedBy(includes, relPath))
  }

  /** A directory name that the walk prunes from `dirs`. */
  predicate Pruned(excludes: set<string>, name: string) {
    exists pattern :: pattern in excludes && Matches(name, pattern)
  }

  /** `any(fnmatch.fnmatch(part, pattern) for part in path_parts)`. */
  method AnySegmentMatches(parts: seq<string>, pattern: string) returns (hit: bool)
    ensures hit == SegmentMatches(parts, pattern)
  {
    var i := 0;
    while i < |parts|
      invariant 0 <= i <= |parts|
      invariant forall j :: 0 <= j < i ==> !Matches(parts[j], pattern)
    {
      if Matches(parts[i], pattern) {
        return true;
      }
      i := i + 1;
    }
    return false;
  }

  /** The exclusion loop: the set is visited in whatever order it yields
      its patterns, and the first pattern that hits a segment vetoes. */
  method ExclusionVeto(excludes: set<string>, parts: seq<string>) returns (veto: bool)
    ensures veto == Excluded(excludes, parts)
  {
    var todo := excludes;
    while todo != {}
      invariant todo <= excludes
      invariant forall pattern :: pattern in excludes - todo ==> !SegmentMatches(parts, pattern)
      decreases todo
    {
      var pattern :| pattern in todo;
      var hit := AnySegmentMatches(parts, pattern);
      if hit {
        return true;
      }
      todo := todo - {pattern};
    }
    return false;
  }

  /** The inclusion loop: true as soon as some pattern matches the whole path. */
  method InclusionMatch(includes: set<string>, relPath: string) returns (hit: bool)
    ensures hit == IncludedBy(includes, relPath)
  {
    var todo := includes;
    while todo != {}
      invariant todo <= includes
      invariant forall pattern :: pattern in includes - todo ==> !Matches(relPath, pattern)
      decreases todo
    {
      var pattern :| pattern in todo;
      if Matches(relPath, pattern) {
        return true;
      }
      todo := todo - {pattern};
    }
    return false;
  }

  /** For a path built from valid names, the decision reads segment by
      segment: no segment (directory or file name) may match an excludes
      pattern, and then the whole path must match an include pattern
      unless there are none. */
  lemma SelectedBySegments(excludes: set<string>, includes: set<string>, segs: seq<string>)
    requires segs != [] && ValidSegments(segs)
    ensures Selected(excludes, includes, Join(segs)) <==>
      (forall pattern, i :: pattern in excludes && 0 <= i < |segs| ==> !Matches(segs[i], pattern)) &&
      (includes == {} || exists pattern :: pattern in includes && Matches(Join(segs), pattern))
  {
    SplitJoin(segs);
  }

  // ----- The accumulated analysis -----

  /** The `type` of every `structure` item. */
  const FileKind: string := "file"

  /** One `{"path": ..., "type": "file"}` item of `structure`. */
  datatype StructureEntry = StructureEntry(path: string, kind: string)

  /** A Python dict with string keys and values, in insertion order. */
  type Dict = seq<(string, string)>

  /** The `analysis` dictionary `analyze_folder` builds. */
  datatype Analysis = Analysis(structure: seq<StructureEntry>, fileContents: Dict, readme: Option<string>)

  const EmptyAnalysis: Analysis := Analysis([], [], None)

  function Keys(d: Dict): seq<string> {
    if d == [] then [] else [d[0].0] + Keys(d[1..])
  }

  /** `d.get(k)`. */
  function Lookup(d: Dict, k: string): Option<string> {
    if d == [] then None else if d[0].0 == k then Some(d[0].1) else Lookup(d[1..], k)
  }

  /** A key has a value exactly when it is among the keys. */
  lemma {:induction false} LookupKeys(d: Dict, k: string)
    ensures Lookup(d, k).Some? <==> k in Keys(d)
  {
    if d != [] {
      LookupKeys(d[1..], k);
      assert Keys(d) == [d[0].0] + Keys(d[1..]);
    }
  }

  /** `d[k] = v`: an existing key keeps its place, a new key goes last. */
  function Put(d: Dict, k: string, v: string): Dict {
    if d == [] then [(k, v)]
    else if d[0].0 == k then [(k, v)] + d[1..]
    else [d[0]] + Put(d[1..], k, v)
  }

  /** After `d[k] = v`, `k` maps to `v`, every other key keeps its value,
      and the key order is the old one with `k` added last if it is new. */
  lemma {:induction false} PutSpec(d: Dict, k: string, v: string, other: string)
    ensures Lookup(Put(d, k, v), k) == Some(v)
    ensures other != k ==> Lookup(Put(d, k, v), other) == Lookup(d, other)
    ensures Keys(Put(d, k, v)) == if k in Keys(d) then Keys(d) else Keys(d) + [k]
  {
    if d != [] && d[0].0 != k {
      PutSpec(d[1..], k, v, other);
      assert Keys(d) == [d[0].0] + Keys(d[1..]);
    }
  }

  /** The fields of `Record(a, v)`, one at a time. */
  lemma RecordFields(a: Analysis, v: Visit)
    ensures Record(a, v).structure == a.structure + [StructureEntry(RelPath(v), FileKind)]
    ensures Record(a, v).readme == if ReadableReadme(v) then v.content else a.readme
    ensures Record(a, v).fileContents ==
      if v.content.Some? && !IsReadme(FileName(v)) then Put(a.fileContents, RelPath(v), v.content.value)
      else a.fileContents
  {
  }

  /** `file.lower() == "readme.md"`. */
  predicate IsReadme(name: string) {
    Lower(name) == "readme.md"
  }

  /** What `analyze_folder` does with one selected file: list it, then,
      if it decodes, keep its text as the README or under its path. */
  function Record(a: Analysis, v: Visit): Analysis {
    var listed := a.(structure := a.structure + [StructureEntry(RelPath(v), FileKind)]);
    match v.content
    case None => listed
    case Some(text) =>
      if IsReadme(FileName(v)) then listed.(readme := Some(text))
      else listed.(fileContents := Put(listed.fileContents, RelPath(v), text))
  }

  /** Recording the selected files in order, the last one last. */
  function RecordAll(a: Analysis, vs: seq<Visit>): Analysis
    decreases |vs|
  {
    if vs == [] then a else Record(RecordAll(a, vs[..|vs| - 1]), vs[|vs| - 1])
  }

  function RelPaths(vs: seq<Visit>): (r: seq<string>)
    ensures |r| == |vs|
    ensures forall i :: 0 <= i < |vs| ==> r[i] == RelPath(vs[i])
  {
    if vs == [] then [] else [RelPath(vs[0])] + RelPaths(vs[1..])
  }

  function StructurePaths(s: seq<StructureEntry>): (r: seq<string>)
    ensures |r| == |s|
    ensures forall i :: 0 <= i < |s| ==> r[i] == s[i].path
  {
    if s == [] then [] else [s[0].path] + StructurePaths(s[1..])
  }

  /** The walk keeps a subdirectory unless its name matches an exclude pattern. */
  function KeepDir(excludes: set<string>): string -> bool {
    n => !Pruned(excludes, n)
  }

  /** The files `should_process_file` accepts, in the order it sees them. */
  function Selection(excludes: set<string>, includes: set<string>, vs: seq<Visit>): seq<Visit> {
    Filter(Accepts(excludes, includes), vs)
  }

  function Accepts(excludes: set<string>, includes: set<string>): Visit -> bool {
    v => Selected(excludes, includes, RelPath(v))
  }

  /** What `analyze_folder` returns for the tree `root`. */
  function Scan(excludes: set<string>, includes: set<string>, root: Dir): Analysis {
    RecordAll(EmptyAnalysis, Selection(excludes, includes, Reached(KeepDir(excludes), [], root)))
  }

  lemma SelectionStep(excludes: set<string>, includes: set<string>, done: seq<Visit>, v: Visit)
    ensures Selected(excludes, includes, RelPath(v)) ==>
      Selection(excludes, includes, done + [v]) == Selection(excludes, includes, done) + [v]
    ensures !Selected(excludes, includes, RelPath(v)) ==>
      Selection(excludes, includes, done + [v]) == Selection(excludes, includes, done)
  {
    FilterAppend(Accepts(excludes, includes), done, [v]);
  }

  lemma {:induction false} RecordAllAppend(a: Analysis, xs: seq<Visit>, ys: seq<Visit>)
    ensures RecordAll(a, xs + ys) == RecordAll(RecordAll(a, xs), ys)
    decreases |ys|
  {
    if ys == [] {
      assert xs + ys == xs;
    } else {
      var init := ys[..|ys| - 1];
      assert (xs + ys)[..|xs + ys| - 1] == xs + init;
      RecordAllAppend(a, xs, init);
    }
  }

  lemma SelectionConcat(excludes: set<string>, includes: set<string>, xs: seq<Visit>, ys: seq<Visit>)
    ensures Selection(excludes, includes, xs + ys) == Selection(excludes, includes, xs) + Selection(excludes, includes, ys)
  {
    FilterAppend(Accepts(excludes, includes), xs, ys);
  }

  lemma RelPathsConcat(initial: seq<string>, xs: seq<Visit>, ys: seq<Visit>)
    ensures initial + RelPaths(xs + ys) == initial + RelPaths(xs) + RelPaths(ys)
  {
    RelPathsAppend(xs, ys);
    assert initial + (RelPaths(xs) + RelPaths(ys)) == initial + RelPaths(xs) + RelPaths(ys);
  }

  lemma {:induction false} RelPathsAppend(xs: seq<Visit>, ys: seq<Visit>)
    ensures RelPaths(xs + ys) == RelPaths(xs) + RelPaths(ys)
  {
    if xs == [] {
      assert xs + ys == ys;
    } else {
      assert (xs + ys)[1..] == xs[1..] + ys;
      RelPathsAppend(xs[1..], ys);
    }
  }

  lemma RelPathsStep(vs: seq<Visit>, v: Visit)
    ensures RelPaths(vs + [v]) == RelPaths(vs) + [RelPath(v)]
  {
  }

  lemma SliceStep(vs: seq<Visit>, j: nat)
    requires j < |vs|
    ensures vs[..j + 1] == vs[..j] + [vs[j]]
  {
  }

  lemma RecordLast(a: Analysis, vs: seq<Visit>, v: Visit)
    ensures RecordAll(a, vs + [v]) == Record(RecordAll(a, vs), v)
  {
    assert (vs + [v])[..|vs|] == vs;
  }

  /** The body of `analyze_folder` for a file the rules accepted: it is
      listed in `structure` before it is opened, then its text, if it
      decodes, becomes the README or the value under its relative path. */
  method ListAndRead(a: Analysis, prefix: seq<string>, file: File) returns (analysis: Analysis)
    ensures analysis == Record(a, Visit(prefix + [file.name], file.content))
  {
    var relPath := Join(prefix + [file.name]);
    analysis := a.(structure := a.structure + [StructureEntry(relPath, FileKind)]);
    match file.content {
      case None =>
      case Some(text) =>
        if IsReadme(file.name) {
          analysis := analysis.(readme := Some(text));
        } else {
          analysis := analysis.(fileContents := Put(analysis.fileContents, relPath, text));
        }
    }
  }

  // ----- What the accumulated analysis holds -----

  /** A selected file that decodes and is a README. */
  predicate ReadableReadme(v: Visit) {
    v.content.Some? && IsReadme(FileName(v))
  }

  /** A selected file whose text goes into `file_contents`: it decodes
      and is not a README. */
  predicate Storable(v: Visit) {
    v.content.Some? && !IsReadme(FileName(v))
  }

  /** A selected file that decodes, is not a README, and sits at `k`. */
  predicate StoredAt(v: Visit, k: string) {
    v.content.Some? && !IsReadme(FileName(v)) && RelPath(v) == k
  }

  /** `structure` gains exactly one entry per selected file, in order,
      whether or not the file could be read. */
  lemma {:induction false} RecordAllStructure(a: Analysis, vs: seq<Visit>)
    ensures StructurePaths(RecordAll(a, vs).structure) == StructurePaths(a.structure) + RelPaths(vs)
    ensures forall i :: |a.structure| <= i < |RecordAll(a, vs).structure| ==>
      RecordAll(a, vs).structure[i].kind == FileKind
    decreases |vs|
  {
    if vs != [] {
      var init := vs[..|vs| - 1];
      var v := vs[|vs| - 1];
      var r0 := RecordAll(a, init);
      RecordFields(r0, v);
      RecordAllStructure(a, init);
      RelPathsStep(init, v);
      assert init + [v] == vs;
      var e := StructureEntry(RelPath(v), FileKind);
      assert RecordAll(a, vs).structure == r0.structure + [e];
      StructurePathsStep(r0.structure, e);
    }
  }

  lemma StructurePathsStep(s: seq<StructureEntry>, e: StructureEntry)
    ensures StructurePaths(s + [e]) == StructurePaths(s) + [e.path]
  {
  }

  /** With no readable README among the selected files, `readme` is
      what it was before. */
  lemma {:induction false} RecordAllNoReadme(a: Analysis, vs: seq<Visit>)
    requires forall j :: 0 <= j < |vs| ==> !ReadableReadme(vs[j])
    ensures RecordAll(a, vs).readme == a.readme
    decreases |vs|
  {
    if vs != [] {
      var init := vs[..|vs| - 1];
      RecordFields(RecordAll(a, init), vs[|vs| - 1]);
      RecordAllNoReadme(a, init);
    }
  }

  /** `readme` is the text of the last readable README among the selected
      files: a later README overwrites an earlier one. */
  lemma {:induction false} RecordAllLastReadme(a: Analysis, vs: seq<Visit>, i: nat)
    requires i < |vs| && ReadableReadme(vs[i])
    requires forall j :: i < j < |vs| ==> !ReadableReadme(vs[j])
    ensures RecordAll(a, vs).readme == vs[i].content
    decreases |vs|
  {
    var init := vs[..|vs| - 1];
    RecordFields(RecordAll(a, init), vs[|vs| - 1]);
    if i < |vs| - 1 {
      RecordAllLastReadme(a, init, i);
    }
  }

  /** Recording a file not stored at `k` leaves the value under `k` alone. */
  lemma RecordKeepsOthers(a: Analysis, v: Visit, k: string)
    requires !StoredAt(v, k)
    ensures Lookup(Record(a, v).fileContents, k) == Lookup(a.fileContents, k)
  {
    RecordFields(a, v);
    if v.content.Some? && !IsReadme(FileName(v)) {
      PutSpec(a.fileContents, RelPath(v), v.content.value, k);
    }
  }

  /** With no readable non-README file selected at `k`, the value under
      `k` is what it was before. */
  lemma {:induction false} RecordAllUnstored(a: Analysis, vs: seq<Visit>, k: string)
    requires forall j :: 0 <= j < |vs| ==> !StoredAt(vs[j], k)
    ensures Lookup(RecordAll(a, vs).fileContents, k) == Lookup(a.fileContents, k)
    decreases |vs|
  {
    if vs != [] {
      var init := vs[..|vs| - 1];
      RecordKeepsOthers(RecordAll(a, init), vs[|vs| - 1], k);
      RecordAllUnstored(a, init, k);
    }
  }

  /** The value under `k` is the text of the last readable non-README
      file selected at `k`: a later file at the same path overwrites. */
  lemma {:induction false} RecordAllLastStored(a: Analysis, vs: seq<Visit>, k: string, i: nat)
    requires i < |vs| && StoredAt(vs[i], k)
    requires forall j :: i < j < |vs| ==> !StoredAt(vs[j], k)
    ensures Lookup(RecordAll(a, vs).fileContents, k) == vs[i].content
    decreases |vs|
  {
    var init := vs[..|vs| - 1];
    var v := vs[|vs| - 1];
    if i == |vs| - 1 {
      RecordFields(RecordAll(a, init), v);
      PutSpec(RecordAll(a, init).fileContents, k, v.content.value, k);
    } else {
      RecordKeepsOthers(RecordAll(a, init), v, k);
      RecordAllLastStored(a, init, k, i);
    }
  }

  /** Every key of `file_contents` is a path listed in `structure`. */
  predicate KeysListed(a: Analysis) {
    forall k :: k in Keys(a.fileContents) ==> k in StructurePaths(a.structure)
  }

  lemma {:induction false} RecordAllKeysListed(a: Analysis, vs: seq<Visit>)
    requires KeysListed(a)
    ensures KeysListed(RecordAll(a, vs))
    decreases |vs|
  {
    if vs != [] {
      var init := vs[..|vs| - 1];
      var v := vs[|vs| - 1];
      RecordAllKeysListed(a, init);
      var r0 := RecordAll(a, init);
      RecordFields(r0, v);
      if v.content.Some? && !IsReadme(FileName(v)) {
        PutSpec(r0.fileContents, RelPath(v), v.content.value, RelPath(v));
      }
      var s1 := r0.structure + [StructureEntry(RelPath(v), FileKind)];
      assert StructurePaths(s1) == StructurePaths(r0.structure) + [RelPath(v)];
    }
  }

  // ----- What `analyze_folder` returns -----

  /** Files beneath a pruned directory are never even offered to
      `should_process_file`: no directory a reached file lies in matches an
      exclude pattern, at any depth. */
  lemma NeverDescendsPruned(excludes: set<string>, root: Dir)
    ensures forall v, i :: v in Reached(KeepDir(excludes), [], root) && 0 <= i < |v.segs| - 1 ==>
      !Pruned(excludes, v.segs[i])
  {
    ReachedShape(KeepDir(excludes), [], root);
    forall v, i | v in Reached(KeepDir(excludes), [], root) && 0 <= i < |v.segs| - 1
      ensures !Pruned(excludes, v.segs[i])
    {
      assert ReachedBelow(KeepDir(excludes), [], v);
      assert KeepDir(excludes)(v.segs[i]);
    }
  }

  /** Pruning directories before descent selects exactly the files that
      testing every file of the whole tree would select. */
  lemma PruningMatchesLeafFilter(excludes: set<string>, includes: set<string>, root: Dir)
    requires WellNamed(root)
    ensures Selection(excludes, includes, Reached(KeepDir(excludes), [], root)) ==
      Selection(excludes, includes, Reached(KeepAll, [], root))
  {
    var keep, sel := KeepDir(excludes), Accepts(excludes, includes);
    forall v: Visit, i | ValidSegments(v.segs) && sel(v) && 0 <= i < |v.segs| - 1
      ensures keep(v.segs[i])
    {
      SplitJoin(v.segs);
      assert !Excluded(excludes, v.segs);
      forall pattern | pattern in excludes
        ensures !Matches(v.segs[i], pattern)
      {
        assert !SegmentMatches(v.segs, pattern);
      }
    }
    assert AgreesWithPruning(keep, sel, []);
    PruningInvisible(keep, sel, [], root);
  }

  /** `structure` lists, in walk order, exactly the selected files, and
      every entry has type "file". */
  lemma ScanStructure(excludes: set<string>, includes: set<string>, root: Dir)
    ensures StructurePaths(Scan(excludes, includes, root).structure) ==
      RelPaths(Selection(excludes, includes, Reached(KeepDir(excludes), [], root)))
    ensures forall e :: e in Scan(excludes, includes, root).structure ==> e.kind == FileKind
  {
    RecordAllStructure(EmptyAnalysis, Selection(excludes, includes, Reached(KeepDir(excludes), [], root)));
  }

  /** No `structure` entry has a segment, directory or file name, that an
      exclude pattern matches. */
  lemma StructureAvoidsExcluded(excludes: set<string>, includes: set<string>, root: Dir)
    ensures forall e, j, pattern ::
      (e in Scan(excludes, includes, root).structure && 0 <= j < |Split(e.path)| && pattern in excludes) ==>
      !Matches(Split(e.path)[j], pattern)
  {
    var sel := Selection(excludes, includes, Reached(KeepDir(excludes), [], root));
    ScanStructure(excludes, includes, root);
    FilterSubset(Accepts(excludes, includes), Reached(KeepDir(excludes), [], root));
    var paths := StructurePaths(Scan(excludes, includes, root).structure);
    forall e, j, pattern | e in Scan(excludes, includes, root).structure &&
      0 <= j < |Split(e.path)| && pattern in excludes
      ensures !Matches(Split(e.path)[j], pattern)
    {
      var n :| 0 <= n < |Scan(excludes, includes, root).structure| && Scan(excludes, includes, root).structure[n] == e;
      assert paths[n] == e.path == RelPath(sel[n]);
      assert sel[n] in sel;
      assert Selected(excludes, includes, e.path);
      assert !SegmentMatches(Split(e.path), pattern);
    }
  }

  /** Every key of `file_contents` is a path listed in `structure`. */
  lemma ScanKeysListed(excludes: set<string>, includes: set<string>, root: Dir)
    ensures KeysListed(Scan(excludes, includes, root))
  {
    RecordAllKeysListed(EmptyAnalysis, Selection(excludes, includes, Reached(KeepDir(excludes), [], root)));
  }

  /** Among files with valid, distinct-by-segments paths, nothing but a
      README can sit at a README's path. */
  lemma OnlyReadmeAtReadmePath(vs: seq<Visit>, v: Visit)
    requires forall w :: w in vs ==> w.segs != [] && ValidSegments(w.segs)
    requires v.segs != [] && ValidSegments(v.segs) && IsReadme(FileName(v))
    ensures forall j :: 0 <= j < |vs| ==> !StoredAt(vs[j], RelPath(v))
  {
    forall j | 0 <= j < |vs|
      ensures !StoredAt(vs[j], RelPath(v))
    {
      assert vs[j] in vs;
      if RelPath(vs[j]) == RelPath(v) {
        JoinInjective(vs[j].segs, v.segs);
      }
    }
  }

  /** A README is never stored under its path in `file_contents`. */
  lemma ReadmeNeverStored(excludes: set<string>, includes: set<string>, root: Dir, v: Visit)
    requires WellNamed(root)
    requires v in Reached(KeepDir(excludes), [], root) && IsReadme(FileName(v))
    ensures RelPath(v) !in Keys(Scan(excludes, includes, root).fileContents)
  {
    var reached := Reached(KeepDir(excludes), [], root);
    var sel := Selection(excludes, includes, reached);
    ReachedShape(KeepDir(excludes), [], root);
    FilterSubset(Accepts(excludes, includes), reached);
    assert ReachedBelow(KeepDir(excludes), [], v);
    forall w | w in sel
      ensures w.segs != [] && ValidSegments(w.segs)
    {
      assert ReachedBelow(KeepDir(excludes), [], w);
    }
    OnlyReadmeAtReadmePath(sel, v);
    RecordAllUnstored(EmptyAnalysis, sel, RelPath(v));
    LookupKeys(Scan(excludes, includes, root).fileContents, RelPath(v));
  }

  // ----- `file_contents` of a tree -----

  /** One entry per storable file, keyed by its relative path, in order. */
  function StoredEntries(vs: seq<Visit>): Dict {
    if vs == [] then []
    else (if Storable(vs[0]) then [(RelPath(vs[0]), vs[0].content.value)] else []) + StoredEntries(vs[1..])
  }

  lemma {:induction false} StoredEntriesAppend(xs: seq<Visit>, ys: seq<Visit>)
    ensures StoredEntries(xs + ys) == StoredEntries(xs) + StoredEntries(ys)
  {
    if xs == [] {
      assert xs + ys == ys;
    } else {
      assert (xs + ys)[1..] == xs[1..] + ys;
      StoredEntriesAppend(xs[1..], ys);
    }
  }

  lemma {:induction false} KeysAppend(d: Dict, e: Dict)
    ensures Keys(d + e) == Keys(d) + Keys(e)
  {
    if d == [] {
      assert d + e == e;
    } else {
      assert (d + e)[1..] == d[1..] + e;
      KeysAppend(d[1..], e);
    }
  }

  /** The keys of the entries are the paths of the storable files. */
  lemma {:induction false} StoredKeys(vs: seq<Visit>)
    ensures Keys(StoredEntries(vs)) == RelPaths(Filter(Storable, vs))
  {
    if vs != [] {
      StoredKeys(vs[1..]);
      var head := if Storable(vs[0]) then [(RelPath(vs[0]), vs[0].content.value)] else [];
      KeysAppend(head, StoredEntries(vs[1..]));
      if Storable(vs[0]) {
        assert RelPaths([vs[0]] + Filter(Storable, vs[1..])) == [RelPath(vs[0])] + RelPaths(Filter(Storable, vs[1..]));
      }
    }
  }

  /** `d[k] = v` for a new key appends the pair. */
  lemma {:induction false} PutNew(d: Dict, k: string, v: string)
    requires k !in Keys(d)
    ensures Put(d, k, v) == d + [(k, v)]
  {
    if d != [] {
      assert Keys(d) == [d[0].0] + Keys(d[1..]);
      PutNew(d[1..], k, v);
      assert d == [d[0]] + d[1..];
    }
  }

  /** Recording files with distinct new paths appends exactly the entries
      of the storable ones, in order. */
  lemma {:induction false} RecordAllEntries(a: Analysis, vs: seq<Visit>)
    requires UniquePaths(vs)
    requires forall v :: v in vs ==> RelPath(v) !in Keys(a.fileContents)
    ensures RecordAll(a, vs).fileContents == a.fileContents + StoredEntries(vs)
    decreases |vs|
  {
    if vs == [] {
      assert a.fileContents + [] == a.fileContents;
    } else {
      var init := vs[..|vs| - 1];
      var v := vs[|vs| - 1];
      assert init + [v] == vs;
      assert forall i :: 0 <= i < |init| ==> init[i] == vs[i];
      RecordAllEntries(a, init);
      FreshLastPath(a, vs);
      RecordStoresEntry(RecordAll(a, init), v);
      StoredEntriesAppend(init, [v]);
      assert a.fileContents + StoredEntries(init) + StoredEntries([v]) ==
        a.fileContents + (StoredEntries(init) + StoredEntries([v]));
    }
  }

  /** Recording a file at a new path appends its entry, if it has one. */
  lemma RecordStoresEntry(r: Analysis, v: Visit)
    requires RelPath(v) !in Keys(r.fileContents)
    ensures Record(r, v).fileContents == r.fileContents + StoredEntries([v])
  {
    RecordFields(r, v);
    assert [v][1..] == [];
    if Storable(v) {
      PutNew(r.fileContents, RelPath(v), v.content.value);
    } else {
      assert r.fileContents + [] == r.fileContents;
    }
  }

  /** The last of files with distinct new paths has a path not yet among
      the keys after the others are stored. */
  lemma FreshLastPath(a: Analysis, vs: seq<Visit>)
    requires vs != [] && UniquePaths(vs)
    requires forall v :: v in vs ==> RelPath(v) !in Keys(a.fileContents)
    ensures RelPath(vs[|vs| - 1]) !in Keys(a.fileContents + StoredEntries(vs[..|vs| - 1]))
  {
    var init := vs[..|vs| - 1];
    var k := RelPath(vs[|vs| - 1]);
    var f := Filter(Storable, init);
    StoredKeys(init);
    FilterSubset(Storable, init);
    forall m | 0 <= m < |f|
      ensures RelPaths(f)[m] != k
    {
      assert f[m] in f;
      var t :| 0 <= t < |init| && init[t] == f[m];
      assert RelPath(vs[t]) != RelPath(vs[|vs| - 1]);
    }
    KeysAppend(a.fileContents, StoredEntries(init));
    assert vs[|vs| - 1] in vs;
  }

  /** In a well-formed tree `file_contents` holds one entry per selected
      file that decodes and is not a README, keyed by its relative path, in
      walk order; its keys are exactly those paths. */
  lemma ScanContents(excludes: set<string>, includes: set<string>, root: Dir)
    requires WellNamed(root)
    ensures var sel := Selection(excludes, includes, Reached(KeepDir(excludes), [], root));
      Scan(excludes, includes, root).fileContents == StoredEntries(sel) &&
      Keys(Scan(excludes, includes, root).fileContents) == RelPaths(Filter(Storable, sel))
  {
    var reached := Reached(KeepDir(excludes), [], root);
    var sel := Selection(excludes, includes, reached);
    ReachedUniquePaths(KeepDir(excludes), root);
    FilterUnique(Accepts(excludes, includes), reached);
    RecordAllEntries(EmptyAnalysis, sel);
    StoredKeys(sel);
  }

  /** A selected file that does not decode is listed in `structure` but
      has no entry in `file_contents`. */
  lemma UndecodableNotStored(excludes: set<string>, includes: set<string>, root: Dir, v: Visit)
    requires WellNamed(root)
    requires v in Selection(excludes, includes, Reached(KeepDir(excludes), [], root)) && v.content.None?
    ensures RelPath(v) in StructurePaths(Scan(excludes, includes, root).structure)
    ensures RelPath(v) !in Keys(Scan(excludes, includes, root).fileContents)
  {
    var reached := Reached(KeepDir(excludes), [], root);
    var sel := Selection(excludes, includes, reached);
    ScanStructure(excludes, includes, root);
    ScanContents(excludes, includes, root);
    ReachedUniquePaths(KeepDir(excludes), root);
    FilterUnique(Accepts(excludes, includes), reached);
    UnstorablePathAbsent(sel, v);
  }

  /** Among files with distinct paths, a file that is not storable has its
      path among the paths but not among the storable files' paths. */
  lemma UnstorablePathAbsent(vs: seq<Visit>, v: Visit)
    requires UniquePaths(vs) && v in vs && !Storable(v)
    ensures RelPath(v) in RelPaths(vs)
    ensures RelPath(v) !in RelPaths(Filter(Storable, vs))
  {
    var i :| 0 <= i < |vs| && vs[i] == v;
    assert RelPaths(vs)[i] == RelPath(v);
    var f := Filter(Storable, vs);
    FilterSubset(Storable, vs);
    forall m | 0 <= m < |f|
      ensures RelPaths(f)[m] != RelPath(v)
    {
      assert f[m] in f;
      var j :| 0 <= j < |vs| && vs[j] == f[m];
      assert i != j;
    }
  }

  // ----- The analyzer object -----

  class FolderAnalyzer {
    /** The scan root (`os.path.abspath(os.path.expanduser(path))`, taken as given). */
    const path: string
    const excludes: set<string>
    const includes: set<string>
    /** Every relative path `should_process_file` has accepted so far. */
    var includedFiles: seq<string>

    constructor (path: string, preset: PresetConfig, exc: Option<seq<string>>, inc: Option<seq<string>>)
      ensures this.path == path
      ensures excludes == RuleSet(exc, preset.excludes) && includes == RuleSet(inc, preset.includes)
      ensures includedFiles == []
    {
      this.path := path;
      excludes := RuleSet(exc, preset.excludes);
      includes := RuleSet(inc, preset.includes);
      includedFiles := [];
    }

    /** `should_process_file` for a path relative to the scan root. */
    method ShouldProcessFile(relPath: string) returns (ok: bool)
      modifies this
      ensures ok == Selected(excludes, includes, relPath)
      ensures includedFiles == old(includedFiles) + (if ok then [relPath] else [])
    {
      var parts := Split(relPath);
      var veto := ExclusionVeto(excludes, parts);
      if veto {
        return false;
      }
      if includes != {} {
        var hit := InclusionMatch(includes, relPath);
        if hit {
          includedFiles := includedFiles + [relPath];
          return true;
        }
        return false;
      }
      includedFiles := includedFiles + [relPath];
      return true;
    }

    /** `analyze_folder` over the tree `root` found at the scan root:
        `os.walk` top-down as a worklist, pruning `dirs` before descent. */
    method AnalyzeFolder(root: Dir) returns (analysis: Analysis)
      modifies this
      ensures analysis == Scan(excludes, includes, root)
      ensures includedFiles ==
        old(includedFiles) + RelPaths(Selection(excludes, includes, Reached(KeepDir(excludes), [], root)))
    {
      var keep := KeepDir(excludes);
      analysis := EmptyAnalysis;
      ghost var initial := includedFiles;
      ghost var done: seq<Visit> := [];
      ghost var selected: seq<Visit> := [];
      var stack := [Frame([], root)];
      assert Pending(keep, stack) == Reached(keep, [], root);
      while stack != []
        invariant done + Pending(keep, stack) == Reached(keep, [], root)
        invariant selected == Selection(excludes, includes, done)
        invariant analysis == RecordAll(EmptyAnalysis, selected)
        invariant includedFiles == initial + RelPaths(selected)
        decreases StackSize(stack)
      {
        var top := stack[0];
        var dirs := Kept(keep, top.dir.subdirs);
        ghost var next := Children(top.prefix, dirs) + stack[1..];
        WalkStep(keep, done, stack);
        ghost var here := FileVisits(top.prefix, top.dir.files);
        ghost var selHere := Selection(excludes, includes, here);
        SelectionConcat(excludes, includes, done, here);
        RecordAllAppend(EmptyAnalysis, selected, selHere);
        RelPathsConcat(initial, selected, selHere);
        analysis := ProcessFiles(analysis, top.prefix, top.dir.files);
        done := done + here;
        selected := selected + selHere;
        stack := Children(top.prefix, dirs) + stack[1..];
      }
      assert done == Reached(keep, [], root);
    }

    /** The `for file in files` loop of one `os.walk` step: each file the
        rules accept is listed, then read if it decodes. */
    method ProcessFiles(a: Analysis, prefix: seq<string>, files: seq<File>) returns (analysis: Analysis)
      modifies this
      ensures analysis == RecordAll(a, Selection(excludes, includes, FileVisits(prefix, files)))
      ensures includedFiles ==
        old(includedFiles) + RelPaths(Selection(excludes, includes, FileVisits(prefix, files)))
    {
      analysis := a;
      ghost var initial := includedFiles;
      ghost var here := FileVisits(prefix, files);
      ghost var selected: seq<Visit> := [];
      ghost var paths: seq<string> := [];
      var j := 0;
      while j < |files|
        invariant 0 <= j <= |files|
        invariant selected == Selection(excludes, includes, here[..j])
        invariant analysis == RecordAll(a, selected)
        invariant paths == RelPaths(selected)
        invariant includedFiles == initial + paths
      {
        var file := files[j];
        ghost var v := here[j];
        var relPath := Join(prefix + [file.name]);
        assert v == Visit(prefix + [file.name], file.content);
        assert FileName(v) == file.name && RelPath(v) == relPath;
        var ok := ShouldProcessFile(relPath);
        SliceStep(here, j);
        SelectionStep(excludes, includes, here[..j], v);
        if ok {
          RecordLast(a, selected, v);
          analysis := ListAndRead(analysis, prefix, file);
          RelPathsStep(selected, v);
          selected := selected + [v];
          paths := paths + [relPath];
        }
        j := j + 1;
      }
      assert here[..j] == here;
    }
  }
}
