/** The directory tree both walkers traverse, and the order in which
    `os.walk(top)` (top-down, the default) hands its files to the loop body
    when that body prunes `dirs[:]` in place: pre-order, a directory's own
    files first, then each kept subdirectory in turn, entries in listing
    order. The scan root itself is always walked; only subdirectories are
    tested for pruning. */
module Walk {
  import opened Wrappers
  import opened Paths

  /** A regular file; `content` is `None` when it is not valid UTF-8 text. */
  datatype File = File(name: string, content: Option<string>)

  /** A directory with its files and subdirectories in listing order. */
  datatype Dir = Dir(name: string, files: seq<File>, subdirs: seq<Dir>)

  /** A file as the walk reaches it: the names leading to it below the scan
      root (its directories, then its own name) and its content. */
  datatype Visit = Visit(segs: seq<string>, content: Option<string>)

  /** The path relative to the scan root, as `os.path.relpath` gives it. */
  function RelPath(v: Visit): string {
    Join(v.segs)
  }

  /** The file's own name (the last segment). */
  function FileName(v: Visit): string {
    if v.segs == [] then "" else v.segs[|v.segs| - 1]
  }

  /** Every name in the tree is one a file system can hold, and no two
      entries of one directory share a name. */
  predicate WellNamed(d: Dir)
    decreases d
  {
    (forall i :: 0 <= i < |d.files| ==> ValidName(d.files[i].name)) &&
    (forall i :: 0 <= i < |d.subdirs| ==> ValidName(d.subdirs[i].name) && WellNamed(d.subdirs[i])) &&
    FileNamesDistinct(d.files) && DirNamesDistinct(d.subdirs) &&
    (forall i, j :: 0 <= i < |d.files| && 0 <= j < |d.subdirs| ==> d.files[i].name != d.subdirs[j].name)
  }

  predicate FileNamesDistinct(fs: seq<File>) {
    forall i, j :: 0 <= i < j < |fs| ==> fs[i].name != fs[j].name
  }

  predicate DirNamesDistinct(ds: seq<Dir>) {
    forall i, j :: 0 <= i < j < |ds| ==> ds[i].name != ds[j].name
  }

  function Names(ds: seq<Dir>): (r: seq<string>)
    ensures |r| == |ds| && forall i :: 0 <= i < |ds| ==> r[i] == ds[i].name
  {
    if ds == [] then [] else [ds[0].name] + Names(ds[1..])
  }

  function Size(d: Dir): nat {
    1 + SizeAll(d.subdirs)
  }

  function SizeAll(ds: seq<Dir>): nat {
    if ds == [] then 0 else Size(ds[0]) + SizeAll(ds[1..])
  }

  /** The subdirectories the loop body keeps in `dirs[:]`, in order. */
  function Kept(keep: string -> bool, ds: seq<Dir>): (r: seq<Dir>)
    ensures SizeAll(r) <= SizeAll(ds)
    ensures |r| <= |ds|
    ensures forall x :: x in r ==> x in ds && keep(x.name)
    ensures forall x :: x in ds && keep(x.name) ==> x in r
  {
    if ds == [] then []
    else if keep(ds[0].name) then [ds[0]] + Kept(keep, ds[1..])
    else Kept(keep, ds[1..])
  }

  /** The files of one directory, in listing order. */
  function FileVisits(prefix: seq<string>, files: seq<File>): (r: seq<Visit>)
    ensures |r| == |files|
    ensures forall i :: 0 <= i < |files| ==> r[i] == Visit(prefix + [files[i].name], files[i].content)
  {
    if files == [] then []
    else [Visit(prefix + [files[0].name], files[0].content)] + FileVisits(prefix, files[1..])
  }

  /** Every file the walk of `d` (reached through `prefix`) passes to the loop body, in order. */
  function Reached(keep: string -> bool, prefix: seq<string>, d: Dir): seq<Visit>
    decreases Size(d), 0
  {
    FileVisits(prefix, d.files) + ReachedAll(keep, prefix, Kept(keep, d.subdirs))
  }

  /** The walks of sibling directories `ds` below `prefix`, one after the other. */
  function ReachedAll(keep: string -> bool, prefix: seq<string>, ds: seq<Dir>): seq<Visit>
    decreases SizeAll(ds), 1
  {
    if ds == [] then []
    else Reached(keep, prefix + [ds[0].name], ds[0]) + ReachedAll(keep, prefix, ds[1..])
  }

  /** Keep every directory: the walk without pruning. */
  function KeepAll(n: string): bool { true }

  // ----- Shape of what the walk reaches -----

  /** Each file the walk reaches lies strictly below `prefix`, every
      directory it went through was kept, and, in a well-named tree, its
      path consists of valid names. */
  ghost predicate ReachedBelow(keep: string -> bool, prefix: seq<string>, v: Visit) {
    |prefix| < |v.segs| && v.segs[..|prefix|] == prefix &&
    (forall i :: |prefix| <= i < |v.segs| - 1 ==> keep(v.segs[i]))
  }

  lemma {:induction false} ReachedShape(keep: string -> bool, prefix: seq<string>, d: Dir)
    ensures forall v :: v in Reached(keep, prefix, d) ==> ReachedBelow(keep, prefix, v)
    ensures WellNamed(d) && ValidSegments(prefix) ==>
      forall v :: v in Reached(keep, prefix, d) ==> ValidSegments(v.segs)
    decreases Size(d), 0
  {
    var fv := FileVisits(prefix, d.files);
    forall v | v in fv
      ensures ReachedBelow(keep, prefix, v)
      ensures WellNamed(d) && ValidSegments(prefix) ==> ValidSegments(v.segs)
    {
      var i :| 0 <= i < |fv| && fv[i] == v;
      assert v.segs == prefix + [d.files[i].name];
      assert v.segs[..|prefix|] == prefix;
    }
    var kept := Kept(keep, d.subdirs);
    ReachedAllShape(keep, prefix, kept);
    if WellNamed(d) {
      forall j | 0 <= j < |kept|
        ensures ValidName(kept[j].name) && WellNamed(kept[j])
      {
        assert kept[j] in d.subdirs;
      }
    }
  }

  lemma {:induction false} ReachedAllShape(keep: string -> bool, prefix: seq<string>, ds: seq<Dir>)
    requires forall j :: 0 <= j < |ds| ==> keep(ds[j].name)
    ensures forall v :: v in ReachedAll(keep, prefix, ds) ==> ReachedBelow(keep, prefix, v)
    ensures ValidSegments(prefix) && (forall j :: 0 <= j < |ds| ==> ValidName(ds[j].name) && WellNamed(ds[j])) ==>
      forall v :: v in ReachedAll(keep, prefix, ds) ==> ValidSegments(v.segs)
    decreases SizeAll(ds), 1
  {
    if ds != [] {
      var p := prefix + [ds[0].name];
      ReachedShape(keep, p, ds[0]);
      ReachedAllShape(keep, prefix, ds[1..]);
      forall v | v in Reached(keep, p, ds[0])
        ensures ReachedBelow(keep, prefix, v)
      {
        assert v.segs[..|p|] == p;
        assert v.segs[..|prefix|] == p[..|prefix|] == prefix;
        forall i | |prefix| <= i < |v.segs| - 1
          ensures keep(v.segs[i])
        {
          if i == |prefix| {
            assert v.segs[i] == v.segs[..|p|][i] == ds[0].name;
          }
        }
      }
    }
  }

  // ----- Pruning before descent selects what filtering every leaf would -----

  /** The files of `vs` that `sel` accepts, in order. */
  function Filter(sel: Visit -> bool, vs: seq<Visit>): seq<Visit> {
    if vs == [] then []
    else if sel(vs[0]) then [vs[0]] + Filter(sel, vs[1..])
    else Filter(sel, vs[1..])
  }

  lemma {:induction false} FilterAppend(sel: Visit -> bool, a: seq<Visit>, b: seq<Visit>)
    ensures Filter(sel, a + b) == Filter(sel, a) + Filter(sel, b)
  {
    if a == [] {
      assert a + b == b;
    } else {
      assert (a + b)[1..] == a[1..] + b;
      FilterAppend(sel, a[1..], b);
    }
  }

  lemma {:induction false} FilterSubset(sel: Visit -> bool, vs: seq<Visit>)
    ensures forall v :: v in Filter(sel, vs) ==> v in vs && sel(v)
  {
    if vs != [] {
      FilterSubset(sel, vs[1..]);
    }
  }

  /** A selection that only accepts files none of whose directories below
      `prefix` the walk would prune. */
  ghost predicate AgreesWithPruning(keep: string -> bool, sel: Visit -> bool, prefix: seq<string>) {
    forall v: Visit, i :: ValidSegments(v.segs) && sel(v) && |prefix| <= i < |v.segs| - 1 ==> keep(v.segs[i])
  }

  /** Pruning a subtree before walking it loses no file such a selection accepts. */
  lemma {:induction false} PruningInvisible(keep: string -> bool, sel: Visit -> bool, prefix: seq<string>, d: Dir)
    requires WellNamed(d) && ValidSegments(prefix)
    requires AgreesWithPruning(keep, sel, prefix)
    ensures Filter(sel, Reached(keep, prefix, d)) == Filter(sel, Reached(KeepAll, prefix, d))
    decreases Size(d), 0
  {
    var fv := FileVisits(prefix, d.files);
    FilterAppend(sel, fv, ReachedAll(keep, prefix, Kept(keep, d.subdirs)));
    FilterAppend(sel, fv, ReachedAll(KeepAll, prefix, Kept(KeepAll, d.subdirs)));
    KeptAll(d.subdirs);
    PruningInvisibleAll(keep, sel, prefix, d.subdirs);
  }

  lemma {:induction false} PruningInvisibleAll(keep: string -> bool, sel: Visit -> bool, prefix: seq<string>, ds: seq<Dir>)
    requires ValidSegments(prefix)
    requires forall j :: 0 <= j < |ds| ==> ValidName(ds[j].name) && WellNamed(ds[j])
    requires AgreesWithPruning(keep, sel, prefix)
    ensures Filter(sel, ReachedAll(keep, prefix, Kept(keep, ds))) == Filter(sel, ReachedAll(KeepAll, prefix, ds))
    decreases SizeAll(ds), 1
  {
    if ds != [] {
      var p := prefix + [ds[0].name];
      assert ValidSegments(p);
      assert SizeAll(ds) == Size(ds[0]) + SizeAll(ds[1..]);
      var rest := ReachedAll(KeepAll, prefix, ds[1..]);
      FilterAppend(sel, Reached(KeepAll, p, ds[0]), rest);
      PruningInvisibleAll(keep, sel, prefix, ds[1..]);
      if keep(ds[0].name) {
        var k := Kept(keep, ds);
        assert k == [ds[0]] + Kept(keep, ds[1..]);
        assert k[0] == ds[0] && k[1..] == Kept(keep, ds[1..]);
        FilterAppend(sel, Reached(keep, p, ds[0]), ReachedAll(keep, prefix, Kept(keep, ds[1..])));
        PruningInvisible(keep, sel, p, ds[0]);
      } else {
        ReachedShape(KeepAll, p, ds[0]);
        forall v | v in Reached(KeepAll, p, ds[0])
          ensures !sel(v)
        {
          assert v.segs[..|p|] == p;
          assert v.segs[|prefix|] == v.segs[..|p|][|prefix|] == ds[0].name;
          assert |prefix| < |v.segs| - 1 && ValidSegments(v.segs);
          assert !keep(v.segs[|prefix|]);
        }
        FilterNone(sel, Reached(KeepAll, p, ds[0]));
      }
    }
  }

  lemma {:induction false} FilterNone(sel: Visit -> bool, vs: seq<Visit>)
    requires forall v :: v in vs ==> !sel(v)
    ensures Filter(sel, vs) == []
  {
    if vs != [] {
      FilterNone(sel, vs[1..]);
    }
  }

  /** Pruning a listing in two parts prunes each part in turn: the kept
      directories stay in their listing order. */
  lemma {:induction false} KeptAppend(keep: string -> bool, a: seq<Dir>, b: seq<Dir>)
    ensures Kept(keep, a + b) == Kept(keep, a) + Kept(keep, b)
  {
    if a == [] {
      assert a + b == b;
    } else {
      assert (a + b)[0] == a[0] && (a + b)[1..] == a[1..] + b;
      KeptAppend(keep, a[1..], b);
    }
  }

  /** One directory is kept exactly when its name is. */
  lemma KeptSingle(keep: string -> bool, d: Dir)
    ensures Kept(keep, [d]) == if keep(d.name) then [d] else []
  {
    assert [d][1..] == [];
  }

  lemma {:induction false} KeptAll(ds: seq<Dir>)
    ensures Kept(KeepAll, ds) == ds
  {
    if ds != [] {
      KeptAll(ds[1..]);
    }
  }

  // ----- The worklist `os.walk` keeps -----

  /** A directory still to be walked, with the names leading to it. */
  datatype Frame = Frame(prefix: seq<string>, dir: Dir)

  /** Everything the walk will still reach, frames in stack order (top first). */
  function Pending(keep: string -> bool, stack: seq<Frame>): seq<Visit>
    decreases stack
  {
    if stack == [] then []
    else Reached(keep, stack[0].prefix, stack[0].dir) + Pending(keep, stack[1..])
  }

  function StackSize(stack: seq<Frame>): nat {
    if stack == [] then 0 else Size(stack[0].dir) + StackSize(stack[1..])
  }

  /** The frames pushed for the kept subdirectories `ds` of a directory at `prefix`. */
  function Children(prefix: seq<string>, ds: seq<Dir>): (r: seq<Frame>)
    ensures |r| == |ds|
  {
    if ds == [] then [] else [Frame(prefix + [ds[0].name], ds[0])] + Children(prefix, ds[1..])
  }

  lemma {:induction false} PendingAppend(keep: string -> bool, s: seq<Frame>, t: seq<Frame>)
    ensures Pending(keep, s + t) == Pending(keep, s) + Pending(keep, t)
    ensures StackSize(s + t) == StackSize(s) + StackSize(t)
  {
    if s == [] {
      assert s + t == t;
    } else {
      assert (s + t)[1..] == s[1..] + t;
      PendingAppend(keep, s[1..], t);
    }
  }

  lemma {:induction false} PendingChildren(keep: string -> bool, prefix: seq<string>, ds: seq<Dir>)
    ensures Pending(keep, Children(prefix, ds)) == ReachedAll(keep, prefix, ds)
    ensures StackSize(Children(prefix, ds)) == SizeAll(ds)
  {
    if ds != [] {
      PendingChildren(keep, prefix, ds[1..]);
    }
  }

  /** The walk loop's bookkeeping: after the top frame's files are
      consumed and its kept subdirectories pushed, what was consumed and
      what is pending still make up the same walk. */
  lemma WalkStep(keep: string -> bool, done: seq<Visit>, stack: seq<Frame>)
    requires stack != []
    ensures var f := stack[0];
      var next := Children(f.prefix, Kept(keep, f.dir.subdirs)) + stack[1..];
      (done + FileVisits(f.prefix, f.dir.files)) + Pending(keep, next) == done + Pending(keep, stack) &&
      StackSize(next) < StackSize(stack)
  {
    var f := stack[0];
    var next := Children(f.prefix, Kept(keep, f.dir.subdirs)) + stack[1..];
    PopFrame(keep, stack);
    Regroup(done, FileVisits(f.prefix, f.dir.files), Pending(keep, next), Pending(keep, stack));
  }

  /** Regrouping a concatenation of three sequences. */
  lemma Regroup<T>(a: seq<T>, b: seq<T>, c: seq<T>, bc: seq<T>)
    requires bc == b + c
    ensures (a + b) + c == a + bc
  {
  }

  /** One step of `os.walk`: popping the top frame yields its files, and the
      frames of its kept subdirectories take its place; the stack shrinks. */
  lemma PopFrame(keep: string -> bool, stack: seq<Frame>)
    requires stack != []
    ensures var f := stack[0];
      var next := Children(f.prefix, Kept(keep, f.dir.subdirs)) + stack[1..];
      Pending(keep, stack) == FileVisits(f.prefix, f.dir.files) + Pending(keep, next) &&
      StackSize(next) < StackSize(stack)
  {
    var f := stack[0];
    var kids := Children(f.prefix, Kept(keep, f.dir.subdirs));
    PendingAppend(keep, kids, stack[1..]);
    PendingChildren(keep, f.prefix, Kept(keep, f.dir.subdirs));
  }

  // ----- Distinct files reach distinct paths -----

  /** No two visits have the same names leading to them. */
  ghost predicate DistinctSegs(vs: seq<Visit>) {
    forall i, j :: 0 <= i < j < |vs| ==> vs[i].segs != vs[j].segs
  }

  /** No two visits have the same relative path. */
  ghost predicate UniquePaths(vs: seq<Visit>) {
    forall i, j :: 0 <= i < j < |vs| ==> RelPath(vs[i]) != RelPath(vs[j])
  }

  lemma DistinctConcat(a: seq<Visit>, b: seq<Visit>)
    requires DistinctSegs(a) && DistinctSegs(b)
    requires forall i, j :: 0 <= i < |a| && 0 <= j < |b| ==> a[i].segs != b[j].segs
    ensures DistinctSegs(a + b)
  {
    forall i, j | 0 <= i < j < |a + b|
      ensures (a + b)[i].segs != (a + b)[j].segs
    {
      if j < |a| {
        assert (a + b)[i] == a[i] && (a + b)[j] == a[j];
      } else if i < |a| {
        assert (a + b)[i] == a[i] && (a + b)[j] == b[j - |a|];
      } else {
        assert (a + b)[i] == b[i - |a|] && (a + b)[j] == b[j - |a|];
      }
    }
  }

  lemma {:induction false} KeptDistinct(keep: string -> bool, ds: seq<Dir>)
    requires DirNamesDistinct(ds)
    ensures DirNamesDistinct(Kept(keep, ds))
  {
    if ds != [] {
      KeptDistinct(keep, ds[1..]);
      var rest := Kept(keep, ds[1..]);
      forall j | 0 <= j < |rest|
        ensures ds[0].name != rest[j].name
      {
        var k :| 0 <= k < |ds[1..]| && ds[1..][k] == rest[j];
        assert ds[k + 1] == rest[j];
      }
    }
  }

  /** In a tree whose directories never hold two entries of one name, the
      walk reaches every file by its own sequence of names. */
  lemma {:induction false} ReachedDistinct(keep: string -> bool, prefix: seq<string>, d: Dir)
    requires WellNamed(d)
    ensures DistinctSegs(Reached(keep, prefix, d))
    decreases Size(d), 0
  {
    var fv := FileVisits(prefix, d.files);
    forall i, j | 0 <= i < j < |fv|
      ensures fv[i].segs != fv[j].segs
    {
      assert fv[i].segs[|prefix|] == d.files[i].name;
      assert fv[j].segs[|prefix|] == d.files[j].name;
    }
    var kept := Kept(keep, d.subdirs);
    KeptDistinct(keep, d.subdirs);
    forall j | 0 <= j < |kept|
      ensures WellNamed(kept[j])
    {
      assert kept[j] in d.subdirs;
    }
    var below := ReachedAll(keep, prefix, kept);
    ReachedAllDistinct(keep, prefix, kept);
    forall i, j | 0 <= i < |fv| && 0 <= j < |below|
      ensures fv[i].segs != below[j].segs
    {
      assert below[j] in below;
      assert |fv[i].segs| == |prefix| + 1;
    }
    DistinctConcat(fv, below);
  }

  lemma {:induction false} ReachedAllDistinct(keep: string -> bool, prefix: seq<string>, ds: seq<Dir>)
    requires DirNamesDistinct(ds)
    requires forall j :: 0 <= j < |ds| ==> WellNamed(ds[j])
    ensures DistinctSegs(ReachedAll(keep, prefix, ds))
    ensures forall v :: v in ReachedAll(keep, prefix, ds) ==>
      |v.segs| > |prefix| + 1 && v.segs[|prefix|] in Names(ds)
    decreases SizeAll(ds), 1
  {
    if ds != [] {
      var p := prefix + [ds[0].name];
      var first := Reached(keep, p, ds[0]);
      var rest := ReachedAll(keep, prefix, ds[1..]);
      ReachedDistinct(keep, p, ds[0]);
      ReachedShape(keep, p, ds[0]);
      ReachedAllDistinct(keep, prefix, ds[1..]);
      forall v | v in first
        ensures |v.segs| > |prefix| + 1 && v.segs[|prefix|] == ds[0].name
      {
        assert ReachedBelow(keep, p, v);
        assert v.segs[|prefix|] == v.segs[..|p|][|prefix|];
      }
      forall i, j | 0 <= i < |first| && 0 <= j < |rest|
        ensures first[i].segs != rest[j].segs
      {
        assert first[i] in first && rest[j] in rest;
        var k :| 0 <= k < |Names(ds[1..])| && Names(ds[1..])[k] == rest[j].segs[|prefix|];
        assert ds[k + 1].name == rest[j].segs[|prefix|];
      }
      DistinctConcat(first, rest);
      forall v | v in rest
        ensures v.segs[|prefix|] in Names(ds)
      {
        var k :| 0 <= k < |Names(ds[1..])| && Names(ds[1..])[k] == v.segs[|prefix|];
        assert Names(ds)[k + 1] == v.segs[|prefix|];
      }
      forall v | v in first
        ensures v.segs[|prefix|] in Names(ds)
      {
        assert Names(ds)[0] == ds[0].name;
      }
    }
  }

  /** In such a tree, no two files the walk reaches share a relative path. */
  lemma ReachedUniquePaths(keep: string -> bool, root: Dir)
    requires WellNamed(root)
    ensures UniquePaths(Reached(keep, [], root))
  {
    var vs := Reached(keep, [], root);
    ReachedDistinct(keep, [], root);
    ReachedShape(keep, [], root);
    forall i, j | 0 <= i < j < |vs|
      ensures RelPath(vs[i]) != RelPath(vs[j])
    {
      assert vs[i] in vs && vs[j] in vs;
      assert ReachedBelow(keep, [], vs[i]) && ReachedBelow(keep, [], vs[j]);
      if RelPath(vs[i]) == RelPath(vs[j]) {
        JoinInjective(vs[i].segs, vs[j].segs);
      }
    }
  }

  /** Selecting from files with distinct paths keeps them distinct. */
  lemma {:induction false} FilterUnique(sel: Visit -> bool, vs: seq<Visit>)
    requires UniquePaths(vs)
    ensures UniquePaths(Filter(sel, vs))
  {
    if vs != [] {
      assert UniquePaths(vs[1..]) by {
        forall i, j | 0 <= i < j < |vs[1..]|
          ensures RelPath(vs[1..][i]) != RelPath(vs[1..][j])
        {
          assert vs[1..][i] == vs[i + 1] && vs[1..][j] == vs[j + 1];
        }
      }
      FilterUnique(sel, vs[1..]);
      var rest := Filter(sel, vs[1..]);
      if sel(vs[0]) {
        FilterSubset(sel, vs[1..]);
        forall j | 0 <= j < |rest|
          ensures RelPath(vs[0]) != RelPath(rest[j])
        {
          assert rest[j] in vs[1..];
          var k :| 0 <= k < |vs[1..]| && vs[1..][k] == rest[j];
          assert vs[k + 1] == rest[j];
        }
        var r := [vs[0]] + rest;
        forall i, j | 0 <= i < j < |r|
          ensures RelPath(r[i]) != RelPath(r[j])
        {
          assert r[j] == rest[j - 1];
          if i > 0 {
            assert r[i] == rest[i - 1];
          }
        }
      }
    }
  }
}
