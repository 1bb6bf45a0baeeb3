/** `concatenate_files`: the stand-alone script that walks a source tree
    and writes every Python file and README into one text file, each under
    a header naming its relative path. */
module Concatenate {
  import opened Wrappers
  import opened Paths
  import opened Strings
  import opened Walk

  /** The directory names the walk never descends into. */
  const SkippedDirs: seq<string> := ["__pycache__", "output", "venv"]

  /** The pruning `dirs[:] = [d for d in dirs if d not in [...]]`. */
  function KeepSourceDir(n: string): bool {
    n !in SkippedDirs
  }

  /** A file is copied when it is a `.py` file or named exactly
      `README.md`, unless it bears the script's own name. */
  predicate Emitted(name: string, script: string) {
    (EndsWith(name, ".py") || name == "README.md") && name != script
  }

  /** The text around a file's path in its header: two blank lines and
      `# File: ` before it, a rule of fifty '=' and a blank line after. */
  const HeaderOpen: string := "\n\n# File: "
  const HeaderClose: string := "\n" + HeaderRule + "\n\n"
  const HeaderRule: string := Repeat('=', 50)

  /** What is written before a file's text. */
  function Header(relPath: string): string {
    HeaderOpen + relPath + HeaderClose
  }

  /** The text written to the output file, and whether the run got to the
      end: reading a file that is not valid UTF-8 raises, leaving the text
      written up to and including that file's header. */
  datatype Outcome = Outcome(text: string, completed: bool)

  /** The effect of the loop body on the files `vs`, in walk order. */
  function Emit(vs: seq<Visit>, script: string): Outcome {
    if vs == [] then Outcome("", true)
    else if !Emitted(FileName(vs[0]), script) then Emit(vs[1..], script)
    else
      var header := Header(RelPath(vs[0]));
      match vs[0].content
      case None => Outcome(header, false)
      case Some(c) =>
        var rest := Emit(vs[1..], script);
        Outcome(header + c + rest.text, rest.completed)
  }

  /** The whole run on the tree `root`. */
  function Concatenation(root: Dir, script: string): Outcome {
    Emit(Reached(KeepSourceDir, [], root), script)
  }

  // ----- The walk -----

  method ConcatenateFiles(root: Dir, script: string) returns (text: string, completed: bool)
    ensures Outcome(text, completed) == Concatenation(root, script)
  {
    text := "";
    ghost var done: seq<Visit> := [];
    var stack := [Frame([], root)];
    assert Pending(KeepSourceDir, stack) == Reached(KeepSourceDir, [], root);
    while stack != []
      invariant done + Pending(KeepSourceDir, stack) == Reached(KeepSourceDir, [], root)
      invariant Emit(done, script) == Outcome(text, true)
      decreases StackSize(stack)
    {
      var top := stack[0];
      var dirs := Kept(KeepSourceDir, top.dir.subdirs);
      var next := Children(top.prefix, dirs) + stack[1..];
      WalkStep(KeepSourceDir, done, stack);
      ghost var here := FileVisits(top.prefix, top.dir.files);
      var chunk, ok := EmitFiles(top.prefix, top.dir.files, script);
      EmitAppend(done, here, script);
      text := text + chunk;
      if !ok {
        EmitAppend(done + here, Pending(KeepSourceDir, next), script);
        completed := false;
        return;
      }
      done := done + here;
      stack := next;
    }
    assert done == Reached(KeepSourceDir, [], root);
    completed := true;
  }

  /** The `for file in files` loop of one walk step. */
  method EmitFiles(prefix: seq<string>, files: seq<File>, script: string) returns (text: string, completed: bool)
    ensures Outcome(text, completed) == Emit(FileVisits(prefix, files), script)
  {
    text := "";
    ghost var here := FileVisits(prefix, files);
    var j := 0;
    assert here[..0] == [];
    while j < |files|
      invariant 0 <= j <= |files|
      invariant Emit(here[..j], script) == Outcome(text, true)
    {
      var file := files[j];
      assert FileName(here[j]) == file.name;
      EmitPrefixStep(here, j, script);
      if Emitted(file.name, script) {
        var relPath := Join(prefix + [file.name]);
        assert RelPath(here[j]) == relPath;
        match file.content {
          case None =>
            text := text + Header(relPath);
            completed := false;
            return;
          case Some(c) =>
            text := text + (Header(relPath) + c);
        }
      }
      j := j + 1;
    }
    assert here[..j] == here;
    completed := true;
  }

  // ----- Properties -----

  /** Extending a completed prefix of `vs` by one file; a run that stops
      at that file is the run on the whole of `vs`. */
  lemma EmitPrefixStep(vs: seq<Visit>, j: nat, script: string)
    requires j < |vs| && Emit(vs[..j], script).completed
    ensures Emit(vs[..j + 1], script) ==
      Outcome(Emit(vs[..j], script).text + Emit([vs[j]], script).text, Emit([vs[j]], script).completed)
    ensures !Emit([vs[j]], script).completed ==> Emit(vs, script) == Emit(vs[..j + 1], script)
    ensures EmitSingleFacts(vs[j], script)
  {
    assert vs[..j + 1] == vs[..j] + [vs[j]];
    EmitAppend(vs[..j], [vs[j]], script);
    assert vs == vs[..j + 1] + vs[j + 1..];
    EmitAppend(vs[..j + 1], vs[j + 1..], script);
    EmitSingle(vs[j], script);
  }

  /** The run on a single file. */
  predicate EmitSingleFacts(v: Visit, script: string) {
    (!Emitted(FileName(v), script) ==> Emit([v], script) == Outcome("", true)) &&
    (Emitted(FileName(v), script) && v.content.None? ==> Emit([v], script) == Outcome(Header(RelPath(v)), false)) &&
    (Emitted(FileName(v), script) && v.content.Some? ==>
      Emit([v], script) == Outcome(Header(RelPath(v)) + v.content.value, true))
  }

  lemma EmitSingle(v: Visit, script: string)
    ensures EmitSingleFacts(v, script)
  {
    assert [v][1..] == [];
    if Emitted(FileName(v), script) && v.content.Some? {
      var p := Header(RelPath(v)) + v.content.value;
      assert p + "" == p;
    }
  }

  /** The run on `a + b`: once `a` is copied in full, `b` follows it; a
      run that stopped in `a` never reaches `b`. */
  lemma {:induction false} EmitAppend(a: seq<Visit>, b: seq<Visit>, script: string)
    ensures Emit(a, script).completed ==>
      Emit(a + b, script) == Outcome(Emit(a, script).text + Emit(b, script).text, Emit(b, script).completed)
    ensures !Emit(a, script).completed ==> Emit(a + b, script) == Emit(a, script)
  {
    if a == [] {
      assert a + b == b;
    } else {
      var v, t := a[0], a[1..];
      assert a == [v] + t;
      assert a + b == [v] + (t + b);
      EmitAppend(t, b, script);
      if !Emitted(FileName(v), script) {
        EmitSkip(v, t, script);
        EmitSkip(v, t + b, script);
      } else if v.content.None? {
        EmitStop(v, t, script);
        EmitStop(v, t + b, script);
      } else {
        EmitCons(v, t, script);
        EmitCons(v, t + b, script);
        var p := Header(RelPath(v)) + v.content.value;
        if Emit(t, script).completed {
          Regroup(p, Emit(t, script).text, Emit(b, script).text, Emit(t, script).text + Emit(b, script).text);
        }
      }
    }
  }

  /** The files the script copies: emitted names, in walk order. */
  function Copied(script: string, vs: seq<Visit>): seq<Visit> {
    Filter(v => Emitted(FileName(v), script), vs)
  }

  /** The headers and texts of `vs`, one after the other. */
  function Blocks(vs: seq<Visit>): string {
    if vs == [] then ""
    else Header(RelPath(vs[0])) + (if vs[0].content.Some? then vs[0].content.value else "") + Blocks(vs[1..])
  }

  /** The run completes exactly when every file it copies decodes. */
  lemma {:induction false} CompletedIffReadable(vs: seq<Visit>, script: string)
    ensures Emit(vs, script).completed <==>
      forall v :: v in vs && Emitted(FileName(v), script) ==> v.content.Some?
  {
    if vs != [] {
      CompletedIffReadable(vs[1..], script);
      assert forall v :: v in vs <==> v == vs[0] || v in vs[1..];
    }
  }

  /** A completed run writes the header and text of each copied file and
      nothing else, in walk order. */
  lemma {:induction false} CompletedText(vs: seq<Visit>, script: string)
    requires Emit(vs, script).completed
    ensures Emit(vs, script).text == Blocks(Copied(script, vs))
  {
    if vs != [] {
      CompletedText(vs[1..], script);
    }
  }

  /** An unfinished run stops at the first copied file that does not
      decode: its text is the blocks of the copied files before that one,
      then that file's header. */
  lemma {:induction false} StoppedAtUnreadable(vs: seq<Visit>, script: string)
    requires !Emit(vs, script).completed
    ensures exists i :: StopsAt(vs, script, i)
  {
    var v := vs[0];
    if Emitted(FileName(v), script) && v.content.None? {
      assert vs[..0] == [];
      assert Emit(vs, script).text == "" + Header(RelPath(v));
      assert StopsAt(vs, script, 0);
    } else {
      StoppedAtUnreadable(vs[1..], script);
      var k :| StopsAt(vs[1..], script, k);
      StopsAtCons(v, vs[1..], script, k);
      assert [v] + vs[1..] == vs;
    }
  }

  /** A file the run passes over or copies in full, put in front, moves
      the stopping point one place on. */
  lemma StopsAtCons(v: Visit, rest: seq<Visit>, script: string, k: int)
    requires StopsAt(rest, script, k)
    requires !(Emitted(FileName(v), script) && v.content.None?)
    ensures StopsAt([v] + rest, script, k + 1)
  {
    var vs := [v] + rest;
    assert vs[k + 1] == rest[k];
    ReadableCons(v, rest, script, k);
    TextCons(v, rest, script, k);
  }

  lemma ReadableCons(v: Visit, rest: seq<Visit>, script: string, k: int)
    requires 0 <= k < |rest|
    requires forall j :: 0 <= j < k && Emitted(FileName(rest[j]), script) ==> rest[j].content.Some?
    requires !(Emitted(FileName(v), script) && v.content.None?)
    ensures forall j :: 0 <= j < k + 1 && Emitted(FileName(([v] + rest)[j]), script) ==> ([v] + rest)[j].content.Some?
  {
    forall j | 0 <= j < k + 1 && Emitted(FileName(([v] + rest)[j]), script)
      ensures ([v] + rest)[j].content.Some?
    {
      if j > 0 {
        assert ([v] + rest)[j] == rest[j - 1];
      }
    }
  }

  lemma TextCons(v: Visit, rest: seq<Visit>, script: string, k: int)
    requires 0 <= k < |rest|
    requires Emit(rest, script).text == Blocks(Copied(script, rest[..k])) + Header(RelPath(rest[k]))
    requires !(Emitted(FileName(v), script) && v.content.None?)
    ensures Emit([v] + rest, script).text == Blocks(Copied(script, ([v] + rest)[..k + 1])) + Header(RelPath(rest[k]))
  {
    assert ([v] + rest)[..k + 1] == [v] + rest[..k];
    CopiedCons(v, rest[..k], script);
    if Emitted(FileName(v), script) {
      TextConsCopied(v, rest, script, Copied(script, rest[..k]), Header(RelPath(rest[k])));
    } else {
      EmitSkip(v, rest, script);
    }
  }

  lemma TextConsCopied(v: Visit, rest: seq<Visit>, script: string, before: seq<Visit>, h: string)
    requires Emitted(FileName(v), script) && v.content.Some?
    requires Emit(rest, script).text == Blocks(before) + h
    ensures Emit([v] + rest, script).text == Blocks([v] + before) + h
  {
    EmitCons(v, rest, script);
    BlocksCons(v, before);
    Regroup(Header(RelPath(v)) + v.content.value, Blocks(before), h, Blocks(before) + h);
  }

  lemma EmitCons(v: Visit, rest: seq<Visit>, script: string)
    requires Emitted(FileName(v), script) && v.content.Some?
    ensures Emit([v] + rest, script).text == Header(RelPath(v)) + v.content.value + Emit(rest, script).text
    ensures Emit([v] + rest, script).completed == Emit(rest, script).completed
  {
    assert ([v] + rest)[1..] == rest;
  }

  lemma EmitStop(v: Visit, rest: seq<Visit>, script: string)
    requires Emitted(FileName(v), script) && v.content.None?
    ensures Emit([v] + rest, script) == Outcome(Header(RelPath(v)), false)
  {
    assert ([v] + rest)[0] == v;
  }

  lemma EmitSkip(v: Visit, rest: seq<Visit>, script: string)
    requires !Emitted(FileName(v), script)
    ensures Emit([v] + rest, script) == Emit(rest, script)
  {
    assert ([v] + rest)[1..] == rest;
  }

  lemma CopiedCons(v: Visit, ws: seq<Visit>, script: string)
    ensures Copied(script, [v] + ws) == (if Emitted(FileName(v), script) then [v] else []) + Copied(script, ws)
  {
    assert ([v] + ws)[1..] == ws;
  }

  lemma BlocksCons(v: Visit, ws: seq<Visit>)
    requires v.content.Some?
    ensures Blocks([v] + ws) == Header(RelPath(v)) + v.content.value + Blocks(ws)
  {
    assert ([v] + ws)[1..] == ws;
  }

  /** The run stops at `vs[i]`: the first copied file that does not
      decode, after the blocks of the copied files before it and its own
      header. */
  ghost predicate StopsAt(vs: seq<Visit>, script: string, i: int) {
    0 <= i < |vs| && Emitted(FileName(vs[i]), script) && vs[i].content.None? &&
    (forall j :: 0 <= j < i && Emitted(FileName(vs[j]), script) ==> vs[j].content.Some?) &&
    Emit(vs, script).text == Blocks(Copied(script, vs[..i])) + Header(RelPath(vs[i]))
  }

  /** Nothing below a `__pycache__`, `output` or `venv` directory is
      reached, at any depth. */
  lemma SkippedDirsNeverEntered(root: Dir)
    ensures forall v, i :: v in Reached(KeepSourceDir, [], root) && 0 <= i < |v.segs| - 1 ==>
      v.segs[i] !in SkippedDirs
  {
    ReachedShape(KeepSourceDir, [], root);
  }

  /** A file named like the script is never copied, wherever it lies. */
  lemma ScriptNeverCopied(vs: seq<Visit>, script: string)
    ensures forall v :: v in Copied(script, vs) ==> FileName(v) != script
  {
    CopiedSubset(vs, script);
  }

  lemma {:induction false} CopiedSubset(vs: seq<Visit>, script: string)
    ensures forall v :: v in Copied(script, vs) ==> v in vs && Emitted(FileName(v), script)
  {
    if vs != [] {
      CopiedSubset(vs[1..], script);
    }
  }
}
