# analyze-folder-for-llm: the file-selection core, in Dafny

`analyze-folder-for-llm` walks a folder and builds a digest for a language
model. The digest has two parts: a JSON summary (the folder path, a README
excerpt and the list of files kept) and one text file holding the README and
every kept file. The repository also ships a stand-alone script that
concatenates a project's Python sources and README into one file.

This project models the core of both tools and proves what they promise:

- `FolderAnalyzer` (`src/analyze_folder_for_llm/main.py`):
  - how the exclude and include rule sets are chosen;
  - the decision `should_process_file`, with its glob matching on path segments and on the whole relative path;
  - the `os.walk` traversal of `analyze_folder`, with directories pruned in place;
  - the `structure`, `file_contents` and `readme` fields it fills;
  - the README summary and file list of the JSON summary;
  - the exact text of the contents file.
- `concatenate_files` (`copy_py_files.py`): its walk, its file filter and its output text, including a run cut short by a file that does not decode.

Modules:

- `Wrappers`: `Option`.
- `Strings`: the ASCII part of `str.lower()`, `str.endswith`, and `c * n`.
- `Paths`: joining and splitting relative paths on `/`. It proves that the two are inverse to each other.
- `Glob`: `fnmatch.fnmatch`, where `*` matches any run of characters including `/`, `?` matches one character, and everything else matches itself. It proves the facts the rules rely on.
- `Walk`: a folder tree and the top-down, pre-order sequence of files `os.walk` reaches when it prunes subdirectories by name. It also covers the stack of pending directories an iterative walk keeps.
- `Analyzer`: the `FolderAnalyzer` class and the specification of `analyze_folder` as a function of the tree (`Scan`).
- `Output`: the README summary, the JSON file list and the contents-file text.
- `Concatenate`: `concatenate_files`.
- `AnalyzerExamples`: three tests of `tests/test_folder_analyzer.py`. `test_should_process_file` is stated in general form. `test_folder_analyzer_initialization` is stated as the test's own instances; its general form is the contract of `Analyzer.RuleSet`. `test_analyze_folder` is stated on the tree that test builds. `test_generate_structured_output` has no counterpart.

Modelling choices:

- A file is a name plus `Some(text)`, where `text` is what `read()` returns on the file opened as UTF-8 text (so with `\r\n` and `\r` already turned into `\n`), or `None` when reading it raises `UnicodeDecodeError`.
- Paths are relative to the scan root and use `/` as the separator.
- A Python `set` of patterns is a Dafny `set`. The loops over it pick elements with `:|`, so the proved results hold for every iteration order.
- `str.lower()` is modelled for ASCII letters only. For the comparison with `"readme.md"` in `IsReadme` this gives the same answer as Python, since no non-ASCII character lowercases to a character of that name.
- The `file_contents` dict is an association list in insertion order. Assigning to an existing key keeps its position, as Python dicts do.
- A folder tree is well-named: no entry name is empty, `.`, `..` or contains `/`, and no two entries of one directory share a name, as in any real file system. Distinct files then reach distinct relative paths.

Behaviours of `main.py` worth noting:

- A selected file that does not decode still gets its `structure` entry. The entry is appended before the file is read.
- When several READMEs are selected, the last one read wins, since each assignment overwrites `readme`.
- An include pattern such as `*.py` also accepts `sub/dir/x.py`, because `fnmatch` lets `*` run across `/`.
- The constructor creates `<path>/output` before any walk, so the analyzer always walks its own output directory. On a later run it reads back the previous `folder_contents_for_llm.txt` and JSON summary, unless an exclude pattern matches `output` or the include patterns reject those files. In the model that directory is simply part of the input tree.

## Model

| member | source | states |
|---|---|---|
| Analyzer.RuleSet | src/analyze_folder_for_llm/main.py:30-31 | a non-empty argument list replaces the preset's list; a missing or empty one falls back to it; either way as a set |
| Analyzer.FolderAnalyzer.constructor | src/analyze_folder_for_llm/main.py:22-34 | the analyzer keeps the path, takes its rule sets from the override rule and starts with no included files |
| Analyzer.AnySegmentMatches | src/analyze_folder_for_llm/main.py:48 | true exactly when some segment of the path matches the pattern |
| Analyzer.ExclusionVeto | src/analyze_folder_for_llm/main.py:47-52 | true exactly when some exclude pattern matches some segment, whatever order the set is visited in |
| Analyzer.InclusionMatch | src/analyze_folder_for_llm/main.py:55-66 | true exactly when some include pattern matches the whole relative path, whatever the set order |
| Analyzer.FolderAnalyzer.ShouldProcessFile | src/analyze_folder_for_llm/main.py:40-73 | accepts exactly when no segment matches an exclude pattern and either no include patterns exist or one matches the whole path; an accepted path is appended to `included_files`, a rejected one changes nothing |
| Analyzer.SelectedBySegments | src/analyze_folder_for_llm/main.py:41-73 | for a path made of valid names, the decision in terms of the names themselves: no name matches an exclude pattern, and the include rule holds |
| Analyzer.ListAndRead | src/analyze_folder_for_llm/main.py:89-104 | for an accepted file: a `structure` entry, then if it decodes its text goes to `readme` (for a README) or under its path in `file_contents` |
| Analyzer.Record | src/analyze_folder_for_llm/main.py:90-104 | definition of one accepted file's effect; its properties are stated in RecordAllStructure, RecordAllNoReadme, RecordAllLastReadme, RecordAllUnstored, RecordAllLastStored, RecordAllKeysListed and RecordAllEntries |
| Analyzer.RecordAll | src/analyze_folder_for_llm/main.py:86-104 | definition of the accepted files recorded in order; its properties are stated in the RecordAll* lemmas |
| Analyzer.Scan | src/analyze_folder_for_llm/main.py:76-104 | definition of `analyze_folder` on a tree; its properties are stated in ScanStructure, ScanContents, ScanKeysListed, UndecodableNotStored, ReadmeNeverStored and AnalyzeFolder |
| Analyzer.Put | src/analyze_folder_for_llm/main.py:100 | definition of `d[k] = v`; its properties are stated in PutSpec and PutNew |
| Analyzer.PutNew | src/analyze_folder_for_llm/main.py:100 | assigning a key the dict does not hold appends the pair at the end |
| Analyzer.Selected | src/analyze_folder_for_llm/main.py:40-73 | definition of the decision; ShouldProcessFile returns it and SelectedBySegments restates it in terms of the names |
| Analyzer.IsReadme | src/analyze_folder_for_llm/main.py:97 | definition of `file.lower() == "readme.md"`; ReadmeNeverStored and OnlyReadmeAtReadmePath use it |
| Analyzer.StoredKeys | src/analyze_folder_for_llm/main.py:94-100 | the keys stored for a sequence of files are the paths of its decodable non-README files, in order |
| Analyzer.RecordAllEntries | src/analyze_folder_for_llm/main.py:90-104 | recording files with distinct, new paths appends one `(path, text)` entry per decodable non-README file, in order |
| Analyzer.ScanContents | src/analyze_folder_for_llm/main.py:76-104 | for a well-named tree, `file_contents` is one entry per accepted decodable non-README file, in walk order, so its keys are exactly those files' paths |
| Analyzer.UndecodableNotStored | src/analyze_folder_for_llm/main.py:90-104 | an accepted file that does not decode is listed in `structure` and is not a key of `file_contents` |
| Analyzer.PutSpec | src/analyze_folder_for_llm/main.py:100 | after `d[k] = v`, `k` maps to `v`, every other key keeps its value, and the key order gains `k` at the end only if it was new |
| Analyzer.LookupKeys | src/analyze_folder_for_llm/main.py:100 | a key has a value exactly when it is among the dict's keys |
| Analyzer.FolderAnalyzer.AnalyzeFolder | src/analyze_folder_for_llm/main.py:75-109 | the iterative walk produces the analysis of the whole tree walked with pruning, and appends to `included_files` the relative path of every accepted file, in walk order |
| Analyzer.FolderAnalyzer.ProcessFiles | src/analyze_folder_for_llm/main.py:86-104 | one directory's files: the analysis and `included_files` advance by exactly the accepted files, in listing order |
| Analyzer.RecordAllStructure | src/analyze_folder_for_llm/main.py:90-92 | `structure` gains one entry per accepted file, in order, each with the file's relative path and type `"file"` |
| Analyzer.RecordAllNoReadme | src/analyze_folder_for_llm/main.py:97-98 | with no decodable README among the accepted files, `readme` stays as it was |
| Analyzer.RecordAllLastReadme | src/analyze_folder_for_llm/main.py:97-98 | `readme` holds the text of the last decodable README accepted |
| Analyzer.RecordKeepsOthers | src/analyze_folder_for_llm/main.py:97-100 | recording a file not stored at `k` leaves the value under `k` unchanged |
| Analyzer.RecordAllUnstored | src/analyze_folder_for_llm/main.py:99-100 | with no decodable non-README accepted at `k`, the value under `k` is unchanged |
| Analyzer.RecordAllLastStored | src/analyze_folder_for_llm/main.py:99-100 | the value under `k` is the text of the last decodable non-README accepted at `k` |
| Analyzer.RecordAllKeysListed | src/analyze_folder_for_llm/main.py:90-100 | recording keeps every `file_contents` key among the `structure` paths |
| Analyzer.Pruned | src/analyze_folder_for_llm/main.py:83 | definition of the pruning test, some exclude pattern matching the directory name; NeverDescendsPruned and PruningMatchesLeafFilter state its effect |
| Analyzer.KeepDir | src/analyze_folder_for_llm/main.py:80-84 | definition of the names kept in `dirs[:]`, those not pruned; NeverDescendsPruned and PruningMatchesLeafFilter state its effect |
| Analyzer.Accepts | src/analyze_folder_for_llm/main.py:86-88 | definition of the `should_process_file` test on a reached file's relative path; ShouldProcessFile returns the same decision |
| Analyzer.Selection | src/analyze_folder_for_llm/main.py:86-88 | definition of the reached files that pass `should_process_file`, in walk order; ScanStructure, PruningMatchesLeafFilter and AnalyzeFolder state its properties |
| Analyzer.NeverDescendsPruned | src/analyze_folder_for_llm/main.py:80-84 | no file the walk reaches lies below a directory whose name matches an exclude pattern, at any depth |
| Analyzer.PruningMatchesLeafFilter | src/analyze_folder_for_llm/main.py:78-88 | pruning directories before descent accepts exactly the files that an unpruned walk filtered file by file would accept, in the same order |
| Analyzer.ScanStructure | src/analyze_folder_for_llm/main.py:76-92 | `structure` lists the relative paths of exactly the accepted files, in walk order, all of type `"file"` |
| Analyzer.StructureAvoidsExcluded | src/analyze_folder_for_llm/main.py:47-52 | no `structure` path has a segment that matches an exclude pattern |
| Analyzer.ScanKeysListed | src/analyze_folder_for_llm/main.py:76-100 | every `file_contents` key is a path listed in `structure` |
| Analyzer.OnlyReadmeAtReadmePath | src/analyze_folder_for_llm/main.py:97-100 | among files with valid paths, only the README itself sits at the README's path, and it is never stored there |
| Analyzer.ReadmeNeverStored | src/analyze_folder_for_llm/main.py:97-100 | a README's path is never a key of `file_contents` |
| Walk.RelPath | src/analyze_folder_for_llm/main.py:87-89 | definition of `os.path.relpath(os.path.join(root, file), top)` for a reached file; ReachedUniquePaths and ScanStructure state its properties |
| Walk.Reached | src/analyze_folder_for_llm/main.py:78-84 | definition of the files `os.walk` reaches with pruning; its properties are stated in ReachedShape, PruningInvisible, ReachedUniquePaths and PopFrame |
| Walk.ReachedAll | src/analyze_folder_for_llm/main.py:78-84 | definition of the files reached from a list of directories in turn; its properties are stated with Reached's |
| Walk.ReachedDistinct | src/analyze_folder_for_llm/main.py:78-89 | in a well-named tree the walk reaches no two files along the same sequence of names |
| Walk.ReachedUniquePaths | src/analyze_folder_for_llm/main.py:78-89 | in a well-named tree the files the walk reaches have pairwise distinct relative paths |
| Walk.FilterUnique | src/analyze_folder_for_llm/main.py:86-88 | selecting from files with distinct paths keeps the paths distinct |
| Walk.Kept | src/analyze_folder_for_llm/main.py:80-84 | the pruned `dirs` list holds exactly the subdirectories whose names are kept; their order is stated in KeptAppend and KeptSingle |
| Walk.KeptAppend | src/analyze_folder_for_llm/main.py:80-84 | pruning a listing in two parts prunes each part in turn, so the kept subdirectories stay in listing order |
| Walk.KeptSingle | src/analyze_folder_for_llm/main.py:80-84 | one subdirectory is kept exactly when its name is |
| Walk.FileVisits | src/analyze_folder_for_llm/main.py:86-87 | one visit per file of the directory, in listing order, each at the directory's path plus the file's name |
| Walk.ReachedShape | src/analyze_folder_for_llm/main.py:78-84 | every file the walk reaches lies strictly below the start, through kept directories only, with a path of valid names in a well-named tree |
| Walk.PruningInvisible | src/analyze_folder_for_llm/main.py:78-84 | a selection that never accepts files below a pruned name selects the same files from the pruned walk as from the full walk |
| Walk.FilterAppend | src/analyze_folder_for_llm/main.py:86-88 | selecting from consecutive parts of the walk is selecting from each part in turn |
| Walk.PopFrame | src/analyze_folder_for_llm/main.py:78-84 | one `os.walk` step: the top directory's files come first, then its kept subdirectories take its place on the stack, and the stack shrinks |
| Paths.Join | src/analyze_folder_for_llm/main.py:87-89 | definition of a relative path as its names joined by `/`; SplitJoin, JoinSplit and JoinInjective state its properties |
| Paths.Split | src/analyze_folder_for_llm/main.py:42 | `str.split` always yields at least one part |
| Paths.SplitJoin | src/analyze_folder_for_llm/main.py:41-42 | splitting a path joined from separator-free names gives back those names |
| Paths.JoinSplit | src/analyze_folder_for_llm/main.py:41-42 | joining the parts of a split gives back the string |
| Paths.JoinInjective | src/analyze_folder_for_llm/main.py:87-89 | two non-empty sequences of valid names with the same relative path are equal |
| Glob.Matches | src/analyze_folder_for_llm/main.py:48 | definition of `fnmatch.fnmatch` on `*`, `?` and literal characters; its properties are stated in LiteralMatchesItself, StarMatchesAll, StarSuffix and NoStarFixesLength |
| Glob.LiteralMatchesItself | src/analyze_folder_for_llm/main.py:48 | a pattern without wildcards matches exactly itself |
| Glob.StarMatchesAll | src/analyze_folder_for_llm/main.py:57 | `*` matches every string |
| Glob.StarSuffix | src/analyze_folder_for_llm/main.py:57 | `*` followed by a literal suffix matches exactly the strings ending with that suffix, `/` included |
| Glob.NoStarFixesLength | src/analyze_folder_for_llm/main.py:48 | a pattern without `*` only matches strings of its own length |
| AnalyzerExamples.SelectedLiteralAndStar | tests/test_folder_analyzer.py:59-88 | with a literal exclude name and a `*suffix` include pattern, a path is accepted exactly when no segment is the excluded name and the path ends with the suffix |
| AnalyzerExamples.StarCrossesSeparator | tests/test_folder_analyzer.py:67-74 | `*.py` accepts `subfolder/test.py` and rejects `test.txt` |
| AnalyzerExamples.InitializationExample | tests/test_folder_analyzer.py:51-56 | without override lists the preset's lists become the rule sets; a given list replaces them |
| AnalyzerExamples.AnalyzeFolderExample | tests/test_folder_analyzer.py:19-48 | on the test's tree and preset, `structure` lists `README.md` and `main.py` only, `readme` is the README's text and `file_contents` holds only `main.py`'s text |
| Output.ReadmeSummary | src/analyze_folder_for_llm/main.py:115-119 | no README or an empty one gives "No README found"; otherwise the README's first 500 characters (all of a shorter one) followed by "..." |
| Output.GenerateStructuredOutput | src/analyze_folder_for_llm/main.py:111-134 | definition of the three computed fields of the JSON summary; its properties are stated in ReadmeSummary and StructuredOutputOfScan |
| Output.StructuredOutputOfScan | src/analyze_folder_for_llm/main.py:113-120 | the JSON summary of an analysis carries the path, lists the accepted files in walk order, and has the sentinel summary when no decodable README was accepted |
| Output.Heading | src/analyze_folder_for_llm/main.py:140 | definition of the heading line; GenerateContentFile and ContentTextOfScan place it first |
| Output.ReadmeBlock | src/analyze_folder_for_llm/main.py:142-146 | definition of the README section, empty for a missing or empty README; GenerateContentFile and ContentTextOfScan place it |
| Output.FileBlock | src/analyze_folder_for_llm/main.py:148-152 | definition of one entry's block; WriteFileBlocks, FileBlockAt and FileBlocksOfStored state where it appears |
| Output.ContentText | src/analyze_folder_for_llm/main.py:140-152 | definition of the whole contents-file text; GenerateContentFile proves the writes produce it and ContentTextOfScan states it for a scan |
| Output.GenerateContentFile | src/analyze_folder_for_llm/main.py:139-152 | the written text is the heading, the README section only for a non-empty README, then one block per `file_contents` entry |
| Output.WriteFileBlocks | src/analyze_folder_for_llm/main.py:148-152 | the loop appends the blocks of all entries, in the dict's insertion order |
| Output.FileBlockAt | src/analyze_folder_for_llm/main.py:148-152 | each entry's block appears whole, after the blocks of earlier entries and before those of later ones |
| Output.ContentTextOfScan | src/analyze_folder_for_llm/main.py:140-152 | for a well-named tree, the contents-file text is the heading, the README section, then one block per accepted decodable non-README file in walk order |
| Output.FileBlocksOfStored | src/analyze_folder_for_llm/main.py:148-152 | the blocks of the stored entries of a sequence of files are those files' blocks, in order |
| Output.FileBlocksAppend | src/analyze_folder_for_llm/main.py:148-152 | the blocks of two consecutive parts of the dict are the blocks of each part in turn |
| Concatenate.KeepSourceDir | copy_py_files.py:8 | definition of the directory filter; SkippedDirsNeverEntered states its effect |
| Concatenate.Emitted | copy_py_files.py:11-13 | definition of the file filter; CopiedSubset and ScriptNeverCopied state its effect |
| Concatenate.Header | copy_py_files.py:17-18 | definition of a file's header; CompletedText and StoppedAtUnreadable place it |
| Concatenate.Emit | copy_py_files.py:10-21 | definition of a run over reached files; its properties are stated in EmitAppend, CompletedIffReadable, CompletedText and StoppedAtUnreadable |
| Concatenate.Concatenation | copy_py_files.py:4-21 | definition of the whole run on a tree; ConcatenateFiles proves the loop produces it, and CompletedIffReadable, CompletedText and StoppedAtUnreadable state its text through Emit |
| Concatenate.ConcatenateFiles | copy_py_files.py:4-21 | the iterative walk writes exactly the text of the specification `Concatenation`, and reports completion exactly as it does |
| Concatenate.EmitFiles | copy_py_files.py:10-21 | one directory's files: the text and completion of the specification on those files |
| Concatenate.EmitAppend | copy_py_files.py:6-21 | a run over two parts continues into the second only if the first completed, and otherwise is the run over the first |
| Concatenate.CompletedIffReadable | copy_py_files.py:11-21 | the run completes exactly when every copied file decodes |
| Concatenate.CompletedText | copy_py_files.py:11-21 | a completed run's text is the header and text of each copied file, in walk order, and nothing else |
| Concatenate.StoppedAtUnreadable | copy_py_files.py:10-21 | an unfinished run stops at the first copied file that does not decode: every earlier copied file decodes, and the text is their blocks followed by that file's header |
| Concatenate.SkippedDirsNeverEntered | copy_py_files.py:6-8 | no file under a `__pycache__`, `output` or `venv` directory is reached, at any depth |
| Concatenate.ScriptNeverCopied | copy_py_files.py:11-13 | no copied file bears the script's own name, in any directory |
| Concatenate.CopiedSubset | copy_py_files.py:11-13 | every copied file is a reached file that is a `.py` file or `README.md` and not named like the script |

## Left out

- File I/O is not modelled. Opening, reading and writing files, `os.makedirs` of the output directory and the output file names are left out. The folder is an immutable tree given as input, and outputs are returned as values.
- `os.path.abspath`, `os.path.expanduser` and `os.path.relpath` are not modelled. The scan root is taken as given and every path is relative to it.
- Symbolic links, special files and permission errors are not modelled. `os.walk` silently skips unreadable directories; the model has none.
- The directory and file order is not modelled. `os.walk` yields entries in the order the operating system lists them; the model takes that order as part of the tree.
- The `rich` console messages and the `print` in `concatenate_files` are left out. They do not affect any result.
- `json.dumps` formatting and the constant `analysis_prompts` list are left out. The model keeps the three computed fields of the JSON summary.
- `load_preset` is not part of this model, and neither are the YAML preset format and the `typer` command line. A preset is given as its two lists.
- Glob: `fnmatch` bracket classes (`[...]`) are left out, and patterns are treated as plain text apart from `*` and `?`. On POSIX `fnmatch` is case-sensitive, as modelled.
- The final "Total files included" message of `analyze_folder` is left out. The count itself is the length of `includedFiles`, which `AnalyzeFolder` does state.
