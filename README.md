# read.py, modelled in Dafny

`read.py` gathers the source files of a project and formats them into one
shareable text. This project models its two pieces of logic.

- `read_source_files` walks a directory tree top-down, the way `os.walk` does.
  - It prunes subdirectories whose name is in `exclude_dirs`.
  - It also prunes subdirectories that directly hold a package marker (`package.json`, `setup.py`, `requirements.txt`, `Cargo.toml`, `go.mod`).
  - It skips lock files and files whose lower-cased `pathlib` suffix is not in `include_extensions`.
  - It skips files that a mimetype guess calls non-text.
  - It reads each remaining file as UTF-8 text and stores it under its root-relative path.
  - A file that cannot be decoded or read is skipped with a warning.
  - A missing source path is an error.
- `format_for_sharing` turns the collected dictionary into one string.
  - An empty dictionary gives `"No code files found"`.
  - Otherwise each file becomes a block, in ascending order of path. A block is a header `"\n=== path ===\n"`, the file's text, and `"\n"` + 80 `=` + `"\n"`.

The real file system is replaced by a value:

- a `Dir` has a name, its files and its subdirectories, each list in the order the directory listing gives them;
- a `File` has a name and the outcome of reading it: `Text(decoded)`, `Undecodable` or `Unreadable(reason)`.

The modules are:

- `Strings`: `str.lower`, Python's ordering of strings, and the newline translation of text-mode reads.
- `Paths`: joining path components, and `PurePath.suffix`.
- `Tree`: the tree, the configuration and the filter rules.
- `SourceWalk`: the walk, in two forms.
  - As functions, it is a fold over the tree in `os.walk`'s top-down order.
  - As imperative methods, it is the program's own loops. They mutate `dirs` with `dirs[:] = …` and `dirs.remove`, and fill `code_files`. The methods are proved equal to the functions.
- `WalkProofs`: what the walk collects, stated against the tree alone, and the rules that follow from it.
- `Formatter`: the sorted keys, the rendered text, and the loop that builds it.

Two behaviours of the code are reproduced rather than smoothed over.

- Files are opened in text mode with Python's default newline handling. A stored text is therefore the decoded text with `"\r\n"` and lone `"\r"` turned into `"\n"`. It is the file's text unchanged only when the file has no carriage return. A byte-for-byte reading of "content stored unchanged" does not hold for files with Windows line endings, and the model follows the code (`UniversalNewlines`).
- `PurePath(".gitignore").suffix` is empty. So the default entries `.env`, `.gitignore`, `.eslintrc`, `.prettierrc` and `.babelrc` never match the files they are named after (`Tree.DefaultDotFileEntriesNeverMatch`).

## Model

| member | source | states |
|---|---|---|
| Strings.Lower | read.py:62-69 | definition: `str.lower()`, character by character, on ASCII letters |
| Strings.LowerFoldsCase | read.py:62-69 | lower-casing keeps the length, leaves no capital letter, changes a name without capitals not at all, and a second lower-casing changes nothing |
| Strings.StartsWith | read.py:73 | definition: `s.startswith(prefix)`, the prefix is at most as long and equals the start of `s` |
| Strings.Less | read.py:99 | definition: Python's `<` on strings, code point by code point, a proper prefix sorting first |
| Strings.LessIrreflexive | read.py:99 | no path sorts before itself under Python's string order |
| Strings.LessTransitive | read.py:99 | Python's string order is transitive |
| Strings.LessTotal | read.py:99 | any two different paths are ordered one way or the other, so `sorted` has one answer |
| Strings.UniversalNewlines | read.py:77-78 | text read in text mode is no longer than the decoded text and contains no carriage return |
| Strings.UniversalNewlinesKeepsPlainText | read.py:77-78 | a decoded text without carriage returns is read back exactly as it is |
| Strings.UniversalNewlinesIdempotent | read.py:77-78 | translating newlines a second time changes nothing |
| Paths.JoinPath | read.py:81-82 | definition: `str(relative_path)`, the components joined by one separator |
| Paths.JoinPathInjective | read.py:81-82 | two relative paths whose components hold no separator give the same key only if they are the same path, so no file can overwrite another's entry |
| Paths.LastIndexOf | read.py:69 | the result is the last position of the character, or -1 when it does not occur |
| Paths.Suffix | read.py:69 | a suffix is empty or a dot followed by dot-free text that ends the name and is shorter than it |
| Paths.SuffixNonEmptyIff | read.py:69 | a name has a suffix exactly when a dot stands after its first character and the name does not end in a dot |
| Paths.DotFileHasNoSuffix | read.py:69 | a name made of a leading dot and dot-free text, such as `.gitignore`, has no suffix |
| Tree.DefaultExcludeDirs | read.py:18-23 | definition: the sixteen directory names excluded when `exclude_dirs` is `None` |
| Tree.DefaultIncludeExtensions | read.py:26-34 | definition: the twenty-nine suffixes included when `include_extensions` is `None` |
| Tree.LockFiles | read.py:62-65 | definition: the six lower-cased lock-file names skipped whatever their suffix |
| Tree.PackageMarkers | read.py:48-54 | definition: the five file names whose presence makes a subdirectory a separate package |
| Tree.OrDefault | read.py:17-34 | definition: `None` stands for the default list, any given list is used unchanged |
| Tree.HasMarker | read.py:47-55 | definition: a file or a subdirectory directly inside the directory has one of the five marker names |
| Tree.IsLockFile | read.py:62-66 | definition: the lower-cased name is one of the six lock-file names |
| Tree.HasIncludedSuffix | read.py:69 | definition: the lower-cased `pathlib` suffix is in `include_extensions` |
| Tree.GuessedNonText | read.py:72-73 | definition: a mimetype was guessed, it is not empty and it does not start with `text/` |
| Tree.Pruned | read.py:44-56 | definition: a subdirectory is not descended into when its name is excluded or it holds a package marker |
| Tree.Admitted | read.py:62-74 | definition: the file is no lock file, has an included suffix and is not guessed non-text, so the walk opens it |
| Tree.DefaultDotFileEntriesNeverMatch | read.py:32-33 | the dot-file entries of the default extension list never admit the file named after them |
| SourceWalk.WithoutExcluded | read.py:44 | definition: the comprehension over `dirs` that drops excluded names, order kept |
| SourceWalk.Kept | read.py:44-56 | definition: the subdirectories left after the exclusion comprehension and then the marker loop, in listed order |
| SourceWalk.WithoutPackages | read.py:47-56 | definition: the subdirectories left, in order, after each one holding a marker is dropped |
| SourceWalk.WarningFor | read.py:84-87 | definition: the decode warning or the read error for a file's relative path, with the error's text |
| SourceWalk.FileStep | read.py:58-87 | definition: one turn of `for file in files`: a filtered file changes nothing, a read text is stored under its key, a failed read appends its warning |
| SourceWalk.VisitFiles | read.py:58-87 | definition: the turns of the file loop in listed order |
| SourceWalk.Walk | read.py:42-87 | definition: `os.walk` top-down, the directory's files first, then each kept subdirectory in turn |
| SourceWalk.WalkKids | read.py:42-56 | definition: the walks of the kept subdirectories, one after the other |
| SourceWalk.Collect | read.py:36-89 | definition: the walk from the root with an empty `code_files` and no warnings |
| SourceWalk.RemoveFirst | read.py:56 | definition: `list.remove(name)`, dropping the first entry with that name |
| SourceWalk.WithoutExcludedMembers | read.py:44 | after `dirs[:] = …` a subdirectory remains exactly when its name is not in `exclude_dirs`; names stay distinct |
| SourceWalk.WithoutPackagesMembers | read.py:47-56 | a subdirectory survives the marker loop exactly when it directly holds no file or directory named like a package marker |
| SourceWalk.KeptMembers | read.py:44-56 | the walk descends into exactly the subdirectories that are neither excluded by name nor marked as a package |
| SourceWalk.RemoveFirstAt | read.py:56 | `list.remove(name)` drops an entry at its own position when no earlier entry has its name |
| SourceWalk.PruneStepMarked | read.py:55-56 | removing a marked subdirectory by name, part-way through the loop, leaves the pruned prefix and the untouched rest |
| SourceWalk.PruneStepUnmarked | read.py:47-56 | an unmarked subdirectory stays where it is |
| SourceWalk.PruneDirs | read.py:44-56 | the in-place pruning of `dirs` leaves exactly the kept subdirectories, in their listed order |
| SourceWalk.CollectFiles | read.py:58-87 | the file loop of one directory adds exactly what the per-file rules prescribe, file by file in listed order |
| SourceWalk.WalkTree | read.py:42-87 | the top-down walk with in-place pruning produces the fold of the per-directory rules over the tree |
| SourceWalk.ReadSourceFiles | read.py:17-89 | `None` means the default lists; a missing source is the only error; a path that is not a directory yields an empty result; a directory yields what the walk collects |
| WalkProofs.FileStepGrows | read.py:69-87 | handling one file writes at most that file's own entry, under its key and with its newline-translated text, or appends at most one warning, its own |
| WalkProofs.VisitFilesGrows | read.py:58-87 | a directory's file loop writes only entries and warnings of the admitted files it lists |
| WalkProofs.OwnFilesFound | read.py:58-87 | the entries and warnings of a directory's own files are among those found below the directory |
| WalkProofs.WalkGrows | read.py:42-87 | the walk below a directory writes nothing but entries and warnings of files it opens below it |
| WalkProofs.WalkKidsGrows | read.py:42-56 | walking the kept subdirectories writes only what is found below them |
| WalkProofs.LiftKids | read.py:42-56 | what is found below a kept subdirectory is found below its parent |
| WalkProofs.FileKeysDiffer | read.py:81-82 | two differently named files of one directory never share a key |
| WalkProofs.OwnKeyNotBelow | read.py:81-82 | a file of a directory and a file below one of its subdirectories never share a key |
| WalkProofs.SiblingKeyDiffers | read.py:81-82 | files below two differently named subdirectories never share a key |
| WalkProofs.OwnKeyOutsideKids | read.py:81-82 | the walk of the subdirectories never writes the key of a file of the directory itself |
| WalkProofs.SiblingKeysDiffer | read.py:81-82 | the walk of one subdirectory never writes a key found below a sibling |
| WalkProofs.VisitFilesComplete | read.py:58-87 | after the file loop every admitted file of the directory is stored under its key or has its warning |
| WalkProofs.WalkComplete | read.py:42-87 | after the walk every file it opens is stored under its root-relative path with its text, or has its warning |
| WalkProofs.WalkKidsComplete | read.py:42-87 | walking later siblings never overwrites what an earlier sibling stored |
| WalkProofs.OwnFilesStay | read.py:42-87 | after the walk below a directory, each of its own admitted files is still stored with its text, or still has its warning |
| WalkProofs.OwnNotesApart | read.py:84-87 | the warnings for a directory's own files are none of those from below its subdirectories |
| WalkProofs.OtherFileNotesApart | read.py:84-87 | the warning for one file is none of the warnings for differently named files beside it |
| WalkProofs.OtherKidNotesApart | read.py:84-87 | warnings from below one subdirectory are none of those from below a differently named sibling |
| WalkProofs.VisitFilesWarnsOnce | read.py:58-87 | a directory's file loop never appends the same warning twice |
| WalkProofs.WalkWarnsOnce | read.py:42-87 | the walk below a directory never appends the same warning twice |
| WalkProofs.WalkKidsWarnsOnce | read.py:42-87 | walking the kept subdirectories in turn never appends the same warning twice |
| WalkProofs.EntryOrigin | read.py:80-82 | every entry of the result is the text of a file the walk opened, under that file's relative path |
| WalkProofs.WarningOrigin | read.py:84-87 | every warning names a file the walk opened and could not read |
| WalkProofs.CollectExactly | read.py:36-89 | the result holds exactly the opened text files, each under its path; the warnings are exactly those of the opened unreadable files, and no warning occurs twice, so each such file is warned about once |
| WalkProofs.ReachesFromChain | read.py:42-74 | a file below unpruned directories that passes every filter is opened |
| WalkProofs.ReachesAlong | read.py:42-74 | the only file opened under a file's path is that file, and only when it and every directory above it pass |
| WalkProofs.UnopenedFileLeavesNoTrace | read.py:42-74 | a file below a pruned directory or rejected by a filter is neither collected nor named in a warning |
| WalkProofs.ExcludedDirectoryHidden | read.py:44 | nothing at any depth below a directory named in `exclude_dirs` is collected |
| WalkProofs.PackageDirectoryHidden | read.py:47-56 | nothing at any depth below a subdirectory holding a package marker is collected |
| WalkProofs.LockFileNeverCollected | read.py:62-66 | a lock file is never collected, whatever its suffix |
| WalkProofs.CollectedFilePassedFilters | read.py:62-74 | every collected file lies below kept directories, is no lock file, has a listed lower-cased suffix and was not guessed non-text |
| WalkProofs.OpenedTextFileCollected | read.py:77-82 | an opened file that decodes is stored under its relative path with its newline-translated text, which is its exact text when it has no carriage return |
| WalkProofs.FailedReadSkipsOnlyThatFile | read.py:84-87 | an opened file that fails to decode or read is absent from the result and has a warning |
| WalkProofs.RootNeverPruned | read.py:42-56 | markers or an excluded name on the root itself prune nothing |
| Formatter.NoFilesMessage | read.py:96 | definition: `"No code files found"`, returned for an empty dictionary |
| Formatter.Trailer | read.py:102 | definition: `"\n" + "=" * 80 + "\n"`, appended after every file's text |
| Formatter.SortedKeys | read.py:99 | definition: the keys in strictly ascending order, each once, the order `sorted(code_files.items())` visits them |
| Formatter.Header | read.py:100 | definition: `f"\n=== {filepath} ===\n"` |
| Formatter.Block | read.py:100-102 | definition: the header, the content and the newline-framed rule of 80 `=`, in that order |
| Formatter.Join | read.py:104 | definition: `"".join(parts)` |
| Formatter.Render | read.py:99-102 | definition: the blocks of the listed keys, in the order listed |
| Formatter.Format | read.py:95-104 | definition: the message for an empty dictionary, otherwise the blocks in ascending key order |
| Formatter.Insert | read.py:99 | inserting a new key into an ascending list keeps it ascending and adds exactly that key |
| Formatter.SortedListingExists | read.py:99 | every set of keys has an ascending listing |
| Formatter.SortedListingUnique | read.py:99 | a set of keys has only one ascending listing |
| Formatter.SortKeys | read.py:99 | the keys come out in strictly ascending order, each exactly once |
| Formatter.RenderAppend | read.py:99-102 | rendering two runs of files is rendering each in turn |
| Formatter.JoinBlock | read.py:100-102 | the three pieces appended for one file join to its block |
| Formatter.FormatNoFilesIff | read.py:95-96 | the text is `"No code files found"` exactly when there are no files |
| Formatter.FormatBlockAt | read.py:99-104 | the text is the blocks of all files in ascending path order; each block holds its file's text unchanged |
| Formatter.SizeOfAny | read.py:99-104 | the total size of the entries does not depend on the order they are summed in |
| Formatter.ListingSize | read.py:99-104 | the rendering of a listing is as long as the total size of the entries listed |
| Formatter.FormatLength | read.py:95-104 | the text is as long as the sum over entries of the path's length, the text's length and 92 |
| Formatter.FormatForSharing | read.py:91-104 | the loop over sorted items and the final join produce exactly `Format`: the message for no files, or the ascending blocks |

## Left out

- The `__main__` block (read.py:106-122): writing `source_code_output.txt` and printing. It is I/O only.
- The hard-coded default `src_path` (read.py:5). The source is a parameter.
- The real file system: `Path.resolve`, `exists`, `os.walk` and `open`. They are replaced by the `Source` and `Dir` values.
  - The order of a directory listing is the order of the lists in the value.
  - Directories `os.walk` cannot list, symlinks and concurrent changes are not modelled.
  - In particular, a subdirectory without search permission makes `Path.exists()` at read.py:55 raise `PermissionError` on Python up to 3.12. That aborts the whole call, an error the model cannot produce. So "a missing source is the only error" holds for the trees the model represents.
- Real directory trees have distinct, separator-free names within each directory. The walk lemmas and `WalkTree` require this as `WellFormed`.
- `mimetypes.guess_type`: an uninterpreted `guess` on the file name stands in for its table. The source passes the whole path, but the guess depends on the name's extension.
- UTF-8 decoding: each file carries the outcome of reading it. An exception raised by `guess_type` or `relative_to` is not modelled, since neither fails on the inputs the walk gives them.
- The text of the printed messages: a warning records its kind and the file's relative path (the source prints the absolute path), in walk order.
- The platform separator of `str(relative_path)`: components are joined with one separator, `/`, as on POSIX.
  - On Windows the separator is `\`. That changes the order `sorted` gives: `"a/z.py"` sorts before `"a1.py"`, but `"a\z.py"` sorts after it. The formatted order is therefore the POSIX one.
- Strings.LowerChar: maps ASCII letters only. Python's `str.lower` also folds non-ASCII letters, which matters only for lock-file names and suffixes outside ASCII.
- Tree.HasMarker: marker names compare case-sensitively, as on a case-sensitive file system.
- Formatter.SortKeys: `sorted(code_files.items())` is modelled by sorting the keys. Keys in a dictionary are distinct, so pairs compare by key alone.
- Strings.Less: compares Dafny characters, which stand for code points.
