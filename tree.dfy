/**
 * The directory tree read_source_files walks, the configuration it walks it
 * with, and the per-directory and per-file rules it applies.  The real file
 * system is replaced by a value: every directory lists its files (each with the
 * outcome of reading it as UTF-8 text) and its subdirectories.
 */
module Tree {
  import opened Strings
  import opened Paths

  datatype Option<T> = None | Some(value: T)

  datatype Result<T, E> = Success(value: T) | Failure(error: E)

  /** What `open(path, 'r', encoding='utf-8').read()` does with one file. */
  datatype Contents =
    | Text(decoded: string)        // the file decodes; the characters before newline translation
    | Undecodable                  // UnicodeDecodeError
    | Unreadable(reason: string)   // any other exception while opening or reading

  datatype File = File(name: string, contents: Contents)

  datatype Dir = Dir(name: string, files: seq<File>, subdirs: seq<Dir>)

  /** What the resolved source path turns out to be. */
  datatype Source = Missing | NotADirectory | Directory(top: Dir)

  /** `mimetypes.guess_type(...)[0]`: a type string, or None when unknown. */
  datatype MimeGuess = Unknown | Guessed(mime: string)

  /**
   * The walk's configuration.  `guess` stands for the mimetypes table, a
   * foreign library consulted with the file's name.
   */
  datatype Config = Config(excludeDirs: seq<string>, includeExtensions: seq<string>, guess: string -> MimeGuess)

  /** The default `exclude_dirs` list. */
  const DefaultExcludeDirs: seq<string> := [
    ".git", "node_modules", "__pycache__", "venv",
    "build", "dist", "coverage", ".next", ".cache",
    "lib", ".npm", ".yarn", "bower_components",
    ".vscode", ".idea", ".vs"
  ]

  /** The default `include_extensions` list. */
  const DefaultIncludeExtensions: seq<string> := [
    ".py", ".js", ".jsx", ".ts", ".tsx",
    ".html", ".css", ".scss", ".sass",
    ".java", ".cpp", ".c", ".h", ".hpp",
    ".rb", ".php", ".go", ".rs", ".swift",
    ".json", ".yml", ".yaml", ".toml",
    ".md", ".env", ".gitignore", ".eslintrc",
    ".prettierrc", ".babelrc"
  ]

  /** Lower-cased names of lock files, skipped whatever their extension. */
  const LockFiles: seq<string> := [
    "package-lock.json", "yarn.lock", "poetry.lock",
    "pipfile.lock", "cargo.lock", "go.sum"
  ]

  /** Names whose presence makes a subdirectory a separate package. */
  const PackageMarkers: seq<string> := [
    "package.json", "setup.py", "requirements.txt", "Cargo.toml", "go.mod"
  ]

  /** A `None` argument means the default list; any list given is used as it is. */
  function OrDefault(given: Option<seq<string>>, default: seq<string>): seq<string>
  {
    match given
    case Some(list) => list
    case None => default
  }

  // ---------------------------------------------------------------------------
  // Directory rules

  /**
   * `(Path(root) / dir / marker).exists()` for some marker: a file or a
   * directory of that exact name directly inside `d`.
   */
  predicate HasMarker(d: Dir)
  {
    || (exists i :: 0 <= i < |d.files| && d.files[i].name in PackageMarkers)
    || (exists i :: 0 <= i < |d.subdirs| && d.subdirs[i].name in PackageMarkers)
  }

  /** A subdirectory the walk does not descend into. */
  predicate Pruned(d: Dir, excludeDirs: seq<string>)
  {
    d.name in excludeDirs || HasMarker(d)
  }

  // ---------------------------------------------------------------------------
  // File rules

  predicate IsLockFile(name: string)
  {
    Lower(name) in LockFiles
  }

  predicate HasIncludedSuffix(name: string, includeExtensions: seq<string>)
  {
    Lower(Suffix(name)) in includeExtensions
  }

  /** `mime_type and not mime_type.startswith('text/')`. */
  predicate GuessedNonText(g: MimeGuess)
  {
    g.Guessed? && g.mime != "" && !StartsWith(g.mime, "text/")
  }

  /** The file passes every filter and the walk goes on to read it. */
  predicate Admitted(f: File, cfg: Config)
  {
    !IsLockFile(f.name) && HasIncludedSuffix(f.name, cfg.includeExtensions) && !GuessedNonText(cfg.guess(f.name))
  }

  // ---------------------------------------------------------------------------
  // Shape of a real directory tree

  predicate DistinctFileNames(fs: seq<File>)
  {
    forall i, j :: 0 <= i < j < |fs| ==> fs[i].name != fs[j].name
  }

  predicate DistinctDirNames(ds: seq<Dir>)
  {
    forall i, j :: 0 <= i < j < |ds| ==> ds[i].name != ds[j].name
  }

  /**
   * What every real directory tree satisfies: within one directory the names
   * differ, and no name contains the separator.
   */
  ghost predicate WellFormed(d: Dir)
  {
    && DistinctFileNames(d.files)
    && DistinctDirNames(d.subdirs)
    && (forall f :: f in d.files ==> Sep !in f.name)
    && (forall s :: s in d.subdirs ==> Sep !in s.name && WellFormed(s))
  }

  /** The names along a chain of directories. */
  function Names(chain: seq<Dir>): (r: seq<string>)
    ensures |r| == |chain|
  {
    if chain == [] then [] else [chain[0].name] + Names(chain[1..])
  }

  /**
   * `f` lies in the directory reached from `d` by stepping into `chain[0]`,
   * then `chain[1]`, and so on; its root-relative path is
   * `Names(chain) + [f.name]`.
   */
  ghost predicate FileUnder(d: Dir, chain: seq<Dir>, f: File)
    decreases |chain|
  {
    if chain == [] then f in d.files
    else chain[0] in d.subdirs && FileUnder(chain[0], chain[1..], f)
  }

  /** No directory on the chain is pruned (the root itself is not on it). */
  predicate Visible(chain: seq<Dir>, excludeDirs: seq<string>)
  {
    forall i :: 0 <= i < |chain| ==> !Pruned(chain[i], excludeDirs)
  }

  /** The root-relative path of a file in a well-formed tree has separator-free components. */
  lemma {:induction false} FileUnderSepFree(d: Dir, chain: seq<Dir>, f: File)
    requires WellFormed(d) && FileUnder(d, chain, f)
    ensures SepFree(Names(chain) + [f.name])
    decreases |chain|
  {
    if chain != [] {
      FileUnderSepFree(chain[0], chain[1..], f);
      assert Names(chain) + [f.name] == [chain[0].name] + (Names(chain[1..]) + [f.name]);
    }
  }

  /**
   * None of the dot-file entries of the default extension list can ever match
   * the file it is named after: such a name has no suffix.
   */
  lemma DefaultDotFileEntriesNeverMatch(name: string)
    requires name in [".env", ".gitignore", ".eslintrc", ".prettierrc", ".babelrc"]
    ensures Suffix(name) == ""
    ensures !HasIncludedSuffix(name, DefaultIncludeExtensions)
  {
    DotFileHasNoSuffix(name);
    assert Lower("") == "";
  }
}
