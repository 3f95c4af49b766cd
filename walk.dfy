/**
 * read_source_files: a top-down walk of the source tree that prunes
 * subdirectories, filters files and collects the text of the survivors under
 * their root-relative paths, logging a warning for each file it cannot read.
 *
 * The functions give the result of the walk as a value; the methods do the
 * walk the way the program does, step by step, and are proved to produce it.
 */
module SourceWalk {
  import opened Strings
  import opened Paths
  import opened Tree

  /** A warning printed for a file that could not be read. */
  datatype Warning =
    | DecodeFailed(path: string)
    | ReadFailed(path: string, reason: string)

  /** The `code_files` dictionary together with the warnings printed so far. */
  datatype Harvest = Harvest(codeFiles: map<string, string>, warnings: seq<Warning>)

  datatype SourceError = SourceNotFound

  const Empty := Harvest(map[], [])

  function WarningFor(key: string, c: Contents): Warning
    requires !c.Text?
  {
    match c
    case Undecodable => DecodeFailed(key)
    case Unreadable(why) => ReadFailed(key, why)
  }

  // ---------------------------------------------------------------------------
  // The walk as a value

  /** `dirs[:] = [d for d in dirs if d not in exclude_dirs]`. */
  function WithoutExcluded(ds: seq<Dir>, excludeDirs: seq<string>): seq<Dir>
  {
    if ds == [] then []
    else (if ds[0].name in excludeDirs then [] else [ds[0]]) + WithoutExcluded(ds[1..], excludeDirs)
  }

  /** The subdirectories left after removing every one that holds a package marker. */
  function WithoutPackages(ds: seq<Dir>): seq<Dir>
  {
    if ds == [] then []
    else
      var last := ds[|ds| - 1];
      WithoutPackages(ds[..|ds| - 1]) + (if HasMarker(last) then [] else [last])
  }

  /** The subdirectories the walk descends into, in the order it visits them. */
  function Kept(ds: seq<Dir>, excludeDirs: seq<string>): seq<Dir>
  {
    WithoutPackages(WithoutExcluded(ds, excludeDirs))
  }

  /** Adding one entry with a fresh name to a list of distinct names keeps them distinct. */
  lemma DistinctAppend(a: seq<Dir>, b: seq<Dir>)
    requires DistinctDirNames(a) && DistinctDirNames(b)
    requires forall x, y :: x in a && y in b ==> x.name != y.name
    ensures DistinctDirNames(a + b)
  {
    forall i, j | 0 <= i < j < |a + b| ensures (a + b)[i].name != (a + b)[j].name {
      if j < |a| {
        assert (a + b)[i] == a[i] && (a + b)[j] == a[j];
      } else if i >= |a| {
        assert (a + b)[i] == b[i - |a|] && (a + b)[j] == b[j - |a|];
      } else {
        assert (a + b)[i] == a[i] && (a + b)[j] == b[j - |a|];
      }
    }
  }

  lemma {:induction false} WithoutExcludedMembers(ds: seq<Dir>, excludeDirs: seq<string>)
    ensures forall s :: s in WithoutExcluded(ds, excludeDirs) <==> s in ds && s.name !in excludeDirs
    ensures DistinctDirNames(ds) ==> DistinctDirNames(WithoutExcluded(ds, excludeDirs))
    decreases |ds|
  {
    if ds != [] {
      var head := if ds[0].name in excludeDirs then [] else [ds[0]];
      var rest := WithoutExcluded(ds[1..], excludeDirs);
      WithoutExcludedMembers(ds[1..], excludeDirs);
      assert ds == [ds[0]] + ds[1..];
      if DistinctDirNames(ds) {
        forall s | s in rest ensures s.name != ds[0].name {
          var j :| 0 <= j < |ds[1..]| && ds[1..][j] == s;
          assert ds[j + 1] == s;
        }
        assert DistinctDirNames(ds[1..]) by {
          forall i, j | 0 <= i < j < |ds[1..]| ensures ds[1..][i].name != ds[1..][j].name {
            assert ds[1..][i] == ds[i + 1] && ds[1..][j] == ds[j + 1];
          }
        }
        DistinctAppend(head, rest);
      }
    }
  }

  lemma {:induction false} WithoutPackagesMembers(ds: seq<Dir>)
    ensures forall s :: s in WithoutPackages(ds) <==> s in ds && !HasMarker(s)
    ensures DistinctDirNames(ds) ==> DistinctDirNames(WithoutPackages(ds))
    decreases |ds|
  {
    if ds != [] {
      var init := ds[..|ds| - 1];
      var last := ds[|ds| - 1];
      var tail := if HasMarker(last) then [] else [last];
      WithoutPackagesMembers(init);
      assert ds == init + [last];
      if DistinctDirNames(ds) {
        forall s | s in WithoutPackages(init) ensures s.name != last.name {
          var j :| 0 <= j < |init| && init[j] == s;
          assert ds[j] == s;
        }
        assert DistinctDirNames(init) by {
          forall i, j | 0 <= i < j < |init| ensures init[i].name != init[j].name {
            assert init[i] == ds[i] && init[j] == ds[j];
          }
        }
        DistinctAppend(WithoutPackages(init), tail);
      }
    }
  }

  /**
   * The walk descends into exactly the subdirectories that are neither
   * excluded by name nor marked as a separate package, and the names of those
   * it keeps stay distinct.
   */
  lemma KeptMembers(ds: seq<Dir>, excludeDirs: seq<string>)
    ensures forall s :: s in Kept(ds, excludeDirs) <==> s in ds && !Pruned(s, excludeDirs)
    ensures DistinctDirNames(ds) ==> DistinctDirNames(Kept(ds, excludeDirs))
  {
    WithoutExcludedMembers(ds, excludeDirs);
    WithoutPackagesMembers(WithoutExcluded(ds, excludeDirs));
  }

  /** One turn of `for file in files`, applied to the harvest so far. */
  function FileStep(h: Harvest, path: seq<string>, f: File, cfg: Config): Harvest
  {
    if !Admitted(f, cfg) then h
    else
      var key := JoinPath(path + [f.name]);
      match f.contents
      case Text(t) => h.(codeFiles := h.codeFiles[key := UniversalNewlines(t)])
      case _ => h.(warnings := h.warnings + [WarningFor(key, f.contents)])
  }

  /** The files of one directory, in the order listed, at relative directory `path`. */
  function VisitFiles(h: Harvest, path: seq<string>, fs: seq<File>, cfg: Config): Harvest
    decreases |fs|
  {
    if fs == [] then h
    else FileStep(VisitFiles(h, path, fs[..|fs| - 1], cfg), path, fs[|fs| - 1], cfg)
  }

  /**
   * os.walk top-down from `d`: the loop body handles `d`'s files, then the walk
   * descends into each kept subdirectory in turn.
   */
  function Walk(h: Harvest, path: seq<string>, d: Dir, cfg: Config): Harvest
    decreases d, 1, 0
  {
    KeptMembers(d.subdirs, cfg.excludeDirs);
    WalkKids(VisitFiles(h, path, d.files, cfg), path, d, Kept(d.subdirs, cfg.excludeDirs), cfg)
  }

  /** Walk each of `kids`, subdirectories of `parent`, one after the other. */
  function WalkKids(h: Harvest, path: seq<string>, parent: Dir, kids: seq<Dir>, cfg: Config): Harvest
    requires forall s :: s in kids ==> s in parent.subdirs
    decreases parent, 0, |kids|
  {
    if kids == [] then h
    else
      var last := kids[|kids| - 1];
      assert last in parent.subdirs;
      Walk(WalkKids(h, path, parent, kids[..|kids| - 1], cfg), path + [last.name], last, cfg)
  }

  /** Everything the walk collects from the root `top`. */
  function Collect(top: Dir, cfg: Config): Harvest
  {
    Walk(Empty, [], top, cfg)
  }

  // ---------------------------------------------------------------------------
  // The walk as the program does it

  /** `list.remove(name)`: drop the first entry with that name. */
  function RemoveFirst(ds: seq<Dir>, name: string): seq<Dir>
  {
    if ds == [] then []
    else if ds[0].name == name then ds[1..]
    else [ds[0]] + RemoveFirst(ds[1..], name)
  }

  lemma {:induction false} RemoveFirstAt(a: seq<Dir>, x: Dir, b: seq<Dir>)
    requires forall s :: s in a ==> s.name != x.name
    ensures RemoveFirst(a + [x] + b, x.name) == a + b
    decreases |a|
  {
    if a == [] {
      assert a + [x] + b == [x] + b;
      assert ([x] + b)[1..] == b;
    } else {
      assert (a + [x] + b)[0] == a[0];
      assert (a + [x] + b)[1..] == a[1..] + [x] + b;
      RemoveFirstAt(a[1..], x, b);
      assert a == [a[0]] + a[1..];
    }
  }

  lemma WithoutPackagesSnoc(snapshot: seq<Dir>, i: nat)
    requires i < |snapshot|
    ensures WithoutPackages(snapshot[..i + 1]) ==
      WithoutPackages(snapshot[..i]) + (if HasMarker(snapshot[i]) then [] else [snapshot[i]])
  {
    assert snapshot[..i + 1][..i] == snapshot[..i];
  }

  /** The entries kept before position `i` all have names other than entry `i`'s. */
  lemma KeptBeforeDiffer(snapshot: seq<Dir>, i: nat)
    requires DistinctDirNames(snapshot) && i < |snapshot|
    ensures forall s :: s in WithoutPackages(snapshot[..i]) ==> s.name != snapshot[i].name
  {
    WithoutPackagesMembers(snapshot[..i]);
    forall s | s in WithoutPackages(snapshot[..i]) ensures s.name != snapshot[i].name {
      var j :| 0 <= j < |snapshot[..i]| && snapshot[..i][j] == s;
      assert snapshot[j] == s;
    }
  }

  /**
   * One turn of `for dir in dirs[:]` on a marked entry: removing it by name
   * removes it at its own position, since names within a directory differ.
   */
  lemma PruneStepMarked(snapshot: seq<Dir>, i: nat)
    requires DistinctDirNames(snapshot) && i < |snapshot| && HasMarker(snapshot[i])
    ensures RemoveFirst(WithoutPackages(snapshot[..i]) + snapshot[i..], snapshot[i].name)
      == WithoutPackages(snapshot[..i + 1]) + snapshot[i + 1..]
  {
    var done := WithoutPackages(snapshot[..i]);
    WithoutPackagesSnoc(snapshot, i);
    KeptBeforeDiffer(snapshot, i);
    assert done + snapshot[i..] == done + [snapshot[i]] + snapshot[i + 1..];
    RemoveFirstAt(done, snapshot[i], snapshot[i + 1..]);
  }

  /** One turn of `for dir in dirs[:]` on an unmarked entry, which stays. */
  lemma PruneStepUnmarked(snapshot: seq<Dir>, i: nat)
    requires i < |snapshot| && !HasMarker(snapshot[i])
    ensures WithoutPackages(snapshot[..i]) + snapshot[i..] == WithoutPackages(snapshot[..i + 1]) + snapshot[i + 1..]
  {
    WithoutPackagesSnoc(snapshot, i);
    assert snapshot[i..] == [snapshot[i]] + snapshot[i + 1..];
  }

  /**
   * The pruning of `dirs` at the top of the loop body: excluded names go first,
   * then every remaining subdirectory that holds a package marker is removed.
   */
  method PruneDirs(subdirs: seq<Dir>, excludeDirs: seq<string>) returns (dirs: seq<Dir>)
    requires DistinctDirNames(subdirs)
    ensures dirs == Kept(subdirs, excludeDirs)
  {
    dirs := WithoutExcluded(subdirs, excludeDirs);
    WithoutExcludedMembers(subdirs, excludeDirs);
    var snapshot := dirs;
    for i := 0 to |snapshot|
      invariant dirs == WithoutPackages(snapshot[..i]) + snapshot[i..]
    {
      if HasMarker(snapshot[i]) {
        PruneStepMarked(snapshot, i);
        dirs := RemoveFirst(dirs, snapshot[i].name);
      } else {
        PruneStepUnmarked(snapshot, i);
      }
    }
    assert snapshot[..|snapshot|] == snapshot;
  }

  /** The `for file in files` loop of one directory. */
  method CollectFiles(h: Harvest, path: seq<string>, files: seq<File>, cfg: Config) returns (r: Harvest)
    ensures r == VisitFiles(h, path, files, cfg)
  {
    r := h;
    for i := 0 to |files|
      invariant r == VisitFiles(h, path, files[..i], cfg)
    {
      var file := files[i];
      assert files[..i + 1][..i] == files[..i];
      // The three tests below are, in order, the three conjuncts of Admitted:
      // IsLockFile, HasIncludedSuffix and GuessedNonText.
      if Lower(file.name) in LockFiles {
        continue;
      }
      if Lower(Suffix(file.name)) in cfg.includeExtensions {
        var mimeType := cfg.guess(file.name);
        if mimeType.Guessed? && mimeType.mime != "" && !StartsWith(mimeType.mime, "text/") {
          continue;
        }
        var relativePath := JoinPath(path + [file.name]);
        match file.contents {
          case Text(content) =>
            r := r.(codeFiles := r.codeFiles[relativePath := UniversalNewlines(content)]);
          case Undecodable =>
            r := r.(warnings := r.warnings + [DecodeFailed(relativePath)]);
          case Unreadable(why) =>
            r := r.(warnings := r.warnings + [ReadFailed(relativePath, why)]);
        }
      }
    }
    assert files[..|files|] == files;
  }

  /** Walking one more of the kept subdirectories. */
  lemma WalkKidsStep(h: Harvest, path: seq<string>, d: Dir, kids: seq<Dir>, i: nat, cfg: Config)
    requires forall s :: s in kids ==> s in d.subdirs
    requires i < |kids|
    ensures forall s :: s in kids[..i] ==> s in d.subdirs
    ensures forall s :: s in kids[..i + 1] ==> s in d.subdirs
    ensures WalkKids(h, path, d, kids[..i + 1], cfg)
      == Walk(WalkKids(h, path, d, kids[..i], cfg), path + [kids[i].name], kids[i], cfg)
  {
    assert kids[..i + 1][..i] == kids[..i];
  }

  /** os.walk from `d` with the loop body applied to every directory it yields. */
  method WalkTree(h: Harvest, path: seq<string>, d: Dir, cfg: Config) returns (r: Harvest)
    requires WellFormed(d)
    ensures r == Walk(h, path, d, cfg)
    decreases d
  {
    var dirs := PruneDirs(d.subdirs, cfg.excludeDirs);
    KeptMembers(d.subdirs, cfg.excludeDirs);
    r := CollectFiles(h, path, d.files, cfg);
    ghost var afterFiles := r;
    for i := 0 to |dirs|
      invariant r == WalkKids(afterFiles, path, d, dirs[..i], cfg)
    {
      var dir := dirs[i];
      assert dir in d.subdirs;
      WalkKidsStep(afterFiles, path, d, dirs, i, cfg);
      r := WalkTree(r, path + [dir.name], dir, cfg);
    }
    assert dirs[..|dirs|] == dirs;
  }

  /**
   * read_source_files(src_path, exclude_dirs, include_extensions): a missing
   * source is an error; anything else that exists is walked.
   */
  method ReadSourceFiles(src: Source, excludeDirs: Option<seq<string>>, includeExtensions: Option<seq<string>>,
                         guess: string -> MimeGuess)
    returns (r: Result<Harvest, SourceError>)
    requires src.Directory? ==> WellFormed(src.top)
    ensures r.Failure? <==> src.Missing?
    ensures src.NotADirectory? ==> r == Success(Empty)
    ensures src.Directory? ==>
      r == Success(Collect(src.top, Config(OrDefault(excludeDirs, DefaultExcludeDirs),
                                           OrDefault(includeExtensions, DefaultIncludeExtensions), guess)))
  {
    var cfg := Config(OrDefault(excludeDirs, DefaultExcludeDirs),
                      OrDefault(includeExtensions, DefaultIncludeExtensions), guess);
    match src {
      case Missing =>
        return Failure(SourceNotFound);
      case NotADirectory =>
        // os.walk of something that is not a directory yields nothing.
        return Success(Empty);
      case Directory(top) =>
        var harvest := WalkTree(Empty, [], top, cfg);
        return Success(harvest);
    }
  }
}
