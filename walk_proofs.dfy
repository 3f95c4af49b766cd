/**
 * What read_source_files collects, stated against the directory tree alone:
 * a file is collected exactly when the walk reaches and opens it and it
 * decodes, under its root-relative path and with its text; a file that is
 * reached but fails to read leaves a warning instead.  From that follow the
 * pruning and filtering rules: whatever lies below an excluded or package
 * directory, and every lock file or file of an unlisted suffix, is absent.
 */
module WalkProofs {
  import opened Strings
  import opened Paths
  import opened Tree
  import opened SourceWalk

  /**
   * Following the names in `rel` from `d`, every step enters a subdirectory
   * the walk keeps, and the last name is a file `f` the walk opens.
   */
  ghost predicate Reaches(d: Dir, rel: seq<string>, f: File, cfg: Config)
    decreases |rel|
  {
    if |rel| == 0 then false
    else if |rel| == 1 then f in d.files && f.name == rel[0] && Admitted(f, cfg)
    else exists s :: s in d.subdirs && s.name == rel[0] && !Pruned(s, cfg.excludeDirs) && Reaches(s, rel[1..], f, cfg)
  }

  /** (k, v) is the entry of a text file the walk opens below `d` (at relative directory `path`). */
  ghost predicate Produces(d: Dir, path: seq<string>, k: string, v: string, cfg: Config)
  {
    exists rel, f :: Reaches(d, rel, f, cfg) && f.contents.Text? &&
      k == JoinPath(path + rel) && v == UniversalNewlines(f.contents.decoded)
  }

  /** `w` is the warning for a file the walk opens below `d` but cannot read. */
  ghost predicate Noted(d: Dir, path: seq<string>, w: Warning, cfg: Config)
  {
    exists rel, f :: Reaches(d, rel, f, cfg) && !f.contents.Text? && w == WarningFor(JoinPath(path + rel), f.contents)
  }

  ghost function Entries(d: Dir, path: seq<string>, cfg: Config): iset<(string, string)>
  {
    iset e: (string, string) | Produces(d, path, e.0, e.1, cfg)
  }

  ghost function Notes(d: Dir, path: seq<string>, cfg: Config): iset<Warning>
  {
    iset w | Noted(d, path, w, cfg)
  }

  /** (k, v) is produced below one of `kids`, subdirectories listed at `path`. */
  ghost predicate ProducedByKid(kids: seq<Dir>, path: seq<string>, k: string, v: string, cfg: Config)
  {
    exists s :: s in kids && Produces(s, path + [s.name], k, v, cfg)
  }

  ghost predicate NotedByKid(kids: seq<Dir>, path: seq<string>, w: Warning, cfg: Config)
  {
    exists s :: s in kids && Noted(s, path + [s.name], w, cfg)
  }

  ghost function KidEntries(kids: seq<Dir>, path: seq<string>, cfg: Config): iset<(string, string)>
  {
    iset e: (string, string) | ProducedByKid(kids, path, e.0, e.1, cfg)
  }

  ghost function KidNotes(kids: seq<Dir>, path: seq<string>, cfg: Config): iset<Warning>
  {
    iset w | NotedByKid(kids, path, w, cfg)
  }

  /**
   * From `h` to `r` keys were only added or overwritten with entries from
   * `entries`, and warnings were only appended, each from `notes`.
   */
  ghost predicate Grows(h: Harvest, r: Harvest, entries: iset<(string, string)>, notes: iset<Warning>)
  {
    && h.codeFiles.Keys <= r.codeFiles.Keys
    && (forall k :: k in r.codeFiles ==>
          (k in h.codeFiles && r.codeFiles[k] == h.codeFiles[k]) || (k, r.codeFiles[k]) in entries)
    && h.warnings <= r.warnings
    && (forall i :: |h.warnings| <= i < |r.warnings| ==> r.warnings[i] in notes)
  }

  lemma GrowsTrans(h: Harvest, m: Harvest, r: Harvest, entries: iset<(string, string)>, notes: iset<Warning>)
    requires Grows(h, m, entries, notes) && Grows(m, r, entries, notes)
    ensures Grows(h, r, entries, notes)
  {
    forall i | |h.warnings| <= i < |r.warnings| ensures r.warnings[i] in notes {
      if i < |m.warnings| {
        assert r.warnings[i] == m.warnings[i];
      }
    }
  }

  lemma GrowsWeaken(h: Harvest, r: Harvest, e: iset<(string, string)>, n: iset<Warning>,
                    e': iset<(string, string)>, n': iset<Warning>)
    requires Grows(h, r, e, n) && e <= e' && n <= n'
    ensures Grows(h, r, e', n')
  {
  }

  // ---------------------------------------------------------------------------
  // Soundness: the walk writes nothing but entries and warnings of files it opens.

  /** (k, v) is the entry of an admitted text file among `fs`, files listed at `path`. */
  ghost predicate ProducedHere(fs: seq<File>, path: seq<string>, k: string, v: string, cfg: Config)
  {
    exists f :: f in fs && Admitted(f, cfg) && f.contents.Text? &&
      k == JoinPath(path + [f.name]) && v == UniversalNewlines(f.contents.decoded)
  }

  /** `w` is the warning for an admitted file among `fs` that cannot be read. */
  ghost predicate NotedHere(fs: seq<File>, path: seq<string>, w: Warning, cfg: Config)
  {
    exists f :: f in fs && Admitted(f, cfg) && !f.contents.Text? && w == WarningFor(JoinPath(path + [f.name]), f.contents)
  }

  ghost function FileEntries(fs: seq<File>, path: seq<string>, cfg: Config): iset<(string, string)>
  {
    iset e: (string, string) | ProducedHere(fs, path, e.0, e.1, cfg)
  }

  ghost function FileNotes(fs: seq<File>, path: seq<string>, cfg: Config): iset<Warning>
  {
    iset w | NotedHere(fs, path, w, cfg)
  }

  lemma FileSetsGrow(fs: seq<File>, gs: seq<File>, path: seq<string>, cfg: Config)
    requires forall f :: f in fs ==> f in gs
    ensures FileEntries(fs, path, cfg) <= FileEntries(gs, path, cfg)
    ensures FileNotes(fs, path, cfg) <= FileNotes(gs, path, cfg)
  {
  }

  /** The files of `d` itself are found below `d`. */
  lemma OwnFilesFound(d: Dir, path: seq<string>, cfg: Config)
    ensures FileEntries(d.files, path, cfg) <= Entries(d, path, cfg)
    ensures FileNotes(d.files, path, cfg) <= Notes(d, path, cfg)
  {
    forall e | e in FileEntries(d.files, path, cfg) ensures Produces(d, path, e.0, e.1, cfg) {
      var f :| f in d.files && Admitted(f, cfg) && f.contents.Text? &&
        e.0 == JoinPath(path + [f.name]) && e.1 == UniversalNewlines(f.contents.decoded);
      assert Reaches(d, [f.name], f, cfg);
    }
    forall w | w in FileNotes(d.files, path, cfg) ensures Noted(d, path, w, cfg) {
      var f :| f in d.files && Admitted(f, cfg) && !f.contents.Text? && w == WarningFor(JoinPath(path + [f.name]), f.contents);
      assert Reaches(d, [f.name], f, cfg);
    }
  }

  /**
   * Handling one file writes at most that file's own entry, under its key and
   * with its text, or appends its one warning.
   */
  lemma FileStepGrows(h: Harvest, path: seq<string>, f: File, cfg: Config)
    ensures Grows(h, FileStep(h, path, f, cfg), FileEntries([f], path, cfg), FileNotes([f], path, cfg))
    ensures |FileStep(h, path, f, cfg).warnings| <= |h.warnings| + 1
  {
    if Admitted(f, cfg) {
      var r := FileStep(h, path, f, cfg);
      var key := JoinPath(path + [f.name]);
      if f.contents.Text? {
        assert ProducedHere([f], path, key, r.codeFiles[key], cfg);
      } else {
        assert NotedHere([f], path, r.warnings[|h.warnings|], cfg);
      }
    }
  }

  /** The file loop of a directory writes only entries and warnings of the files it lists. */
  lemma {:induction false} VisitFilesGrows(h: Harvest, path: seq<string>, fs: seq<File>, cfg: Config)
    ensures Grows(h, VisitFiles(h, path, fs, cfg), FileEntries(fs, path, cfg), FileNotes(fs, path, cfg))
    decreases |fs|
  {
    if fs != [] {
      var init := fs[..|fs| - 1];
      var last := fs[|fs| - 1];
      var m := VisitFiles(h, path, init, cfg);
      var r := VisitFiles(h, path, fs, cfg);
      VisitFilesGrows(h, path, init, cfg);
      FileSetsGrow(init, fs, path, cfg);
      GrowsWeaken(h, m, FileEntries(init, path, cfg), FileNotes(init, path, cfg),
                  FileEntries(fs, path, cfg), FileNotes(fs, path, cfg));
      FileStepGrows(m, path, last, cfg);
      FileSetsGrow([last], fs, path, cfg);
      GrowsWeaken(m, r, FileEntries([last], path, cfg), FileNotes([last], path, cfg),
                  FileEntries(fs, path, cfg), FileNotes(fs, path, cfg));
      GrowsTrans(h, m, r, FileEntries(fs, path, cfg), FileNotes(fs, path, cfg));
    }
  }

  /** Moving one component from the directory path onto the relative path. */
  lemma ShiftComponent(path: seq<string>, x: string, rel: seq<string>)
    ensures path + [x] + rel == path + ([x] + rel)
  {
  }

  /** A path reached from a kept subdirectory, prefixed with its name, is reached from the parent. */
  lemma LiftReaches(d: Dir, s: Dir, rel: seq<string>, f: File, cfg: Config)
    requires s in d.subdirs && !Pruned(s, cfg.excludeDirs) && Reaches(s, rel, f, cfg)
    ensures Reaches(d, [s.name] + rel, f, cfg)
  {
    assert ([s.name] + rel)[1..] == rel;
  }

  lemma LiftProduces(d: Dir, s: Dir, path: seq<string>, k: string, v: string, cfg: Config)
    requires s in d.subdirs && !Pruned(s, cfg.excludeDirs) && Produces(s, path + [s.name], k, v, cfg)
    ensures Produces(d, path, k, v, cfg)
  {
    var rel, f :| Reaches(s, rel, f, cfg) && f.contents.Text? &&
      k == JoinPath(path + [s.name] + rel) && v == UniversalNewlines(f.contents.decoded);
    LiftReaches(d, s, rel, f, cfg);
    ShiftComponent(path, s.name, rel);
  }

  lemma LiftNoted(d: Dir, s: Dir, path: seq<string>, w: Warning, cfg: Config)
    requires s in d.subdirs && !Pruned(s, cfg.excludeDirs) && Noted(s, path + [s.name], w, cfg)
    ensures Noted(d, path, w, cfg)
  {
    var rel, f :| Reaches(s, rel, f, cfg) && !f.contents.Text? &&
      w == WarningFor(JoinPath(path + [s.name] + rel), f.contents);
    LiftReaches(d, s, rel, f, cfg);
    ShiftComponent(path, s.name, rel);
  }

  /** An entry or a warning from below a kept subdirectory comes from below its parent. */
  lemma LiftKids(d: Dir, kids: seq<Dir>, path: seq<string>, cfg: Config)
    requires forall s :: s in kids ==> s in d.subdirs && !Pruned(s, cfg.excludeDirs)
    ensures KidEntries(kids, path, cfg) <= Entries(d, path, cfg)
    ensures KidNotes(kids, path, cfg) <= Notes(d, path, cfg)
  {
    forall e | e in KidEntries(kids, path, cfg) ensures Produces(d, path, e.0, e.1, cfg) {
      var s :| s in kids && Produces(s, path + [s.name], e.0, e.1, cfg);
      LiftProduces(d, s, path, e.0, e.1, cfg);
    }
    forall w | w in KidNotes(kids, path, cfg) ensures Noted(d, path, w, cfg) {
      var s :| s in kids && Noted(s, path + [s.name], w, cfg);
      LiftNoted(d, s, path, w, cfg);
    }
  }

  lemma {:induction false} WalkGrows(h: Harvest, path: seq<string>, d: Dir, cfg: Config)
    ensures Grows(h, Walk(h, path, d, cfg), Entries(d, path, cfg), Notes(d, path, cfg))
    decreases d, 1, 0
  {
    var kept := Kept(d.subdirs, cfg.excludeDirs);
    KeptMembers(d.subdirs, cfg.excludeDirs);
    var m := VisitFiles(h, path, d.files, cfg);
    VisitFilesGrows(h, path, d.files, cfg);
    OwnFilesFound(d, path, cfg);
    GrowsWeaken(h, m, FileEntries(d.files, path, cfg), FileNotes(d.files, path, cfg),
                Entries(d, path, cfg), Notes(d, path, cfg));
    WalkKidsGrows(m, path, d, kept, cfg);
    LiftKids(d, kept, path, cfg);
    GrowsWeaken(m, Walk(h, path, d, cfg), KidEntries(kept, path, cfg), KidNotes(kept, path, cfg),
                Entries(d, path, cfg), Notes(d, path, cfg));
    GrowsTrans(h, m, Walk(h, path, d, cfg), Entries(d, path, cfg), Notes(d, path, cfg));
  }

  lemma {:induction false} WalkKidsGrows(h: Harvest, path: seq<string>, d: Dir, kids: seq<Dir>, cfg: Config)
    requires forall s :: s in kids ==> s in d.subdirs
    ensures Grows(h, WalkKids(h, path, d, kids, cfg), KidEntries(kids, path, cfg), KidNotes(kids, path, cfg))
    decreases d, 0, |kids|
  {
    if kids != [] {
      var init := kids[..|kids| - 1];
      var last := kids[|kids| - 1];
      assert last in d.subdirs;
      var m := WalkKids(h, path, d, init, cfg);
      var r := WalkKids(h, path, d, kids, cfg);
      WalkKidsGrows(h, path, d, init, cfg);
      GrowsWeaken(h, m, KidEntries(init, path, cfg), KidNotes(init, path, cfg),
                  KidEntries(kids, path, cfg), KidNotes(kids, path, cfg));
      WalkGrows(m, path + [last.name], last, cfg);
      GrowsWeaken(m, r, Entries(last, path + [last.name], cfg), Notes(last, path + [last.name], cfg),
                  KidEntries(kids, path, cfg), KidNotes(kids, path, cfg));
      GrowsTrans(h, m, r, KidEntries(kids, path, cfg), KidNotes(kids, path, cfg));
    }
  }

  // ---------------------------------------------------------------------------
  // Completeness: every file the walk opens ends up in the result.

  lemma {:induction false} ReachesShape(d: Dir, rel: seq<string>, f: File, cfg: Config)
    requires WellFormed(d) && Reaches(d, rel, f, cfg)
    ensures |rel| >= 1 && SepFree(rel)
    decreases |rel|
  {
    if |rel| > 1 {
      var s :| s in d.subdirs && s.name == rel[0] && !Pruned(s, cfg.excludeDirs) && Reaches(s, rel[1..], f, cfg);
      ReachesShape(s, rel[1..], f, cfg);
      assert rel == [rel[0]] + rel[1..];
    }
  }

  /** Distinct paths of separator-free components give distinct keys. */
  lemma DistinctKeys(a: seq<string>, b: seq<string>)
    requires |a| > 0 && |b| > 0 && SepFree(a) && SepFree(b) && a != b
    ensures JoinPath(a) != JoinPath(b)
  {
    if JoinPath(a) == JoinPath(b) {
      JoinPathInjective(a, b);
    }
  }

  /** What the walk leaves for the opened file `f` under `key`: its text, or a warning. */
  ghost predicate Gathered(r: Harvest, key: string, f: File)
  {
    if f.contents.Text? then key in r.codeFiles && r.codeFiles[key] == UniversalNewlines(f.contents.decoded)
    else WarningFor(key, f.contents) in r.warnings
  }

  /** Later steps that never write `key` keep what was gathered under it. */
  lemma GatheredStays(m: Harvest, r: Harvest, e: iset<(string, string)>, n: iset<Warning>, key: string, f: File)
    requires Grows(m, r, e, n) && Gathered(m, key, f)
    requires forall v :: (key, v) !in e
    ensures Gathered(r, key, f)
  {
    if !f.contents.Text? {
      var i :| 0 <= i < |m.warnings| && m.warnings[i] == WarningFor(key, f.contents);
      assert r.warnings[i] == m.warnings[i];
    }
  }

  /** Handling an admitted file gathers it under its key. */
  lemma FileStepGathers(m: Harvest, path: seq<string>, f: File, cfg: Config)
    requires Admitted(f, cfg)
    ensures Gathered(FileStep(m, path, f, cfg), JoinPath(path + [f.name]), f)
  {
  }

  /** Handling a file leaves what is gathered under any other key alone. */
  lemma FileStepKeeps(m: Harvest, path: seq<string>, g: File, key: string, f: File, cfg: Config)
    requires key != JoinPath(path + [g.name]) && Gathered(m, key, f)
    ensures Gathered(FileStep(m, path, g, cfg), key, f)
  {
    if !f.contents.Text? {
      var i :| 0 <= i < |m.warnings| && m.warnings[i] == WarningFor(key, f.contents);
      assert FileStep(m, path, g, cfg).warnings[i] == m.warnings[i];
    }
  }

  lemma {:induction false} VisitFilesComplete(h: Harvest, path: seq<string>, fs: seq<File>, cfg: Config)
    requires SepFree(path) && DistinctFileNames(fs)
    requires forall f :: f in fs ==> Sep !in f.name
    ensures forall f :: f in fs && Admitted(f, cfg) ==> Gathered(VisitFiles(h, path, fs, cfg), JoinPath(path + [f.name]), f)
    decreases |fs|
  {
    if fs != [] {
      var init := fs[..|fs| - 1];
      var last := fs[|fs| - 1];
      assert fs == init + [last];
      assert DistinctFileNames(init) by {
        forall i, j | 0 <= i < j < |init| ensures init[i].name != init[j].name {
          assert init[i] == fs[i] && init[j] == fs[j];
        }
      }
      VisitFilesComplete(h, path, init, cfg);
      var m := VisitFiles(h, path, init, cfg);
      forall f | f in fs && Admitted(f, cfg) ensures Gathered(FileStep(m, path, last, cfg), JoinPath(path + [f.name]), f) {
        if f == last {
          FileStepGathers(m, path, f, cfg);
        } else {
          var j :| 0 <= j < |init| && init[j] == f;
          assert fs[j] == f;
          assert (path + [f.name])[|path|] != (path + [last.name])[|path|];
          DistinctKeys(path + [f.name], path + [last.name]);
          FileStepKeeps(m, path, last, JoinPath(path + [f.name]), f, cfg);
        }
      }
    }
  }

  /** Every file the walk opens below `d` is gathered in `r` under its key. */
  ghost predicate Complete(r: Harvest, d: Dir, path: seq<string>, cfg: Config)
  {
    forall rel, f :: Reaches(d, rel, f, cfg) ==> Gathered(r, JoinPath(path + rel), f)
  }

  ghost predicate KidsComplete(r: Harvest, kids: seq<Dir>, path: seq<string>, cfg: Config)
  {
    forall s, rel, f :: s in kids && Reaches(s, rel, f, cfg) ==> Gathered(r, JoinPath(path + [s.name] + rel), f)
  }

  /** A file of `d` itself and a file found below one of its subdirectories have different keys. */
  lemma OwnKeyNotBelow(d: Dir, path: seq<string>, f: File, s: Dir, rel: seq<string>, g: File, cfg: Config)
    requires WellFormed(d) && SepFree(path) && f in d.files && s in d.subdirs && Reaches(s, rel, g, cfg)
    ensures JoinPath(path + [f.name]) != JoinPath(path + [s.name] + rel)
  {
    ReachesShape(s, rel, g, cfg);
    SepFreeAppend(path, [f.name]);
    SepFreeAppend(path, [s.name]);
    SepFreeAppend(path + [s.name], rel);
    assert |path + [f.name]| < |path + [s.name] + rel|;
    DistinctKeys(path + [f.name], path + [s.name] + rel);
  }

  /** Files found below two differently named subdirectories have different keys. */
  lemma SiblingKeyDiffers(path: seq<string>, s: Dir, rel: seq<string>, f: File, t: Dir, rel': seq<string>, g: File, cfg: Config)
    requires WellFormed(s) && WellFormed(t) && SepFree(path)
    requires Sep !in s.name && Sep !in t.name && s.name != t.name
    requires Reaches(s, rel, f, cfg) && Reaches(t, rel', g, cfg)
    ensures JoinPath(path + [s.name] + rel) != JoinPath(path + [t.name] + rel')
  {
    ReachesShape(s, rel, f, cfg);
    ReachesShape(t, rel', g, cfg);
    SepFreeAppend(path, [s.name]);
    SepFreeAppend(path + [s.name], rel);
    SepFreeAppend(path, [t.name]);
    SepFreeAppend(path + [t.name], rel');
    assert (path + [s.name] + rel)[|path|] != (path + [t.name] + rel')[|path|];
    DistinctKeys(path + [s.name] + rel, path + [t.name] + rel');
  }

  /** The key of a file of `d` itself is never written by the walk of its subdirectories. */
  lemma OwnKeyOutsideKids(d: Dir, path: seq<string>, kids: seq<Dir>, f: File, cfg: Config)
    requires WellFormed(d) && SepFree(path) && f in d.files
    requires forall s :: s in kids ==> s in d.subdirs
    ensures forall v :: (JoinPath(path + [f.name]), v) !in KidEntries(kids, path, cfg)
  {
    var key := JoinPath(path + [f.name]);
    forall v | ProducedByKid(kids, path, key, v, cfg) ensures false {
      var s :| s in kids && Produces(s, path + [s.name], key, v, cfg);
      var rel, g :| Reaches(s, rel, g, cfg) && key == JoinPath(path + [s.name] + rel);
      OwnKeyNotBelow(d, path, f, s, rel, g, cfg);
    }
  }

  /** Keys below one subdirectory are never written by the walk of a sibling. */
  lemma SiblingKeysDiffer(path: seq<string>, s: Dir, rel: seq<string>, f: File, t: Dir, cfg: Config)
    requires WellFormed(s) && WellFormed(t) && SepFree(path)
    requires Sep !in s.name && Sep !in t.name && s.name != t.name
    requires Reaches(s, rel, f, cfg)
    ensures forall v :: (JoinPath(path + [s.name] + rel), v) !in Entries(t, path + [t.name], cfg)
  {
    var key := JoinPath(path + [s.name] + rel);
    forall v | Produces(t, path + [t.name], key, v, cfg) ensures false {
      var rel', g :| Reaches(t, rel', g, cfg) && key == JoinPath(path + [t.name] + rel');
      SiblingKeyDiffers(path, s, rel, f, t, rel', g, cfg);
    }
  }

  /** After the walk below `d`, every admitted file of `d` itself is still gathered under its key. */
  lemma OwnFilesStay(h: Harvest, path: seq<string>, d: Dir, cfg: Config)
    requires WellFormed(d) && SepFree(path)
    ensures forall f :: f in d.files && Admitted(f, cfg) ==> Gathered(Walk(h, path, d, cfg), JoinPath(path + [f.name]), f)
  {
    var kept := Kept(d.subdirs, cfg.excludeDirs);
    KeptMembers(d.subdirs, cfg.excludeDirs);
    var m := VisitFiles(h, path, d.files, cfg);
    var r := Walk(h, path, d, cfg);
    VisitFilesComplete(h, path, d.files, cfg);
    WalkKidsGrows(m, path, d, kept, cfg);
    forall f | f in d.files && Admitted(f, cfg) ensures Gathered(r, JoinPath(path + [f.name]), f) {
      OwnKeyOutsideKids(d, path, kept, f, cfg);
      GatheredStays(m, r, KidEntries(kept, path, cfg), KidNotes(kept, path, cfg), JoinPath(path + [f.name]), f);
    }
  }

  lemma {:induction false} WalkComplete(h: Harvest, path: seq<string>, d: Dir, cfg: Config)
    requires WellFormed(d) && SepFree(path)
    ensures Complete(Walk(h, path, d, cfg), d, path, cfg)
    decreases d, 1, 0
  {
    var kept := Kept(d.subdirs, cfg.excludeDirs);
    KeptMembers(d.subdirs, cfg.excludeDirs);
    var m := VisitFiles(h, path, d.files, cfg);
    var r := Walk(h, path, d, cfg);
    OwnFilesStay(h, path, d, cfg);
    WalkKidsComplete(m, path, d, kept, cfg);
    forall rel, f | Reaches(d, rel, f, cfg) ensures Gathered(r, JoinPath(path + rel), f) {
      if |rel| == 1 {
        assert rel == [f.name];
      } else if |rel| > 1 {
        var s :| s in d.subdirs && s.name == rel[0] && !Pruned(s, cfg.excludeDirs) && Reaches(s, rel[1..], f, cfg);
        assert path + [s.name] + rel[1..] == path + rel;
      }
    }
  }

  lemma {:induction false} WalkKidsComplete(h: Harvest, path: seq<string>, d: Dir, kids: seq<Dir>, cfg: Config)
    requires WellFormed(d) && SepFree(path) && DistinctDirNames(kids)
    requires forall s :: s in kids ==> s in d.subdirs
    ensures KidsComplete(WalkKids(h, path, d, kids, cfg), kids, path, cfg)
    decreases d, 0, |kids|
  {
    if kids != [] {
      var init := kids[..|kids| - 1];
      var last := kids[|kids| - 1];
      assert last in d.subdirs;
      assert kids == init + [last];
      assert DistinctDirNames(init) by {
        forall i, j | 0 <= i < j < |init| ensures init[i].name != init[j].name {
          assert init[i] == kids[i] && init[j] == kids[j];
        }
      }
      var m := WalkKids(h, path, d, init, cfg);
      var r := WalkKids(h, path, d, kids, cfg);
      var here := path + [last.name];
      assert SepFree(here);
      WalkKidsComplete(h, path, d, init, cfg);
      WalkComplete(m, here, last, cfg);
      WalkGrows(m, here, last, cfg);
      forall s, rel, f | s in kids && Reaches(s, rel, f, cfg) ensures Gathered(r, JoinPath(path + [s.name] + rel), f) {
        if s != last {
          var j :| 0 <= j < |init| && init[j] == s;
          assert kids[j] == s;
          SiblingKeysDiffer(path, s, rel, f, last, cfg);
          GatheredStays(m, r, Entries(last, here, cfg), Notes(last, here, cfg), JoinPath(path + [s.name] + rel), f);
        }
      }
    }
  }

  // ---------------------------------------------------------------------------
  // Each failing file is warned about once.

  /** No warning appended from `h` to `r` is appended twice. */
  ghost predicate WarnsOnce(h: Harvest, r: Harvest)
  {
    forall i, j :: |h.warnings| <= i < j < |r.warnings| ==> r.warnings[i] != r.warnings[j]
  }

  /** Two stretches that each warn once, about disjoint sets of warnings, warn once together. */
  lemma WarnsOnceTrans(h: Harvest, m: Harvest, r: Harvest, e1: iset<(string, string)>, n1: iset<Warning>,
                       e2: iset<(string, string)>, n2: iset<Warning>)
    requires Grows(h, m, e1, n1) && Grows(m, r, e2, n2)
    requires WarnsOnce(h, m) && WarnsOnce(m, r)
    requires forall w :: w in n1 ==> w !in n2
    ensures WarnsOnce(h, r)
  {
    forall i, j | |h.warnings| <= i < j < |r.warnings| ensures r.warnings[i] != r.warnings[j] {
      if j < |m.warnings| {
        assert r.warnings[i] == m.warnings[i] && r.warnings[j] == m.warnings[j];
      } else if i < |m.warnings| {
        assert r.warnings[i] == m.warnings[i];
      }
    }
  }

  /** Equal warnings name the same key. */
  lemma WarningForKey(k1: string, c1: Contents, k2: string, c2: Contents)
    requires !c1.Text? && !c2.Text? && WarningFor(k1, c1) == WarningFor(k2, c2)
    ensures k1 == k2
  {
    assert WarningFor(k1, c1).path == k1 && WarningFor(k2, c2).path == k2;
  }

  /** Two differently named files of one directory have different keys. */
  lemma FileKeysDiffer(path: seq<string>, a: string, b: string)
    requires SepFree(path) && Sep !in a && Sep !in b && a != b
    ensures JoinPath(path + [a]) != JoinPath(path + [b])
  {
    assert (path + [a])[|path|] != (path + [b])[|path|];
    SepFreeAppend(path, [a]);
    SepFreeAppend(path, [b]);
    DistinctKeys(path + [a], path + [b]);
  }

  /** The warnings for a directory's own files are none of those from below its subdirectories. */
  lemma OwnNotesApart(d: Dir, path: seq<string>, kids: seq<Dir>, cfg: Config)
    requires WellFormed(d) && SepFree(path)
    requires forall s :: s in kids ==> s in d.subdirs
    ensures forall w :: NotedHere(d.files, path, w, cfg) ==> !NotedByKid(kids, path, w, cfg)
  {
    forall w | NotedHere(d.files, path, w, cfg) && NotedByKid(kids, path, w, cfg) ensures false {
      var f :| f in d.files && Admitted(f, cfg) && !f.contents.Text? && w == WarningFor(JoinPath(path + [f.name]), f.contents);
      var s :| s in kids && Noted(s, path + [s.name], w, cfg);
      var rel, g :| Reaches(s, rel, g, cfg) && !g.contents.Text? && w == WarningFor(JoinPath(path + [s.name] + rel), g.contents);
      WarningForKey(JoinPath(path + [f.name]), f.contents, JoinPath(path + [s.name] + rel), g.contents);
      OwnKeyNotBelow(d, path, f, s, rel, g, cfg);
    }
  }

  /** The only warning noted for a single file is that file's own. */
  lemma NotedHereOne(path: seq<string>, f: File, w: Warning, cfg: Config)
    requires NotedHere([f], path, w, cfg)
    ensures !f.contents.Text? && w == WarningFor(JoinPath(path + [f.name]), f.contents)
  {
    var g :| g in [f] && Admitted(g, cfg) && !g.contents.Text? && w == WarningFor(JoinPath(path + [g.name]), g.contents);
    assert g == f;
  }

  /** The warning for a file is none of the warnings for files of other names listed beside it. */
  lemma OtherFileNotesApart(path: seq<string>, init: seq<File>, last: File, cfg: Config)
    requires SepFree(path) && Sep !in last.name
    requires forall f :: f in init ==> Sep !in f.name && f.name != last.name
    ensures forall w :: NotedHere(init, path, w, cfg) ==> !NotedHere([last], path, w, cfg)
  {
    forall w | NotedHere(init, path, w, cfg) && NotedHere([last], path, w, cfg) ensures false {
      var f :| f in init && Admitted(f, cfg) && !f.contents.Text? && w == WarningFor(JoinPath(path + [f.name]), f.contents);
      NotedHereOne(path, last, w, cfg);
      WarningForKey(JoinPath(path + [f.name]), f.contents, JoinPath(path + [last.name]), last.contents);
      FileKeysDiffer(path, f.name, last.name);
    }
  }

  /** Warnings from below a subdirectory are none of those from below differently named siblings. */
  lemma OtherKidNotesApart(path: seq<string>, init: seq<Dir>, last: Dir, cfg: Config)
    requires SepFree(path) && Sep !in last.name && WellFormed(last)
    requires forall s :: s in init ==> Sep !in s.name && s.name != last.name && WellFormed(s)
    ensures forall w :: NotedByKid(init, path, w, cfg) ==> !Noted(last, path + [last.name], w, cfg)
  {
    forall w | NotedByKid(init, path, w, cfg) && Noted(last, path + [last.name], w, cfg) ensures false {
      var s :| s in init && Noted(s, path + [s.name], w, cfg);
      var rel, f :| Reaches(s, rel, f, cfg) && !f.contents.Text? && w == WarningFor(JoinPath(path + [s.name] + rel), f.contents);
      var rel', g :| Reaches(last, rel', g, cfg) && !g.contents.Text? && w == WarningFor(JoinPath(path + [last.name] + rel'), g.contents);
      WarningForKey(JoinPath(path + [s.name] + rel), f.contents, JoinPath(path + [last.name] + rel'), g.contents);
      SiblingKeyDiffers(path, s, rel, f, last, rel', g, cfg);
    }
  }

  /** The file loop of a directory warns at most once about each file. */
  lemma {:induction false} VisitFilesWarnsOnce(h: Harvest, path: seq<string>, fs: seq<File>, cfg: Config)
    requires SepFree(path) && DistinctFileNames(fs)
    requires forall f :: f in fs ==> Sep !in f.name
    ensures WarnsOnce(h, VisitFiles(h, path, fs, cfg))
    decreases |fs|
  {
    if fs != [] {
      var init := fs[..|fs| - 1];
      var last := fs[|fs| - 1];
      assert fs == init + [last];
      assert DistinctFileNames(init) by {
        forall i, j | 0 <= i < j < |init| ensures init[i].name != init[j].name {
          assert init[i] == fs[i] && init[j] == fs[j];
        }
      }
      var m := VisitFiles(h, path, init, cfg);
      VisitFilesWarnsOnce(h, path, init, cfg);
      VisitFilesGrows(h, path, init, cfg);
      FileStepGrows(m, path, last, cfg);
      forall f | f in init ensures Sep !in f.name && f.name != last.name {
        var j :| 0 <= j < |init| && init[j] == f;
        assert fs[j] == f;
      }
      OtherFileNotesApart(path, init, last, cfg);
      WarnsOnceTrans(h, m, FileStep(m, path, last, cfg), FileEntries(init, path, cfg), FileNotes(init, path, cfg),
                     FileEntries([last], path, cfg), FileNotes([last], path, cfg));
    }
  }

  lemma {:induction false} WalkWarnsOnce(h: Harvest, path: seq<string>, d: Dir, cfg: Config)
    requires WellFormed(d) && SepFree(path)
    ensures WarnsOnce(h, Walk(h, path, d, cfg))
    decreases d, 1, 0
  {
    var kept := Kept(d.subdirs, cfg.excludeDirs);
    KeptMembers(d.subdirs, cfg.excludeDirs);
    var m := VisitFiles(h, path, d.files, cfg);
    VisitFilesWarnsOnce(h, path, d.files, cfg);
    VisitFilesGrows(h, path, d.files, cfg);
    WalkKidsWarnsOnce(m, path, d, kept, cfg);
    WalkKidsGrows(m, path, d, kept, cfg);
    OwnNotesApart(d, path, kept, cfg);
    WarnsOnceTrans(h, m, Walk(h, path, d, cfg), FileEntries(d.files, path, cfg), FileNotes(d.files, path, cfg),
                   KidEntries(kept, path, cfg), KidNotes(kept, path, cfg));
  }

  lemma {:induction false} WalkKidsWarnsOnce(h: Harvest, path: seq<string>, d: Dir, kids: seq<Dir>, cfg: Config)
    requires WellFormed(d) && SepFree(path) && DistinctDirNames(kids)
    requires forall s :: s in kids ==> s in d.subdirs
    ensures WarnsOnce(h, WalkKids(h, path, d, kids, cfg))
    decreases d, 0, |kids|
  {
    if kids != [] {
      var init := kids[..|kids| - 1];
      var last := kids[|kids| - 1];
      assert last in d.subdirs;
      assert kids == init + [last];
      assert DistinctDirNames(init) by {
        forall i, j | 0 <= i < j < |init| ensures init[i].name != init[j].name {
          assert init[i] == kids[i] && init[j] == kids[j];
        }
      }
      var m := WalkKids(h, path, d, init, cfg);
      var here := path + [last.name];
      assert SepFree(here);
      WalkKidsWarnsOnce(h, path, d, init, cfg);
      WalkKidsGrows(h, path, d, init, cfg);
      WalkWarnsOnce(m, here, last, cfg);
      WalkGrows(m, here, last, cfg);
      forall s | s in init ensures Sep !in s.name && s.name != last.name && WellFormed(s) {
        var j :| 0 <= j < |init| && init[j] == s;
        assert kids[j] == s;
      }
      OtherKidNotesApart(path, init, last, cfg);
      WarnsOnceTrans(h, m, WalkKids(h, path, d, kids, cfg), KidEntries(init, path, cfg), KidNotes(init, path, cfg),
                     Entries(last, here, cfg), Notes(last, here, cfg));
    }
  }

  // ---------------------------------------------------------------------------
  // The result of the walk, characterised

  /** Every entry of the result is the text of a file the walk opened, under that file's path. */
  lemma EntryOrigin(top: Dir, cfg: Config, k: string) returns (rel: seq<string>, g: File)
    requires k in Collect(top, cfg).codeFiles
    ensures Reaches(top, rel, g, cfg) && g.contents.Text? && k == JoinPath(rel)
    ensures Collect(top, cfg).codeFiles[k] == UniversalNewlines(g.contents.decoded)
  {
    var r := Collect(top, cfg);
    var v := r.codeFiles[k];
    WalkGrows(Empty, [], top, cfg);
    assert Produces(top, [], k, v, cfg) by {
      assert k !in Empty.codeFiles;
    }
    rel, g :| Reaches(top, rel, g, cfg) && g.contents.Text? &&
      k == JoinPath([] + rel) && v == UniversalNewlines(g.contents.decoded);
    assert [] + rel == rel;
  }

  /** Every warning of the result names a file the walk opened and could not read. */
  lemma WarningOrigin(top: Dir, cfg: Config, w: Warning) returns (rel: seq<string>, g: File)
    requires w in Collect(top, cfg).warnings
    ensures Reaches(top, rel, g, cfg) && !g.contents.Text? && w == WarningFor(JoinPath(rel), g.contents)
  {
    var r := Collect(top, cfg);
    WalkGrows(Empty, [], top, cfg);
    var i :| 0 <= i < |r.warnings| && r.warnings[i] == w;
    assert Noted(top, [], w, cfg) by {
      assert |Empty.warnings| <= i;
    }
    rel, g :| Reaches(top, rel, g, cfg) && !g.contents.Text? && w == WarningFor(JoinPath([] + rel), g.contents);
    assert [] + rel == rel;
  }

  /**
   * In a real directory tree the walk collects exactly the entries of the
   * text files it opens, each under its root-relative path with its text, and
   * warns exactly about the files it opens but cannot read, once each.
   */
  lemma CollectExactly(top: Dir, cfg: Config)
    requires WellFormed(top)
    ensures forall k, v :: k in Collect(top, cfg).codeFiles && Collect(top, cfg).codeFiles[k] == v <==> Produces(top, [], k, v, cfg)
    ensures forall w :: w in Collect(top, cfg).warnings <==> Noted(top, [], w, cfg)
    ensures forall i, j :: 0 <= i < j < |Collect(top, cfg).warnings| ==> Collect(top, cfg).warnings[i] != Collect(top, cfg).warnings[j]
  {
    var r := Collect(top, cfg);
    WalkComplete(Empty, [], top, cfg);
    WalkWarnsOnce(Empty, [], top, cfg);
    forall k | k in r.codeFiles ensures Produces(top, [], k, r.codeFiles[k], cfg) {
      var rel, g := EntryOrigin(top, cfg, k);
      assert [] + rel == rel;
    }
    forall k, v | Produces(top, [], k, v, cfg) ensures k in r.codeFiles && r.codeFiles[k] == v {
      var rel, f :| Reaches(top, rel, f, cfg) && f.contents.Text? &&
        k == JoinPath([] + rel) && v == UniversalNewlines(f.contents.decoded);
      assert Gathered(r, JoinPath([] + rel), f);
    }
    forall w | w in r.warnings ensures Noted(top, [], w, cfg) {
      var rel, g := WarningOrigin(top, cfg, w);
      assert [] + rel == rel;
    }
    forall w | Noted(top, [], w, cfg) ensures w in r.warnings {
      var rel, f :| Reaches(top, rel, f, cfg) && !f.contents.Text? && w == WarningFor(JoinPath([] + rel), f.contents);
      assert Gathered(r, JoinPath([] + rel), f);
    }
  }

  /** Following a chain of directory names from the root leads along that chain. */
  lemma {:induction false} ReachesAlong(d: Dir, chain: seq<Dir>, f: File, g: File, cfg: Config)
    requires WellFormed(d) && FileUnder(d, chain, f)
    requires Reaches(d, Names(chain) + [f.name], g, cfg)
    ensures g == f && Admitted(f, cfg) && Visible(chain, cfg.excludeDirs)
    decreases |chain|
  {
    if chain == [] {
      assert Names(chain) + [f.name] == [f.name];
      var i :| 0 <= i < |d.files| && d.files[i] == f;
      var j :| 0 <= j < |d.files| && d.files[j] == g;
    } else {
      var rest := Names(chain[1..]) + [f.name];
      assert Names(chain) + [f.name] == [chain[0].name] + rest;
      assert ([chain[0].name] + rest)[1..] == rest;
      var s :| s in d.subdirs && s.name == chain[0].name && !Pruned(s, cfg.excludeDirs) && Reaches(s, rest, g, cfg);
      var i :| 0 <= i < |d.subdirs| && d.subdirs[i] == s;
      var j :| 0 <= j < |d.subdirs| && d.subdirs[j] == chain[0];
      ReachesAlong(chain[0], chain[1..], f, g, cfg);
      forall i | 0 <= i < |chain| ensures !Pruned(chain[i], cfg.excludeDirs) {
        if i > 0 {
          assert chain[1..][i - 1] == chain[i];
        }
      }
    }
  }

  /** A file along a chain of kept directories, passing the filters, is reached. */
  lemma {:induction false} ReachesFromChain(d: Dir, chain: seq<Dir>, f: File, cfg: Config)
    requires FileUnder(d, chain, f) && Visible(chain, cfg.excludeDirs) && Admitted(f, cfg)
    ensures Reaches(d, Names(chain) + [f.name], f, cfg)
    decreases |chain|
  {
    if chain == [] {
      assert Names(chain) + [f.name] == [f.name];
    } else {
      var rest := Names(chain[1..]) + [f.name];
      assert Names(chain) + [f.name] == [chain[0].name] + rest;
      assert ([chain[0].name] + rest)[1..] == rest;
      assert Visible(chain[1..], cfg.excludeDirs) by {
        forall i | 0 <= i < |chain[1..]| ensures !Pruned(chain[1..][i], cfg.excludeDirs) {
          assert chain[1..][i] == chain[i + 1];
        }
      }
      ReachesFromChain(chain[0], chain[1..], f, cfg);
      assert !Pruned(chain[0], cfg.excludeDirs);
    }
  }

  /** The root-relative key of the file `f` lying below `chain`. */
  function KeyOf(chain: seq<Dir>, f: File): string
  {
    JoinPath(Names(chain) + [f.name])
  }

  /** Anything the walk gathers under the key of `f` came from opening `f` itself. */
  lemma OnlyFromItself(top: Dir, chain: seq<Dir>, f: File, g: File, rel: seq<string>, cfg: Config)
    requires WellFormed(top) && FileUnder(top, chain, f)
    requires Reaches(top, rel, g, cfg) && JoinPath(rel) == KeyOf(chain, f)
    ensures g == f && Admitted(f, cfg) && Visible(chain, cfg.excludeDirs)
  {
    ReachesShape(top, rel, g, cfg);
    FileUnderSepFree(top, chain, f);
    JoinPathInjective(rel, Names(chain) + [f.name]);
    ReachesAlong(top, chain, f, g, cfg);
  }

  // ---------------------------------------------------------------------------
  // The rules of read_source_files, one by one

  /**
   * A file the walk does not open (it lies below a pruned directory, or a
   * filter rejects it) is not collected and no warning names it.
   */
  lemma UnopenedFileLeavesNoTrace(top: Dir, chain: seq<Dir>, f: File, cfg: Config)
    requires WellFormed(top) && FileUnder(top, chain, f)
    requires !(Visible(chain, cfg.excludeDirs) && Admitted(f, cfg))
    ensures KeyOf(chain, f) !in Collect(top, cfg).codeFiles
    ensures forall w :: w in Collect(top, cfg).warnings ==> w.path != KeyOf(chain, f)
  {
    var r := Collect(top, cfg);
    if KeyOf(chain, f) in r.codeFiles {
      var rel, g := EntryOrigin(top, cfg, KeyOf(chain, f));
      OnlyFromItself(top, chain, f, g, rel, cfg);
    }
    forall w | w in r.warnings ensures w.path != KeyOf(chain, f) {
      var rel, g := WarningOrigin(top, cfg, w);
      if w.path == KeyOf(chain, f) {
        OnlyFromItself(top, chain, f, g, rel, cfg);
      }
    }
  }

  /** No file anywhere below a directory whose name is in `exclude_dirs` is collected. */
  lemma ExcludedDirectoryHidden(top: Dir, chain: seq<Dir>, f: File, i: nat, cfg: Config)
    requires WellFormed(top) && FileUnder(top, chain, f)
    requires i < |chain| && chain[i].name in cfg.excludeDirs
    ensures KeyOf(chain, f) !in Collect(top, cfg).codeFiles
  {
    UnopenedFileLeavesNoTrace(top, chain, f, cfg);
  }

  /** No file anywhere below a subdirectory that directly holds a package marker is collected. */
  lemma PackageDirectoryHidden(top: Dir, chain: seq<Dir>, f: File, i: nat, cfg: Config)
    requires WellFormed(top) && FileUnder(top, chain, f)
    requires i < |chain| && HasMarker(chain[i])
    ensures KeyOf(chain, f) !in Collect(top, cfg).codeFiles
  {
    UnopenedFileLeavesNoTrace(top, chain, f, cfg);
  }

  /** A lock file is never collected, whatever its extension. */
  lemma LockFileNeverCollected(top: Dir, chain: seq<Dir>, f: File, cfg: Config)
    requires WellFormed(top) && FileUnder(top, chain, f)
    requires IsLockFile(f.name)
    ensures KeyOf(chain, f) !in Collect(top, cfg).codeFiles
  {
    UnopenedFileLeavesNoTrace(top, chain, f, cfg);
  }

  /**
   * Every collected file lies along kept directories, is no lock file, has a
   * lower-cased suffix in `include_extensions` and was not guessed to be of a
   * non-text type.
   */
  lemma CollectedFilePassedFilters(top: Dir, chain: seq<Dir>, f: File, cfg: Config)
    requires WellFormed(top) && FileUnder(top, chain, f)
    requires KeyOf(chain, f) in Collect(top, cfg).codeFiles
    ensures Visible(chain, cfg.excludeDirs)
    ensures !IsLockFile(f.name)
    ensures Lower(Suffix(f.name)) in cfg.includeExtensions
    ensures !GuessedNonText(cfg.guess(f.name))
  {
    if !(Visible(chain, cfg.excludeDirs) && Admitted(f, cfg)) {
      UnopenedFileLeavesNoTrace(top, chain, f, cfg);
    }
  }

  /**
   * A file the walk opens and can decode is collected under its root-relative
   * path, with its text after newline translation: verbatim when it holds no
   * carriage return.  Nothing about any other file matters.
   */
  lemma OpenedTextFileCollected(top: Dir, chain: seq<Dir>, f: File, cfg: Config)
    requires WellFormed(top) && FileUnder(top, chain, f)
    requires Visible(chain, cfg.excludeDirs) && Admitted(f, cfg) && f.contents.Text?
    ensures KeyOf(chain, f) in Collect(top, cfg).codeFiles
    ensures Collect(top, cfg).codeFiles[KeyOf(chain, f)] == UniversalNewlines(f.contents.decoded)
    ensures '\r' !in f.contents.decoded ==> Collect(top, cfg).codeFiles[KeyOf(chain, f)] == f.contents.decoded
  {
    ReachesFromChain(top, chain, f, cfg);
    WalkComplete(Empty, [], top, cfg);
    assert [] + (Names(chain) + [f.name]) == Names(chain) + [f.name];
    if '\r' !in f.contents.decoded {
      UniversalNewlinesKeepsPlainText(f.contents.decoded);
    }
  }

  /**
   * A file the walk opens but cannot decode or read is skipped with a warning
   * naming it; the walk goes on (every other opened text file is still
   * collected, by OpenedTextFileCollected).
   */
  lemma FailedReadSkipsOnlyThatFile(top: Dir, chain: seq<Dir>, f: File, cfg: Config)
    requires WellFormed(top) && FileUnder(top, chain, f)
    requires Visible(chain, cfg.excludeDirs) && Admitted(f, cfg) && !f.contents.Text?
    ensures KeyOf(chain, f) !in Collect(top, cfg).codeFiles
    ensures WarningFor(KeyOf(chain, f), f.contents) in Collect(top, cfg).warnings
  {
    ReachesFromChain(top, chain, f, cfg);
    WalkComplete(Empty, [], top, cfg);
    assert [] + (Names(chain) + [f.name]) == Names(chain) + [f.name];
    assert Gathered(Collect(top, cfg), KeyOf(chain, f), f);
    if KeyOf(chain, f) in Collect(top, cfg).codeFiles {
      var rel, g := EntryOrigin(top, cfg, KeyOf(chain, f));
      OnlyFromItself(top, chain, f, g, rel, cfg);
    }
  }

  /**
   * The root is never checked for package markers or excluded names: a text
   * file directly in it that passes the filters is collected under its name.
   */
  lemma RootNeverPruned(top: Dir, f: File, cfg: Config)
    requires WellFormed(top) && f in top.files
    requires Pruned(top, cfg.excludeDirs)
    requires Admitted(f, cfg) && f.contents.Text?
    ensures f.name in Collect(top, cfg).codeFiles
    ensures Collect(top, cfg).codeFiles[f.name] == UniversalNewlines(f.contents.decoded)
  {
    assert FileUnder(top, [], f);
    OpenedTextFileCollected(top, [], f, cfg);
    assert KeyOf([], f) == f.name;
  }
}
