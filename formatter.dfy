/**
 * format_for_sharing: the collected files as one shareable text, one block
 * per file in ascending order of path, each block a header naming the path,
 * the file's text, and a rule of 80 '=' characters.
 */
module Formatter {
  import opened Strings

  /** What is returned for an empty dictionary. */
  const NoFilesMessage: string := "No code files found"

  /** `"=" * 80`. */
  const Rule: string := "========================================" + "========================================"

  /** The piece appended after every file's text. */
  const Trailer: string := "\n" + Rule + "\n"

  /** The piece appended before every file's text. */
  function Header(path: string): string
  {
    "\n=== " + path + " ===\n"
  }

  /** The three pieces the loop appends for one file, joined. */
  function Block(path: string, content: string): string
  {
    Header(path) + content + Trailer
  }

  /** `"".join(parts)`. */
  function Join(parts: seq<string>): string
  {
    if parts == [] then "" else Join(parts[..|parts| - 1]) + parts[|parts| - 1]
  }

  lemma JoinAppend(parts: seq<string>, x: string)
    ensures Join(parts + [x]) == Join(parts) + x
  {
    assert (parts + [x])[..|parts|] == parts;
  }

  /** The three pieces appended for one file join to its block. */
  lemma JoinBlock(parts: seq<string>, path: string, content: string)
    ensures Join(parts + [Header(path)] + [content] + [Trailer]) == Join(parts) + Block(path, content)
  {
    JoinAppend(parts, Header(path));
    JoinAppend(parts + [Header(path)], content);
    JoinAppend(parts + [Header(path)] + [content], Trailer);
  }

  // ---------------------------------------------------------------------------
  // sorted(): the keys of the dictionary in ascending order

  predicate Ascending(ks: seq<string>)
  {
    forall i, j :: 0 <= i < j < |ks| ==> Less(ks[i], ks[j])
  }

  /** `ks` lists the members of `keys` in ascending order, each once. */
  predicate SortedListing(ks: seq<string>, keys: set<string>)
  {
    && Ascending(ks)
    && (forall k :: k in ks ==> k in keys)
    && (forall k :: k in keys ==> k in ks)
  }

  /** The facts about an ascending list that placing `k` after its head relies on. */
  lemma InsertAfterHead(ks: seq<string>, k: string)
    requires Ascending(ks) && k !in ks && ks != [] && !Less(k, ks[0])
    ensures Less(ks[0], k)
    ensures Ascending(ks[1..]) && k !in ks[1..]
    ensures forall x :: x in ks[1..] ==> Less(ks[0], x)
  {
    LessTotal(k, ks[0]);
    forall i, j | 0 <= i < j < |ks[1..]| ensures Less(ks[1..][i], ks[1..][j]) {
      assert ks[1..][i] == ks[i + 1] && ks[1..][j] == ks[j + 1];
    }
    forall x | x in ks[1..] ensures Less(ks[0], x) {
      var j :| 0 <= j < |ks[1..]| && ks[1..][j] == x;
      assert ks[j + 1] == x;
    }
  }

  lemma InsertBeforeHead(ks: seq<string>, k: string)
    requires Ascending(ks) && ks != [] && Less(k, ks[0])
    ensures Ascending([k] + ks)
  {
    forall j | 0 < j < |ks| ensures Less(k, ks[j]) {
      LessTransitive(k, ks[0], ks[j]);
    }
    forall i, j | 0 <= i < j < |[k] + ks| ensures Less(([k] + ks)[i], ([k] + ks)[j]) {
      if i > 0 {
        assert ([k] + ks)[i] == ks[i - 1];
      }
      assert ([k] + ks)[j] == ks[j - 1];
    }
  }

  /** Insert `k` into an ascending list at its place. */
  function Insert(ks: seq<string>, k: string): (r: seq<string>)
    requires Ascending(ks) && k !in ks
    ensures Ascending(r)
    ensures forall x :: x in r <==> x in ks || x == k
    ensures |r| == |ks| + 1
  {
    if ks == [] then [k]
    else if Less(k, ks[0]) then
      InsertBeforeHead(ks, k);
      [k] + ks
    else
      InsertAfterHead(ks, k);
      [ks[0]] + Insert(ks[1..], k)
  }

  lemma {:induction false} SortedListingExists(keys: set<string>)
    ensures exists ks :: SortedListing(ks, keys)
    decreases |keys|
  {
    if keys == {} {
      assert SortedListing([], keys);
    } else {
      var x :| x in keys;
      SortedListingExists(keys - {x});
      var ks :| SortedListing(ks, keys - {x});
      assert SortedListing(Insert(ks, x), keys);
    }
  }

  /** The result of `sorted` on a set of keys. */
  ghost function SortedKeys(keys: set<string>): (ks: seq<string>)
    ensures SortedListing(ks, keys)
  {
    SortedListingExists(keys);
    var ks :| SortedListing(ks, keys);
    ks
  }

  /** Dropping the least key of a listing leaves a listing of the other keys. */
  lemma ListingTail(ks: seq<string>, keys: set<string>)
    requires SortedListing(ks, keys) && ks != []
    ensures SortedListing(ks[1..], keys - {ks[0]})
  {
    LessIrreflexive(ks[0]);
    forall x | x in ks[1..] ensures x in keys - {ks[0]} {
      var j :| 0 <= j < |ks[1..]| && ks[1..][j] == x;
      assert ks[j + 1] == x;
    }
    forall x | x in keys - {ks[0]} ensures x in ks[1..] {
      var j :| 0 <= j < |ks| && ks[j] == x;
      assert ks[1..][j - 1] == x;
    }
    forall i, j | 0 <= i < j < |ks[1..]| ensures Less(ks[1..][i], ks[1..][j]) {
      assert ks[1..][i] == ks[i + 1] && ks[1..][j] == ks[j + 1];
    }
  }

  lemma ListingEmpty(ks: seq<string>, keys: set<string>)
    requires SortedListing(ks, keys)
    ensures ks == [] <==> keys == {}
  {
    if ks != [] {
      assert ks[0] in ks;
    }
    if keys != {} {
      var x :| x in keys;
      assert x in ks;
    }
  }

  /** The head of a listing is below every other key. */
  lemma HeadIsLeast(ks: seq<string>, keys: set<string>, x: string)
    requires SortedListing(ks, keys) && ks != [] && x in keys && x != ks[0]
    ensures Less(ks[0], x)
  {
    var j :| 0 <= j < |ks| && ks[j] == x;
  }

  /** A set of distinct keys has one ascending listing: `sorted` is determined by the keys. */
  lemma {:induction false} SortedListingUnique(a: seq<string>, b: seq<string>, keys: set<string>)
    requires SortedListing(a, keys) && SortedListing(b, keys)
    ensures a == b
    decreases |a|
  {
    ListingEmpty(a, keys);
    ListingEmpty(b, keys);
    if a != [] && b != [] {
      assert a[0] in keys && b[0] in keys by {
        assert a[0] in a && b[0] in b;
      }
      if a[0] != b[0] {
        HeadIsLeast(a, keys, b[0]);
        HeadIsLeast(b, keys, a[0]);
        LessTransitive(a[0], b[0], a[0]);
        LessIrreflexive(a[0]);
      }
      ListingTail(a, keys);
      ListingTail(b, keys);
      SortedListingUnique(a[1..], b[1..], keys - {a[0]});
      assert a == [a[0]] + a[1..] && b == [b[0]] + b[1..];
    }
  }

  /** Builds the ascending listing of `keys` one key at a time. */
  method SortKeys(keys: set<string>) returns (ks: seq<string>)
    ensures SortedListing(ks, keys)
  {
    ks := [];
    var rest := keys;
    while rest != {}
      invariant rest <= keys
      invariant Ascending(ks)
      invariant forall x :: x in ks <==> x in keys && x !in rest
      decreases |rest|
    {
      var k :| k in rest;
      ks := Insert(ks, k);
      rest := rest - {k};
    }
  }

  // ---------------------------------------------------------------------------
  // The formatted text

  /** The blocks of the files `ks`, in that order. */
  function Render(ks: seq<string>, m: map<string, string>): string
    requires forall k :: k in ks ==> k in m
  {
    if ks == [] then "" else Render(ks[..|ks| - 1], m) + Block(ks[|ks| - 1], m[ks[|ks| - 1]])
  }

  /** What format_for_sharing returns for `m`. */
  ghost function Format(m: map<string, string>): string
  {
    if |m| == 0 then NoFilesMessage else Render(SortedKeys(m.Keys), m)
  }

  lemma RenderSnoc(ks: seq<string>, k: string, m: map<string, string>)
    requires forall x :: x in ks ==> x in m
    requires k in m
    ensures Render(ks + [k], m) == Render(ks, m) + Block(k, m[k])
  {
    assert (ks + [k])[..|ks|] == ks;
  }

  /** Rendering two runs of files one after the other renders each in turn. */
  lemma {:induction false} RenderAppend(a: seq<string>, b: seq<string>, m: map<string, string>)
    requires forall k :: k in a ==> k in m
    requires forall k :: k in b ==> k in m
    ensures Render(a + b, m) == Render(a, m) + Render(b, m)
    decreases |b|
  {
    if b != [] {
      var init := b[..|b| - 1];
      var last := b[|b| - 1];
      assert b == init + [last];
      assert a + b == (a + init) + [last];
      calc {
        Render(a + b, m);
        { RenderSnoc(a + init, last, m); }
        Render(a + init, m) + Block(last, m[last]);
        { RenderAppend(a, init, m); }
        Render(a, m) + Render(init, m) + Block(last, m[last]);
        { RenderSnoc(init, last, m); }
        Render(a, m) + Render(b, m);
      }
    } else {
      assert a + b == a;
    }
  }

  /** Any non-empty rendering starts with the newline of its first header. */
  lemma {:induction false} RenderStartsWithNewline(ks: seq<string>, m: map<string, string>)
    requires forall k :: k in ks ==> k in m
    requires ks != []
    ensures |Render(ks, m)| > 0 && Render(ks, m)[0] == '\n'
    decreases |ks|
  {
    if |ks| > 1 {
      RenderStartsWithNewline(ks[..|ks| - 1], m);
    }
  }

  /** The message for an empty dictionary is returned exactly when there are no files. */
  lemma FormatNoFilesIff(m: map<string, string>)
    ensures Format(m) == NoFilesMessage <==> |m| == 0
  {
    if |m| != 0 {
      var k :| k in m;
      var ks := SortedKeys(m.Keys);
      assert k in ks;
      RenderStartsWithNewline(ks, m);
      assert NoFilesMessage[0] == 'N';
    }
  }

  /**
   * The text is the blocks of all files in ascending order of path: the
   * `i`-th smallest path's block, with that file's text unchanged, stands
   * between the blocks of the smaller paths and those of the larger ones.
   */
  lemma FormatBlockAt(m: map<string, string>, ks: seq<string>, i: nat)
    requires SortedListing(ks, m.Keys) && i < |ks|
    ensures Format(m) == Render(ks[..i], m) + Block(ks[i], m[ks[i]]) + Render(ks[i + 1..], m)
  {
    SortedListingUnique(ks, SortedKeys(m.Keys), m.Keys);
    assert ks == ks[..i] + [ks[i]] + ks[i + 1..];
    RenderAppend(ks[..i] + [ks[i]], ks[i + 1..], m);
    RenderAppend(ks[..i], [ks[i]], m);
    assert Render([ks[i]], m) == Block(ks[i], m[ks[i]]) by {
      assert [ks[i]][..0] == [];
    }
  }

  // ---------------------------------------------------------------------------
  // Length of the text

  /** The characters one file adds: its path, its text, and the 92 of header and trailer. */
  function EntrySize(path: string, content: string): nat
  {
    |path| + |content| + 92
  }

  /** The sum of EntrySize over the entries of `m` with keys in `keys`, taken in no particular order. */
  ghost function SizeOf(keys: set<string>, m: map<string, string>): nat
    requires keys <= m.Keys
    decreases keys
  {
    if keys == {} then 0
    else
      var k :| k in keys;
      EntrySize(k, m[k]) + SizeOf(keys - {k}, m)
  }

  /** SizeOf does not depend on which entry is taken first. */
  lemma {:induction false} SizeOfAny(keys: set<string>, m: map<string, string>, k: string)
    requires keys <= m.Keys && k in keys
    ensures SizeOf(keys, m) == EntrySize(k, m[k]) + SizeOf(keys - {k}, m)
    decreases keys
  {
    var j :| j in keys && SizeOf(keys, m) == EntrySize(j, m[j]) + SizeOf(keys - {j}, m);
    if j != k {
      SizeOfAny(keys - {j}, m, k);
      SizeOfAny(keys - {k}, m, j);
      assert keys - {j} - {k} == keys - {k} - {j};
    }
  }

  lemma {:induction false} ListingSize(ks: seq<string>, keys: set<string>, m: map<string, string>)
    requires SortedListing(ks, keys) && keys <= m.Keys
    ensures |Render(ks, m)| == SizeOf(keys, m)
    decreases |ks|
  {
    ListingEmpty(ks, keys);
    if ks != [] {
      ListingTail(ks, keys);
      ListingSize(ks[1..], keys - {ks[0]}, m);
      assert ks == [ks[0]] + ks[1..];
      RenderAppend([ks[0]], ks[1..], m);
      RenderSnoc([], ks[0], m);
      assert ks[0] in ks;
      SizeOfAny(keys, m, ks[0]);
    }
  }

  /**
   * The text of a non-empty dictionary is as long as the sum, over its
   * entries, of the path's length, the text's length and 92.
   */
  lemma FormatLength(m: map<string, string>)
    ensures |m| == 0 ==> |Format(m)| == |NoFilesMessage|
    ensures |m| != 0 ==> |Format(m)| == SizeOf(m.Keys, m)
  {
    if |m| != 0 {
      ListingSize(SortedKeys(m.Keys), m.Keys, m);
    }
  }

  /**
   * format_for_sharing(code_files).  `sorted(code_files.items())` orders the
   * pairs by path, since paths in a dictionary are distinct.
   */
  method FormatForSharing(codeFiles: map<string, string>) returns (text: string)
    ensures text == Format(codeFiles)
  {
    if |codeFiles| == 0 {
      return NoFilesMessage;
    }
    var keys := SortKeys(codeFiles.Keys);
    SortedListingUnique(keys, SortedKeys(codeFiles.Keys), codeFiles.Keys);
    var formattedText: seq<string> := [];
    for i := 0 to |keys|
      invariant Join(formattedText) == Render(keys[..i], codeFiles)
    {
      var filepath := keys[i];
      var content := codeFiles[filepath];
      ghost var before := formattedText;
      formattedText := formattedText + [Header(filepath)];
      formattedText := formattedText + [content];
      formattedText := formattedText + [Trailer];
      JoinBlock(before, filepath, content);
      assert keys[..i + 1] == keys[..i] + [filepath];
      RenderSnoc(keys[..i], filepath, codeFiles);
    }
    assert keys[..|keys|] == keys;
    text := Join(formattedText);
  }
}
