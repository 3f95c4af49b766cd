/**
 * Root-relative paths and the pathlib rules read.py relies on:
 * `str(relative_path)` joins components with one separator, and
 * `PurePath.suffix` is the part of the final name from its last dot on.
 */
module Paths {

  /** The one separator used to join path components. */
  const Sep: char := '/'

  /** `str(PurePath(*parts))`: components joined by Sep. */
  function JoinPath(parts: seq<string>): string
  {
    if |parts| == 0 then ""
    else if |parts| == 1 then parts[0]
    else parts[0] + [Sep] + JoinPath(parts[1..])
  }

  /** No component contains the separator (true of every real file name). */
  predicate SepFree(parts: seq<string>)
  {
    forall i :: 0 <= i < |parts| ==> Sep !in parts[i]
  }

  lemma SepFreeAppend(a: seq<string>, b: seq<string>)
    requires SepFree(a) && SepFree(b)
    ensures SepFree(a + b)
  {
    forall i | 0 <= i < |a + b| ensures Sep !in (a + b)[i] {
      if i < |a| {
        assert (a + b)[i] == a[i];
      } else {
        assert (a + b)[i] == b[i - |a|];
      }
    }
  }

  lemma {:induction false} JoinPathHasSep(parts: seq<string>)
    requires |parts| > 1
    ensures |parts[0]| < |JoinPath(parts)|
    ensures JoinPath(parts)[..|parts[0]|] == parts[0]
    ensures JoinPath(parts)[|parts[0]|] == Sep
    ensures JoinPath(parts)[|parts[0]| + 1..] == JoinPath(parts[1..])
  {
  }

  lemma {:induction false} JoinPathSepFree(parts: seq<string>)
    requires |parts| == 1 && SepFree(parts)
    ensures Sep !in JoinPath(parts)
  {
    assert JoinPath(parts) == parts[0];
  }

  /**
   * Two paths of separator-free components print the same only when they are
   * the same path: the relative path is a faithful key.
   */
  lemma {:induction false} JoinPathInjective(a: seq<string>, b: seq<string>)
    requires |a| > 0 && |b| > 0
    requires SepFree(a) && SepFree(b)
    requires JoinPath(a) == JoinPath(b)
    ensures a == b
    decreases |a|
  {
    if |a| > 1 && |b| > 1 {
      JoinPathHasSep(a);
      JoinPathHasSep(b);
      assert a[0] == b[0];
      assert SepFree(a[1..]) by {
        forall i | 0 <= i < |a[1..]| ensures Sep !in a[1..][i] {
          assert a[1..][i] == a[i + 1];
        }
      }
      assert SepFree(b[1..]) by {
        forall i | 0 <= i < |b[1..]| ensures Sep !in b[1..][i] {
          assert b[1..][i] == b[i + 1];
        }
      }
      JoinPathInjective(a[1..], b[1..]);
      assert a == [a[0]] + a[1..] && b == [b[0]] + b[1..];
    } else if |a| > 1 {
      JoinPathSepFree(b);
      JoinPathHasSep(a);
    } else if |b| > 1 {
      JoinPathSepFree(a);
      JoinPathHasSep(b);
    }
  }

  // ---------------------------------------------------------------------------
  // PurePath.suffix

  /** `name.rfind(c)`: the last index holding `c`, or -1. */
  function LastIndexOf(s: string, c: char): (r: int)
    ensures -1 <= r < |s|
    ensures r >= 0 ==> s[r] == c
    ensures forall j :: r < j < |s| ==> s[j] != c
    decreases |s|
  {
    if |s| == 0 then -1
    else if s[|s| - 1] == c then |s| - 1
    else LastIndexOf(s[..|s| - 1], c)
  }

  /**
   * `PurePath(name).suffix`: from the last dot on, but only when that dot is
   * neither the first nor the last character of the name; otherwise "".
   */
  function Suffix(name: string): (r: string)
    ensures r == "" || (|r| >= 2 && r[0] == '.' && '.' !in r[1..] && |r| < |name| && name[|name| - |r|..] == r)
  {
    var i := LastIndexOf(name, '.');
    if 0 < i < |name| - 1 then name[i..] else ""
  }

  /**
   * A name has a suffix exactly when a dot stands somewhere after its first
   * character and the name does not end in a dot.
   */
  lemma SuffixNonEmptyIff(name: string)
    ensures Suffix(name) != "" <==>
      (exists i :: 0 < i < |name| - 1 && name[i] == '.') && name[|name| - 1] != '.'
  {
    var k := LastIndexOf(name, '.');
    if Suffix(name) != "" {
      assert 0 < k < |name| - 1 && name[k] == '.';
    }
    if (exists i :: 0 < i < |name| - 1 && name[i] == '.') && name[|name| - 1] != '.' {
      var i :| 0 < i < |name| - 1 && name[i] == '.';
      assert i <= k;
    }
  }

  /**
   * A dot file such as ".gitignore" or ".env" has no suffix at all, so an
   * extension list entry spelled like the whole name never matches it.
   */
  lemma DotFileHasNoSuffix(name: string)
    requires |name| > 0 && name[0] == '.'
    requires '.' !in name[1..]
    ensures Suffix(name) == ""
  {
    var k := LastIndexOf(name, '.');
    assert forall j :: 0 < j < |name| ==> name[j] == name[1..][j - 1];
  }
}
