/**
  The part of Python's `pathlib.PurePath` the converter uses: the final
  component of a path (`name`) and its extension (`suffix`), for POSIX
  paths separated by '/'.
 */
module PurePath {
  import opened PyStr

  /** The position of the last `c` in `s`, or -1 when there is none
      (`str.rfind`). */
  function LastIndexOf(s: string, c: char): (r: int)
    ensures -1 <= r < |s|
    ensures r >= 0 ==> s[r] == c
    ensures forall k :: r < k < |s| ==> s[k] != c
  {
    if |s| == 0 then -1
    else if s[|s| - 1] == c then |s| - 1
    else LastIndexOf(s[..|s| - 1], c)
  }

  /** `r` is the final component of `path`: the longest end of it that
      holds no '/'. */
  ghost predicate NameOf(path: string, r: string) {
    && |r| <= |path|
    && r == path[|path| - |r|..]
    && (forall k :: |path| - |r| <= k < |path| ==> path[k] != '/')
    && (|r| < |path| ==> path[|path| - |r| - 1] == '/')
  }

  /** `PurePath(path).name`: what follows the last '/'. */
  function Name(path: string): (r: string)
    ensures NameOf(path, r)
  {
    var i := LastIndexOf(path, '/');
    path[i + 1..]
  }

  /** NameOf describes a single component. */
  lemma NameOfUnique(path: string, r1: string, r2: string)
    requires NameOf(path, r1) && NameOf(path, r2)
    ensures r1 == r2
  {
    assert |r1| == |r2|;
  }

  /** Appending `f` to a path: the name is that of `f` when `f` holds a
      '/', and otherwise the old name continued by `f`. */
  lemma NameOfConcat(p: string, f: string)
    ensures '/' in f ==> Name(p + f) == Name(f)
    ensures '/' !in f ==> Name(p + f) == Name(p) + f
  {
    var s := p + f;
    if '/' in f {
      var r := Name(f);
      assert s[|s| - |r|..] == f[|f| - |r|..];
      var j :| 0 <= j < |f| && f[j] == '/';
      assert |r| < |f|;
      assert s[|s| - |r| - 1] == f[|f| - |r| - 1];
      assert NameOf(s, r);
      NameOfUnique(s, Name(s), r);
    } else {
      var r := Name(p) + f;
      assert s[|s| - |r|..] == p[|p| - |Name(p)|..] + f;
      if |r| < |s| {
        assert s[|s| - |r| - 1] == p[|p| - |Name(p)| - 1];
      }
      assert NameOf(s, r);
      NameOfUnique(s, Name(s), r);
    }
  }

  /** `PurePath(path).suffix`: the suffix of the final component. */
  function Suffix(path: string): (r: string)
    ensures r == [] || (|r| >= 2 && r[0] == '.')
    ensures r != [] ==> '.' !in r[1..] && '/' !in r
    ensures |r| <= |path| && r == path[|path| - |r|..]
  {
    var name := Name(path);
    var r := NameSuffix(name);
    EndOfName(path, name, r);
    r
  }

  /** An end of the name is an end of the path, and holds no '/'. */
  lemma EndOfName(path: string, name: string, r: string)
    requires NameOf(path, name)
    requires |r| <= |name| && r == name[|name| - |r|..]
    ensures |r| <= |path| && r == path[|path| - |r|..] && '/' !in r
  {
    var d := |path| - |name|;
    forall k | 0 <= k < |r| ensures r[k] == path[|path| - |r| + k] && r[k] != '/' {
      assert r[k] == name[|name| - |r| + k] == path[d + |name| - |r| + k];
    }
  }

  /** The suffix of a single component: the name from its last '.',
      provided that dot is neither the first nor the last character of the
      name; otherwise the empty string. */
  function NameSuffix(name: string): (r: string)
    ensures r == [] || (|r| >= 2 && r[0] == '.')
    ensures r != [] ==> '.' !in r[1..]
    ensures |r| <= |name| && r == name[|name| - |r|..]
  {
    var i := LastIndexOf(name, '.');
    if 0 < i < |name| - 1 then
      var r := name[i..];
      assert forall k :: 0 <= k < |r| ==> r[k] == name[i + k];
      r
    else
      []
  }

  /** The last '.' of `name` is at position `k`. */
  predicate LastDotAt(name: string, k: int) {
    0 <= k < |name| && name[k] == '.' && forall m :: k < m < |name| ==> name[m] != '.'
  }

  /** When the last '.' of a name has something on both sides of it within
      the name, the suffix runs from that dot to the end. */
  lemma NameSuffixAt(name: string, k: int)
    requires LastDotAt(name, k) && 0 < k < |name| - 1
    ensures NameSuffix(name) == name[k..]
  {
    assert LastIndexOf(name, '.') == k;
  }

  /** When the last '.' of a name is its first or its last character,
      there is no suffix. */
  lemma NameSuffixAtEdge(name: string, k: int)
    requires LastDotAt(name, k) && (k == 0 || k == |name| - 1)
    ensures NameSuffix(name) == []
  {
    assert LastIndexOf(name, '.') == k;
  }

  /** Conversely, a suffix starts at the last '.' of the name, which has
      something on both sides of it within the name. */
  lemma NameSuffixDot(name: string) returns (k: int)
    requires NameSuffix(name) != []
    ensures LastDotAt(name, k) && 0 < k < |name| - 1
    ensures NameSuffix(name) == name[k..]
  {
    k := LastIndexOf(name, '.');
  }

  /** The path-level forms of the three facts above. */
  lemma SuffixAt(path: string, k: int)
    requires LastDotAt(Name(path), k) && 0 < k < |Name(path)| - 1
    ensures Suffix(path) == Name(path)[k..]
  {
    NameSuffixAt(Name(path), k);
  }

  lemma NoSuffixAtEdge(path: string, k: int)
    requires LastDotAt(Name(path), k) && (k == 0 || k == |Name(path)| - 1)
    ensures Suffix(path) == []
  {
    NameSuffixAtEdge(Name(path), k);
  }

  lemma SuffixDot(path: string) returns (k: int)
    requires Suffix(path) != []
    ensures LastDotAt(Name(path), k) && 0 < k < |Name(path)| - 1
    ensures Suffix(path) == Name(path)[k..]
  {
    k := NameSuffixDot(Name(path));
  }

  /** A name without any '.' has no suffix. */
  lemma NoSuffixWithoutDot(path: string)
    requires '.' !in Name(path)
    ensures Suffix(path) == []
  {
    assert LastIndexOf(Name(path), '.') == -1;
  }

  /** Putting anything in front of a path that has a suffix keeps that
      suffix. */
  lemma SuffixOfConcat(p: string, f: string)
    requires Suffix(f) != []
    ensures Suffix(p + f) == Suffix(f)
  {
    NameOfConcat(p, f);
    if '/' !in f {
      NameOfPlain(f);
      NameSuffixOfLonger(Name(p), f);
    }
  }

  /** Text in front of a name that has a suffix keeps that suffix. */
  lemma NameSuffixOfLonger(n: string, f: string)
    requires NameSuffix(f) != []
    ensures NameSuffix(n + f) == NameSuffix(f)
  {
    var k := NameSuffixDot(f);
    LastDotShifted(n, f, k);
    NameSuffixAt(n + f, |n| + k);
    assert (n + f)[|n| + k..] == f[k..];
  }

  /** Text in front moves the last dot along with it. */
  lemma LastDotShifted(n: string, f: string, k: int)
    requires LastDotAt(f, k)
    ensures LastDotAt(n + f, |n| + k)
  {
    forall m | |n| + k < m < |n| + |f| ensures (n + f)[m] != '.' {
      assert (n + f)[m] == f[m - |n|];
    }
  }

  /** A name without '/' is its own final component. */
  lemma NameOfPlain(path: string)
    requires '/' !in path
    ensures Name(path) == path
  {
    assert NameOf(path, path);
    NameOfUnique(path, Name(path), path);
  }

  /** A plain name made of a stem, a dot and an extension without dots has
      that extension, with its dot, as its suffix: "form.PNG" has ".PNG",
      "archive.tar.gz" has ".gz". */
  lemma SuffixOfStemAndExtension(stem: string, ext: string)
    requires '/' !in stem && '/' !in ext && '.' !in ext
    requires stem != [] && ext != []
    ensures Suffix(stem + ("." + ext)) == "." + ext
  {
    var name := stem + ("." + ext);
    PlainConcat(stem, "." + ext);
    NameOfPlain(name);
    LastDotShifted(stem, "." + ext, 0);
    NameSuffixAt(name, |stem|);
    assert name[|stem|..] == "." + ext;
  }

  /** Joining two pieces without '/' gives a piece without '/'. */
  lemma PlainConcat(a: string, b: string)
    requires '/' !in a && '/' !in b
    ensures '/' !in a + b
  {
    forall m | 0 <= m < |a + b| ensures (a + b)[m] != '/' {
      if m < |a| {
        assert (a + b)[m] == a[m];
      } else {
        assert (a + b)[m] == b[m - |a|];
      }
    }
  }

  /** A name whose only dot comes first, like ".png", has no suffix. */
  lemma NoSuffixForDotFile(rest: string)
    requires '.' !in rest && '/' !in rest
    ensures Suffix("." + rest) == []
  {
    PlainConcat(".", rest);
    NameOfPlain("." + rest);
    LeadingDotIsLast(rest);
    NameSuffixAtEdge("." + rest, 0);
  }

  lemma LeadingDotIsLast(rest: string)
    requires '.' !in rest
    ensures LastDotAt("." + rest, 0)
  {
    var name := "." + rest;
    forall m | 0 < m < |name| ensures name[m] != '.' {
      assert name[m] == rest[m - 1];
    }
  }

  /** A name that ends with its last dot, like "form.", has no suffix. */
  lemma NoSuffixForTrailingDot(stem: string)
    requires '/' !in stem
    ensures Suffix(stem + ".") == []
  {
    var name := stem + ".";
    PlainConcat(stem, ".");
    NameOfPlain(name);
    NameSuffixAtEdge(name, |stem|);
  }

  /** Lowering a character yields '.' or '/' exactly when it was one. */
  lemma LowerKeepsSeparators(c: char)
    ensures LowerChar(c) == '.' <==> c == '.'
    ensures LowerChar(c) == '/' <==> c == '/'
  {
  }

  /** Lowering commutes with slicing. */
  lemma LowerSlice(s: string, i: int, j: int)
    requires 0 <= i <= j <= |s|
    ensures Lower(s)[i..j] == Lower(s[i..j])
  {
    forall k | 0 <= k < j - i ensures Lower(s)[i..j][k] == Lower(s[i..j])[k] {
      assert Lower(s)[i..j][k] == Lower(s)[i + k];
    }
  }

  /** Lowering moves neither the last '.' nor the last '/'. */
  lemma {:induction false} LastIndexOfLower(s: string, c: char)
    requires c == '.' || c == '/'
    ensures LastIndexOf(Lower(s), c) == LastIndexOf(s, c)
  {
    if |s| > 0 {
      LowerKeepsSeparators(s[|s| - 1]);
      LowerSlice(s, 0, |s| - 1);
      LastIndexOfLower(s[..|s| - 1], c);
    }
  }

  /** The name of a lowered path is the lowered name. */
  lemma NameOfLower(path: string)
    ensures Name(Lower(path)) == Lower(Name(path))
  {
    LastIndexOfLower(path, '/');
    var i := LastIndexOf(path, '/');
    LowerSlice(path, i + 1, |path|);
  }

  /** The suffix of a lowered path is the lowered suffix: `suffix.lower()`
      can be computed on either side. */
  lemma SuffixOfLower(path: string)
    ensures Suffix(Lower(path)) == Lower(Suffix(path))
  {
    NameOfLower(path);
    NameSuffixOfLower(Name(path));
  }

  lemma NameSuffixOfLower(name: string)
    ensures NameSuffix(Lower(name)) == Lower(NameSuffix(name))
  {
    var i := LastIndexOf(name, '.');
    LastIndexOfLower(name, '.');
    NameSuffixByIndex(name, i);
    NameSuffixByIndex(Lower(name), i);
    if 0 < i < |name| - 1 {
      LowerSlice(name, i, |name|);
    } else {
      LowerEmpty();
    }
  }

  /** NameSuffix, given where the last dot is. */
  lemma NameSuffixByIndex(name: string, i: int)
    requires i == LastIndexOf(name, '.')
    ensures 0 < i < |name| - 1 ==> NameSuffix(name) == name[i..]
    ensures !(0 < i < |name| - 1) ==> NameSuffix(name) == []
  {
  }

  lemma LowerEmpty()
    ensures Lower([]) == []
  {
  }
}
