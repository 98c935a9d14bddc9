/**
  The few Python `str` builtins the form converter relies on: `isspace`,
  `strip`, `startswith`, `endswith` and `lower`, on strings modelled as
  sequences of characters.
 */
module PyStr {

  /** The ASCII characters `str.isspace` accepts. */
  const AsciiSpaces: string := "\t\n\U{0B}\U{0C}\r\U{1C}\U{1D}\U{1E}\U{1F} "

  /** Python's `str.isspace` for one character: U+0009..U+000D,
      U+001C..U+0020, and the wider Unicode spaces below. */
  predicate IsSpace(c: char) {
    if c <= ' ' then '\t' <= c <= '\r' || '\U{1C}' <= c
    else '\U{85}' <= c && IsWideSpace(c)
  }

  /** On ASCII, IsSpace accepts exactly the characters of the table. */
  lemma IsSpaceAscii(c: char)
    requires c < '\U{80}'
    ensures IsSpace(c) <==> c in AsciiSpaces
  {
  }

  /** The characters beyond ASCII that `str.isspace` accepts. */
  predicate IsWideSpace(c: char) {
    || c == '\U{85}' || c == '\U{A0}' || c == '\U{1680}'
    || ('\U{2000}' <= c <= '\U{200A}')
    || c == '\U{2028}' || c == '\U{2029}' || c == '\U{202F}'
    || c == '\U{205F}' || c == '\U{3000}'
  }

  /** Every character of `s` is whitespace. */
  ghost predicate AllSpace(s: string) {
    forall k :: 0 <= k < |s| ==> IsSpace(s[k])
  }

  /** `s` neither begins nor ends with whitespace: what `strip` produces. */
  predicate IsStripped(s: string) {
    s == [] || (!IsSpace(s[0]) && !IsSpace(s[|s| - 1]))
  }

  /** `s.startswith(p)` */
  predicate StartsWith(s: string, p: string) {
    |p| <= |s| && s[..|p|] == p
  }

  /** `s.endswith(p)` */
  predicate EndsWith(s: string, p: string) {
    |p| <= |s| && s[|s| - |p|..] == p
  }

  /** `s` starts with `p` exactly when it is `p` followed by something. */
  lemma StartsWithConcat(s: string, p: string)
    ensures StartsWith(s, p) <==> |p| <= |s| && s == p + s[|p|..]
    ensures StartsWith(p + s, p)
  {
    assert (p + s)[..|p|] == p;
    if |p| <= |s| && s == p + s[|p|..] {
      assert s[..|p|] == (p + s[|p|..])[..|p|];
    }
  }

  /** `s` ends with `p` exactly when it is something followed by `p`. */
  lemma EndsWithConcat(s: string, p: string)
    ensures EndsWith(s, p) <==> |p| <= |s| && s == s[..|s| - |p|] + p
    ensures EndsWith(s + p, p)
  {
    assert (s + p)[|s|..] == p;
    if |p| <= |s| && s == s[..|s| - |p|] + p {
      assert s[|s| - |p|..] == (s[..|s| - |p|] + p)[|s| - |p|..];
    }
  }

  /** `r` is a contiguous piece of `s`. */
  ghost predicate IsSlice(r: string, s: string) {
    exists i, j :: 0 <= i <= j <= |s| && r == s[i..j]
  }

  /** `r` is what remains of `s` once the whitespace on both ends is cut
      off, stated without saying how it is computed. */
  ghost predicate StripOf(s: string, r: string) {
    exists i, j ::
      && 0 <= i <= j <= |s|
      && r == s[i..j]
      && AllSpace(s[..i])
      && AllSpace(s[j..])
      && IsStripped(r)
  }

  /** `s.lstrip()` */
  function TrimStart(s: string): (r: string)
    ensures |r| <= |s| && r == s[|s| - |r|..]
    ensures AllSpace(s[..|s| - |r|])
    ensures r == [] || !IsSpace(r[0])
  {
    if |s| > 0 && IsSpace(s[0]) then
      var r := TrimStart(s[1..]);
      TrimStartStep(s, r);
      r
    else
      s
  }

  /** `s.rstrip()` */
  function TrimEnd(s: string): (r: string)
    ensures |r| <= |s| && r == s[..|r|]
    ensures AllSpace(s[|r|..])
    ensures r == [] || !IsSpace(r[|r| - 1])
  {
    if |s| > 0 && IsSpace(s[|s| - 1]) then
      var r := TrimEnd(s[..|s| - 1]);
      TrimEndStep(s, r);
      r
    else
      s
  }

  /** One more whitespace character in front of what `lstrip` cut. */
  lemma TrimStartStep(s: string, r: string)
    requires |s| > 0 && IsSpace(s[0])
    requires |r| <= |s| - 1 && r == s[1..][|s| - 1 - |r|..] && AllSpace(s[1..][..|s| - 1 - |r|])
    ensures r == s[|s| - |r|..] && AllSpace(s[..|s| - |r|])
  {
    var n := |s| - |r|;
    forall k | 0 < k < n ensures IsSpace(s[..n][k]) {
      assert s[..n][k] == s[1..][..n - 1][k - 1];
    }
  }

  /** One more whitespace character after what `rstrip` cut. */
  lemma TrimEndStep(s: string, r: string)
    requires |s| > 0 && IsSpace(s[|s| - 1])
    requires |r| <= |s| - 1 && r == s[..|s| - 1][..|r|] && AllSpace(s[..|s| - 1][|r|..])
    ensures r == s[..|r|] && AllSpace(s[|r|..])
  {
    var n := |r|;
    forall k | 0 <= k < |s| - n - 1 ensures IsSpace(s[n..][k]) {
      assert s[n..][k] == s[..|s| - 1][n..][k];
    }
  }

  /** `s.strip()` */
  function Strip(s: string): (r: string)
    ensures IsStripped(r)
    ensures StripOf(s, r)
  {
    var t := TrimStart(s);
    var r := TrimEnd(t);
    StripWitness(s, t, r);
    r
  }

  /** Trimming the front and then the back leaves the stripped text. */
  lemma StripWitness(s: string, t: string, r: string)
    requires |t| <= |s| && t == s[|s| - |t|..] && AllSpace(s[..|s| - |t|])
    requires t == [] || !IsSpace(t[0])
    requires |r| <= |t| && r == t[..|r|] && AllSpace(t[|r|..])
    requires r == [] || !IsSpace(r[|r| - 1])
    ensures IsStripped(r) && StripOf(s, r)
  {
    var i := |s| - |t|;
    assert r == s[i..i + |r|];
    assert s[i + |r|..] == t[|r|..];
    if r != [] {
      assert r[0] == t[0];
    }
  }

  /** The description StripOf pins down a single result. */
  lemma StripOfUnique(s: string, r1: string, r2: string)
    requires StripOf(s, r1) && StripOf(s, r2)
    ensures r1 == r2
  {
    var i1, j1 :| 0 <= i1 <= j1 <= |s| && r1 == s[i1..j1] && AllSpace(s[..i1])
                  && AllSpace(s[j1..]) && IsStripped(r1);
    var i2, j2 :| 0 <= i2 <= j2 <= |s| && r2 == s[i2..j2] && AllSpace(s[..i2])
                  && AllSpace(s[j2..]) && IsStripped(r2);
    StripBounds(s, i1, j1, r1);
    StripBounds(s, i2, j2, r2);
    assert (r1 == []) == (r2 == []);
    assert r1 != [] ==> i1 == i2 && j1 == j2;
  }

  /** Where a stripped slice sits: every character outside it is whitespace,
      and a non-empty one starts and ends on non-whitespace. */
  lemma StripBounds(s: string, i: int, j: int, r: string)
    requires 0 <= i <= j <= |s| && r == s[i..j]
    requires AllSpace(s[..i]) && AllSpace(s[j..]) && IsStripped(r)
    ensures forall k :: 0 <= k < i ==> IsSpace(s[k])
    ensures forall k :: j <= k < |s| ==> IsSpace(s[k])
    ensures r == [] <==> i == j
    ensures r != [] ==> !IsSpace(s[i]) && !IsSpace(s[j - 1])
  {
    SpaceOutside(s, i, j);
    if r != [] {
      assert s[i] == r[0] && s[j - 1] == r[|r| - 1];
    }
  }

  /** Every character before `i` and from `j` on is whitespace. */
  lemma SpaceOutside(s: string, i: int, j: int)
    requires 0 <= i <= j <= |s|
    requires AllSpace(s[..i]) && AllSpace(s[j..])
    ensures forall k :: 0 <= k < i ==> IsSpace(s[k])
    ensures forall k :: j <= k < |s| ==> IsSpace(s[k])
  {
    forall k | 0 <= k < i ensures IsSpace(s[k]) {
      assert s[..i][k] == s[k];
    }
    forall k | j <= k < |s| ensures IsSpace(s[k]) {
      assert s[j..][k - j] == s[k];
    }
  }

  /** Stripping text padded with whitespace on both sides gives the text
      back, as long as the text itself has no whitespace at its ends. */
  lemma StripPadded(w1: string, m: string, w2: string)
    requires AllSpace(w1) && AllSpace(w2) && IsStripped(m)
    ensures Strip(w1 + m + w2) == m
  {
    var s := w1 + m + w2;
    var i, j := |w1|, |w1| + |m|;
    assert s[..i] == w1 && s[j..] == w2 && s[i..j] == m;
    assert StripOf(s, m);
    StripOfUnique(s, Strip(s), m);
  }

  /** `strip` changes nothing in a string that has no surrounding whitespace. */
  lemma StripStripped(m: string)
    requires IsStripped(m)
    ensures Strip(m) == m
  {
    StripPadded([], m, []);
    assert [] + m + [] == m;
  }

  /** `strip` is idempotent. */
  lemma StripIdempotent(s: string)
    ensures Strip(Strip(s)) == Strip(s)
  {
    StripStripped(Strip(s));
  }

  /** A slice of a slice of `s` is a slice of `s`. */
  lemma SliceOfSlice(a: string, b: string, c: string)
    requires IsSlice(a, b) && IsSlice(b, c)
    ensures IsSlice(a, c)
  {
    var i, j :| 0 <= i <= j <= |b| && a == b[i..j];
    var k, l :| 0 <= k <= l <= |c| && b == c[k..l];
    SliceOfSliceAt(c, k, l, i, j);
  }

  /** A slice of a slice, by its positions in the original. */
  lemma SliceOfSliceAt(a: string, x: int, y: int, u: int, v: int)
    requires 0 <= x <= y <= |a| && 0 <= u <= v <= y - x
    ensures a[x..y][u..v] == a[x + u..x + v]
  {
    forall m | 0 <= m < v - u ensures a[x..y][u..v][m] == a[x + u..x + v][m] {
      assert a[x..y][u..v][m] == a[x + u + m];
    }
  }

  /** Where the stripped text sits in the original. */
  lemma StripPosition(s: string) returns (i: int, j: int)
    ensures 0 <= i <= j <= |s| && Strip(s) == s[i..j]
  {
    var r := Strip(s);
    i, j :| 0 <= i <= j <= |s| && r == s[i..j] && AllSpace(s[..i])
           && AllSpace(s[j..]) && IsStripped(r);
  }

  /** Python's `str.lower` on one character, for the ASCII letters. */
  function LowerChar(c: char): char {
    if 'A' <= c <= 'Z' then (c as int + 32) as char else c
  }

  /** `s.lower()` */
  function Lower(s: string): (r: string)
    ensures |r| == |s|
  {
    seq(|s|, k requires 0 <= k < |s| => LowerChar(s[k]))
  }

  /** Lowering maps every character to one that is not an upper-case ASCII
      letter: an upper-case letter moves 32 code points up to its
      lower-case letter, and every other character stays. */
  lemma LowerResult(s: string, k: int)
    requires 0 <= k < |s|
    ensures !('A' <= Lower(s)[k] <= 'Z')
    ensures !('A' <= s[k] <= 'Z') ==> Lower(s)[k] == s[k]
    ensures 'A' <= s[k] <= 'Z' ==> Lower(s)[k] as int == s[k] as int + 32
  {
  }

  /** Lowering twice is lowering once. */
  lemma LowerIdempotent(s: string)
    ensures Lower(Lower(s)) == Lower(s)
  {
  }
}
