/**
 The part of Node's POSIX `path` module that the request handler relies on:
 `path.join` (modelled as plain concatenation with a separator) and
 `path.extname`, given both as a declarative definition over the basename and
 as the one-pass right-to-left scan Node performs.
 */
module Paths {

  const Separator: char := '/'
  const Dot: char := '.'

  /* Length of `p` once its trailing separators are dropped. */
  function TrimmedLength(p: string): (n: nat)
    ensures n <= |p|
    ensures forall k :: n <= k < |p| ==> p[k] == Separator
    ensures n > 0 ==> p[n - 1] != Separator
  {
    if |p| == 0 then 0
    else if p[|p| - 1] == Separator then TrimmedLength(p[..|p| - 1])
    else |p|
  }

  /* Index where the final segment of `p[..n]` begins: just after the last
     separator before `n`, or 0 when there is none. */
  function SegmentStart(p: string, n: nat): (s: nat)
    requires n <= |p|
    ensures s <= n
    ensures forall k :: s <= k < n ==> p[k] != Separator
    ensures s > 0 ==> p[s - 1] == Separator
  {
    if n == 0 then 0
    else if p[n - 1] == Separator then n
    else SegmentStart(p, n - 1)
  }

  /* Position of the last occurrence of `c` in `s`, or -1 when `c` does not occur. */
  function LastIndexOf(s: string, c: char): (r: int)
    ensures -1 <= r < |s|
    ensures r >= 0 ==> s[r] == c
    ensures forall k :: r < k < |s| ==> s[k] != c
  {
    if |s| == 0 then -1
    else if s[|s| - 1] == c then |s| - 1
    else LastIndexOf(s[..|s| - 1], c)
  }

  /* The final segment of `p`, trailing separators ignored (`path.basename`). */
  function Basename(p: string): (b: string)
    ensures Separator !in b
    ensures |b| > 0 ==> b[|b| - 1] != Separator
  {
    var n := TrimmedLength(p);
    p[SegmentStart(p, n)..n]
  }

  /** `path.extname`: the basename's suffix from its last dot, or "" when the
      basename has no dot, starts with its only dot, or is exactly "..". */
  function Extension(p: string): (e: string)
    ensures e == [] || (e[0] == Dot && Dot !in e[1..] && Separator !in e)
  {
    var b := Basename(p);
    var d := LastIndexOf(b, Dot);
    if d <= 0 || b == ".." then [] else b[d..]
  }

  /* `path.join(root, p)`, without normalisation of `.`, `..` or repeated separators. */
  function Join(root: string, p: string): (r: string)
    ensures |r| == |root| + 1 + |p|
    ensures r[..|root|] == root && r[|root|] == Separator && r[|root| + 1..] == p
  {
    root + [Separator] + p
  }

  /* The values of SegmentStart and LastIndexOf are pinned down by their contracts. */
  lemma SegmentStartUnique(p: string, n: nat, s: nat)
    requires s <= n <= |p|
    requires forall k :: s <= k < n ==> p[k] != Separator
    requires s > 0 ==> p[s - 1] == Separator
    ensures SegmentStart(p, n) == s
  {
  }

  lemma LastIndexOfUnique(s: string, c: char, r: int)
    requires -1 <= r < |s|
    requires r >= 0 ==> s[r] == c
    requires forall k :: r < k < |s| ==> s[k] != c
    ensures LastIndexOf(s, c) == r
  {
  }

  lemma TrimmedLengthUnique(p: string, n: nat)
    requires n <= |p|
    requires forall k :: n <= k < |p| ==> p[k] == Separator
    requires n > 0 ==> p[n - 1] != Separator
    ensures TrimmedLength(p) == n
  {
  }

  /* A separator-free name is its own basename. */
  lemma BasenameOfName(name: string)
    requires Separator !in name
    ensures Basename(name) == name
  {
    TrimmedLengthUnique(name, |name|);
    SegmentStartUnique(name, |name|, 0);
  }

  /** With `Join` as plain concatenation, the basename of a path joined onto a
      root is the basename of the joined part, whenever that part has a
      character other than a separator: the root never leaks into the
      extension. (A normalising join resolves `..` segments and can.) */
  lemma JoinBasename(root: string, p: string)
    requires exists k :: 0 <= k < |p| && p[k] != Separator
    ensures Basename(Join(root, p)) == Basename(p)
  {
    var k :| 0 <= k < |p| && p[k] != Separator;
    assert TrimmedLength(p) > k;
    BasenameAfterSeparator(Join(root, p), |root| + 1, p);
  }

  /* A path `j` that ends with a separator followed by `p` has the basename of
     `p`, when `p` has a character other than a separator. */
  lemma BasenameAfterSeparator(j: string, off: nat, p: string)
    requires 0 < off <= |j| && j[off - 1] == Separator && j[off..] == p
    requires TrimmedLength(p) > 0
    ensures Basename(j) == Basename(p)
  {
    var n := TrimmedLength(p);
    var s := SegmentStart(p, n);
    assert TrimmedLength(j) == off + n by {
      TrimmedLengthAfterSeparator(j, off, p);
    }
    assert SegmentStart(j, off + n) == off + s by {
      SegmentStartAfterSeparator(j, off, p, n);
    }
    calc {
      Basename(j);
      j[off + s..off + n];
      { assert j[off + s..off + n] == j[off..][s..n]; }
      p[s..n];
      Basename(p);
    }
  }

  /* Trailing separators of such a `j` are those of `p`. */
  lemma TrimmedLengthAfterSeparator(j: string, off: nat, p: string)
    requires 0 < off <= |j| && j[off..] == p
    requires TrimmedLength(p) > 0
    ensures TrimmedLength(j) == off + TrimmedLength(p)
  {
    var n := TrimmedLength(p);
    forall i | off + n <= i < |j|
      ensures j[i] == Separator
    {
      assert j[i] == p[i - off];
    }
    assert j[off + n - 1] == p[n - 1];
    TrimmedLengthUnique(j, off + n);
  }

  /* Inside `p`, segments of such a `j` start where they start in `p`; the
     separator before `p` ends any earlier segment. */
  lemma SegmentStartAfterSeparator(j: string, off: nat, p: string, n: nat)
    requires 0 < off <= |j| && j[off - 1] == Separator && j[off..] == p
    requires n <= |p|
    ensures SegmentStart(j, off + n) == off + SegmentStart(p, n)
  {
    var s := SegmentStart(p, n);
    forall i | off + s <= i < off + n
      ensures j[i] != Separator
    {
      assert j[i] == p[i - off];
    }
    if s > 0 {
      assert j[off + s - 1] == p[s - 1];
    }
    SegmentStartUnique(j, off + n, off + s);
  }

  /** When the basename has a non-leading dot and is not "..", the extension
      is exactly the part of the basename from its last dot on. */
  lemma ExtensionOfDottedName(p: string, stem: string, ext: string)
    requires Basename(p) == stem + ext
    requires |stem| > 0 && stem + ext != ".."
    requires |ext| > 0 && ext[0] == Dot && Dot !in ext[1..]
    ensures Extension(p) == ext
  {
    var b := stem + ext;
    forall k | |stem| < k < |b|
      ensures b[k] != Dot
    {
      assert b[k] == ext[1..][k - |stem| - 1];
    }
    LastIndexOfUnique(b, Dot, |stem|);
    assert b[|stem|..] == ext;
  }

  /** A basename whose only dot is its first character has no extension. */
  lemma ExtensionOfDotfile(p: string)
    requires |Basename(p)| > 0 && Basename(p)[0] == Dot && Dot !in Basename(p)[1..]
    ensures Extension(p) == []
  {
    var b := Basename(p);
    forall k | 0 < k < |b|
      ensures b[k] != Dot
    {
      assert b[k] == b[1..][k - 1];
    }
    LastIndexOfUnique(b, Dot, 0);
  }

  /** The extension is a suffix of the basename. */
  lemma ExtensionSuffix(p: string)
    ensures |Extension(p)| <= |Basename(p)|
    ensures Extension(p) == Basename(p)[|Basename(p)| - |Extension(p)|..]
  {
    var b := Basename(p);
    var d := LastIndexOf(b, Dot);
    if d > 0 && b != ".." {
      assert |b[d..]| == |b| - d;
    }
  }

  /** The extension is empty exactly when the basename has no dot, has a dot
      only as its first character, or is "..". */
  lemma ExtensionEmptyIff(p: string)
    ensures var b := Basename(p);
            Extension(p) == [] <==>
              Dot !in b || (b[0] == Dot && Dot !in b[1..]) || b == ".."
  {
    var b := Basename(p);
    var d := LastIndexOf(b, Dot);
    if Dot !in b {
      LastIndexOfUnique(b, Dot, -1);
    } else if b[0] == Dot && Dot !in b[1..] {
      ExtensionOfDotfile(p);
    } else if b != ".." {
      var k :| 0 <= k < |b| && b[k] == Dot;
      assert d >= k;
      assert d > 0;
      assert Extension(p) == b[d..];
    }
  }

  /** `path.extname` as Node computes it: one scan from the right that skips
      trailing separators, stops at the separator before the basename, and
      remembers the last dot and what precedes it. */
  method ExtName(path: string) returns (ext: string)
    ensures ext == Extension(path)
  {
    ghost var n := TrimmedLength(path);
    ghost var s := SegmentStart(path, n);
    var startDot := -1;
    var startPart := 0;
    var end := -1;
    var matchedSlash := true;
    var preDotState := 0;
    var i := |path| - 1;
    while i >= 0
      invariant -1 <= i < |path|
      invariant s <= i + 1
      invariant end == (if i + 1 < n then n else -1)
      invariant matchedSlash <==> end == -1
      invariant startPart == 0
      invariant startDot == -1 ==> forall k :: i < k < n ==> path[k] != Dot
      invariant startDot != -1 ==>
                  i < startDot < n && path[startDot] == Dot &&
                  forall k :: startDot < k < n ==> path[k] != Dot
      invariant preDotState ==
                  (if startDot == -1 || i + 1 == startDot then 0
                   else if path[i + 1] == Dot then 1 else -1)
      decreases i
    {
      var c := path[i];
      if c == Separator {
        if !matchedSlash {
          startPart := i + 1;
          break;
        }
      } else {
        if end == -1 {
          matchedSlash := false;
          end := i + 1;
        }
        if c == Dot {
          if startDot == -1 {
            startDot := i;
          } else if preDotState != 1 {
            preDotState := 1;
          }
        } else if startDot != -1 {
          preDotState := -1;
        }
      }
      i := i - 1;
    }
    ExtNameDecision(path, n, s, startDot, startPart, end, preDotState);
    if startDot == -1 || end == -1 || preDotState == 0 ||
       (preDotState == 1 && startDot == end - 1 && startDot == startPart + 1) {
      ext := [];
    } else {
      ext := path[startDot..end];
    }
  }

  /* Ties the final state of the scan in ExtName to the declarative Extension. */
  lemma ExtNameDecision(path: string, n: nat, s: nat, startDot: int, startPart: nat, end: int, preDotState: int)
    requires n == TrimmedLength(path) && s == SegmentStart(path, n)
    requires startPart == s
    requires end == (if s < n then n else -1)
    requires startDot == -1 ==> forall k :: s <= k < n ==> path[k] != Dot
    requires startDot != -1 ==>
               s <= startDot < n && path[startDot] == Dot &&
               forall k :: startDot < k < n ==> path[k] != Dot
    requires preDotState ==
               (if startDot == -1 || s == startDot then 0
                else if path[s] == Dot then 1 else -1)
    ensures Extension(path) ==
              if startDot == -1 || end == -1 || preDotState == 0 ||
                 (preDotState == 1 && startDot == end - 1 && startDot == startPart + 1)
              then [] else path[startDot..end]
  {
    var b := path[s..n];
    assert b == Basename(path);
    ScanLastDot(path, n, s, startDot);
    if startDot != -1 {
      assert b[startDot - s..] == path[startDot..n];
      assert |b| == 2 ==> b[0] == path[s];
    }
  }

  /* The dot the scan remembers is the basename's last dot. */
  lemma ScanLastDot(path: string, n: nat, s: nat, startDot: int)
    requires s <= n <= |path|
    requires startDot == -1 ==> forall k :: s <= k < n ==> path[k] != Dot
    requires startDot != -1 ==>
               s <= startDot < n && path[startDot] == Dot &&
               forall k :: startDot < k < n ==> path[k] != Dot
    ensures LastIndexOf(path[s..n], Dot) == if startDot == -1 then -1 else startDot - s
  {
    var b := path[s..n];
    if startDot == -1 {
      forall k | 0 <= k < |b| ensures b[k] != Dot {
        assert b[k] == path[s + k];
      }
      LastIndexOfUnique(b, Dot, -1);
    } else {
      forall k | startDot - s < k < |b| ensures b[k] != Dot {
        assert b[k] == path[s + k];
      }
      assert b[startDot - s] == path[startDot];
      LastIndexOfUnique(b, Dot, startDot - s);
    }
  }

}
