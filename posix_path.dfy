/** The POSIX meaning of the `os.path` functions the engine calls:
    `join` (two arguments), `dirname`, `basename`, `splitext` and `isabs`. */
module PosixPath {
  import opened Text

  const Sep: char := '/'
  const ExtSep: char := '.'

  /** `s.rfind(c)`: the last index holding `c`, or -1. */
  function RFind(s: string, c: char): (i: int)
    ensures -1 <= i < |s|
  {
    RFindBelow(s, c, |s|)
  }

  /** The last index below `n` holding `c`, or -1. */
  function RFindBelow(s: string, c: char, n: nat): (i: int)
    requires n <= |s|
    ensures -1 <= i < n
    decreases n
  {
    if n == 0 then -1
    else if s[n - 1] == c then n - 1
    else RFindBelow(s, c, n - 1)
  }

  /** What `rfind` promises: the index holds `c`, no later index does, and
      -1 is returned exactly when `c` does not occur. */
  lemma RFindLast(s: string, c: char)
    ensures RFind(s, c) >= 0 ==> s[RFind(s, c)] == c
    ensures forall j :: RFind(s, c) < j < |s| ==> s[j] != c
    ensures RFind(s, c) == -1 <==> c !in s
  {
    RFindBelowLast(s, c, |s|);
  }

  lemma {:induction false} RFindBelowLast(s: string, c: char, n: nat)
    requires n <= |s|
    ensures RFindBelow(s, c, n) >= 0 ==> s[RFindBelow(s, c, n)] == c
    ensures forall j :: RFindBelow(s, c, n) < j < n ==> s[j] != c
    ensures RFindBelow(s, c, n) == -1 <==> forall j :: 0 <= j < n ==> s[j] != c
    decreases n
  {
    if n > 0 {
      RFindBelowLast(s, c, n - 1);
    }
  }

  /** The three facts of `RFindLast` determine the value. */
  lemma RFindUnique(s: string, c: char, i: int)
    requires -1 <= i < |s|
    requires i >= 0 ==> s[i] == c
    requires forall j :: i < j < |s| ==> s[j] != c
    ensures RFind(s, c) == i
  {
    RFindBelowUnique(s, c, |s|, i);
  }

  lemma {:induction false} RFindBelowUnique(s: string, c: char, n: nat, i: int)
    requires n <= |s| && -1 <= i < n
    requires i >= 0 ==> s[i] == c
    requires forall j :: i < j < n ==> s[j] != c
    ensures RFindBelow(s, c, n) == i
    decreases n
  {
    if n > 0 && s[n - 1] != c {
      RFindBelowUnique(s, c, n - 1, i);
    }
  }

  /** The last occurrence in a concatenation lies in the second part if it
      can, else in the first. */
  lemma RFindConcat(a: string, b: string, c: char)
    ensures RFind(a + b, c) == if RFind(b, c) >= 0 then |a| + RFind(b, c) else RFind(a, c)
  {
    RFindBelowConcat(a, b, c, |b|);
  }

  lemma {:induction false} RFindBelowConcat(a: string, b: string, c: char, k: nat)
    requires k <= |b|
    ensures RFindBelow(a + b, c, |a| + k)
         == if RFindBelow(b, c, k) >= 0 then |a| + RFindBelow(b, c, k) else RFind(a, c)
    decreases k
  {
    if k == 0 {
      RFindBelowPrefix(a, b, c, |a|);
    } else {
      assert (a + b)[|a| + k - 1] == b[k - 1];
      RFindBelowConcat(a, b, c, k - 1);
    }
  }

  /** Below the length of the first part only the first part counts. */
  lemma {:induction false} RFindBelowPrefix(a: string, b: string, c: char, n: nat)
    requires n <= |a|
    ensures RFindBelow(a + b, c, n) == RFindBelow(a, c, n)
    decreases n
  {
    if n > 0 {
      assert (a + b)[n - 1] == a[n - 1];
      RFindBelowPrefix(a, b, c, n - 1);
    }
  }

  predicate IsAbs(p: string)
  {
    |p| > 0 && p[0] == Sep
  }

  /** `os.path.join(a, b)`. */
  function Join(a: string, b: string): string
  {
    if IsAbs(b) then b
    else if a == [] || a[|a| - 1] == Sep then a + b
    else a + [Sep] + b
  }

  /** An absolute second part replaces the first; otherwise the result
      starts with the first part, followed by a `/` unless it is empty or
      already ends with one, and it always ends with the second part. */
  lemma JoinParts(a: string, b: string)
    ensures IsAbs(b) ==> Join(a, b) == b
    ensures !IsAbs(b) ==> StartsWith(Join(a, b), a)
    ensures !IsAbs(b) && a != [] && a[|a| - 1] != Sep ==> StartsWith(Join(a, b), a + [Sep])
    ensures |b| <= |Join(a, b)| && Join(a, b)[|Join(a, b)| - |b|..] == b
  {
    var r := Join(a, b);
    if !IsAbs(b) {
      if a == [] || a[|a| - 1] == Sep {
        assert r[..|a|] == a;
        assert r[|a|..] == b;
      } else {
        assert r[..|a| + 1] == a + [Sep];
        assert r[..|a|] == a;
        assert r[|a| + 1..] == b;
      }
    }
  }

  predicate AllSlashes(s: string)
  {
    forall k :: 0 <= k < |s| ==> s[k] == Sep
  }

  /** `s.rstrip("/")`. */
  function TrimSlashes(s: string): (r: string)
    ensures |r| <= |s| && r == s[..|r|]
    ensures r == [] || r[|r| - 1] != Sep
    ensures forall k :: |r| <= k < |s| ==> s[k] == Sep
    decreases |s|
  {
    if s != [] && s[|s| - 1] == Sep then TrimSlashes(s[..|s| - 1]) else s
  }

  /** `os.path.dirname(p)`: everything up to the last `/`, with the
      trailing slashes removed unless it consists of slashes only. */
  function Dirname(p: string): (r: string)
  {
    var head := p[..RFind(p, Sep) + 1];
    if head != [] && !AllSlashes(head) then TrimSlashes(head) else head
  }

  /** `os.path.basename(p)`: everything after the last `/`. */
  function Basename(p: string): (r: string)
  {
    p[RFind(p, Sep) + 1..]
  }

  /** The directory part is a prefix of the path, empty exactly when the
      path has no `/`; the base name is a suffix without `/`. */
  lemma DirnameBasename(p: string)
    ensures StartsWith(p, Dirname(p))
    ensures Dirname(p) == [] <==> Sep !in p
    ensures Sep !in Basename(p)
    ensures |Basename(p)| <= |p| && p[|p| - |Basename(p)|..] == Basename(p)
  {
    RFindLast(p, Sep);
    var i := RFind(p, Sep);
    if i == -1 {
      assert Dirname(p) == [] && Basename(p) == p;
    } else {
      DirnameNonEmpty(p, i);
      BasenameAfter(p, i);
    }
  }

  /** With a `/` in the path the directory part is a non-empty prefix. */
  lemma DirnameNonEmpty(p: string, i: nat)
    requires i == RFind(p, Sep)
    ensures StartsWith(p, Dirname(p)) && Dirname(p) != []
  {
    var head := p[..i + 1];
    if !AllSlashes(head) {
      var r := TrimSlashes(head);
      assert p[..|r|] == head[..|r|];
    }
  }

  /** What follows the last `/` is a suffix without `/`. */
  lemma BasenameAfter(p: string, i: nat)
    requires i == RFind(p, Sep)
    ensures Sep !in Basename(p) && p[|p| - |Basename(p)|..] == Basename(p)
  {
    RFindLast(p, Sep);
    var base := p[i + 1..];
    assert forall k :: 0 <= k < |base| ==> base[k] == p[i + 1 + k];
  }

  predicate AllDots(s: string)
  {
    forall k :: 0 <= k < |s| ==> s[k] == ExtSep
  }

  /** The last path component has a character other than `.`; only then
      can a `.` inside it start an extension. */
  predicate NamedStem(s: string)
  {
    !AllDots(s[RFind(s, Sep) + 1..])
  }

  /** `os.path.splitext(p)`: the extension starts at the last `.` of the
      last component, unless everything before that `.` in the component
      is dots (so `.bashrc` and `...` have none). */
  function SplitExt(p: string): (r: (string, string))
    ensures r.0 + r.1 == p
  {
    var sepIndex := RFind(p, Sep);
    var dotIndex := RFind(p, ExtSep);
    if dotIndex > sepIndex && !AllDots(p[sepIndex + 1..dotIndex]) then (p[..dotIndex], p[dotIndex..])
    else (p, [])
  }

  /** A non-empty extension is a `.` followed by a text without `.` or `/`,
      and the root in front of it has a stem. */
  lemma SplitExtParts(p: string)
    ensures var (root, ext) := SplitExt(p);
      ext != [] ==> ext[0] == ExtSep && ExtSep !in ext[1..] && Sep !in ext && NamedStem(root)
  {
    var sepIndex, dotIndex := RFind(p, Sep), RFind(p, ExtSep);
    if dotIndex > sepIndex && !AllDots(p[sepIndex + 1..dotIndex]) {
      ExtensionAt(p, sepIndex, dotIndex);
      RootAt(p, sepIndex, dotIndex);
    }
  }

  /** From the last `.`, when it follows the last `/`, there is no other
      `.` and no `/`. */
  lemma ExtensionAt(p: string, sepIndex: int, dotIndex: nat)
    requires sepIndex == RFind(p, Sep) && dotIndex == RFind(p, ExtSep) && dotIndex > sepIndex
    ensures p[dotIndex..][0] == ExtSep && ExtSep !in p[dotIndex..][1..] && Sep !in p[dotIndex..]
  {
    RFindLast(p, Sep);
    RFindLast(p, ExtSep);
    var ext := p[dotIndex..];
    assert forall j :: 0 <= j < |ext| ==> ext[j] == p[dotIndex + j];
    assert ext[1..] == p[dotIndex + 1..];
  }

  /** What precedes that `.` keeps the same last component start. */
  lemma RootAt(p: string, sepIndex: int, dotIndex: nat)
    requires sepIndex == RFind(p, Sep) && dotIndex == RFind(p, ExtSep) && dotIndex > sepIndex
    requires !AllDots(p[sepIndex + 1..dotIndex])
    ensures NamedStem(p[..dotIndex])
  {
    var root, ext := p[..dotIndex], p[dotIndex..];
    ExtensionAt(p, sepIndex, dotIndex);
    RFindAbsent(ext, Sep);
    assert root + ext == p;
    RFindConcat(root, ext, Sep);
    assert root[sepIndex + 1..] == p[sepIndex + 1..dotIndex];
  }

  /** A text without `c` has no last `c`. */
  lemma RFindAbsent(s: string, c: char)
    requires c !in s
    ensures RFind(s, c) == -1
  {
    RFindLast(s, c);
  }

  /** Appending `.ext` to a name with a stem gives a name whose extension
      is exactly `.ext` and whose root is the name. */
  lemma SplitExtOfAppendedExtension(root: string, ext: string)
    requires NamedStem(root)
    requires ExtSep !in ext && Sep !in ext
    ensures SplitExt(root + [ExtSep] + ext) == (root, [ExtSep] + ext)
  {
    var tail := [ExtSep] + ext;
    var p := root + tail;
    assert root + [ExtSep] + ext == p;
    RFindAbsent(tail, Sep);
    RFindAbsent(ext, ExtSep);
    RFindConcat(root, tail, Sep);
    RFindConcat([ExtSep], ext, ExtSep);
    RFindConcat(root, tail, ExtSep);
    var s := RFind(root, Sep);
    assert RFind(p, Sep) == s;
    assert RFind(p, ExtSep) == |root|;
    assert p[s + 1..|root|] == root[s + 1..];
    assert p[..|root|] == root;
    assert p[|root|..] == tail;
  }

  /** Appending text without `.` or `/` to a name without an extension
      leaves it without one. */
  lemma SplitExtOfAppendedPlain(n: string, tail: string)
    requires SplitExt(n).1 == []
    requires ExtSep !in tail && Sep !in tail
    ensures SplitExt(n + tail) == (n + tail, [])
  {
    RFindAbsent(tail, Sep);
    RFindAbsent(tail, ExtSep);
    RFindConcat(n, tail, Sep);
    RFindConcat(n, tail, ExtSep);
    var s, d := RFind(n, Sep), RFind(n, ExtSep);
    if d > s {
      assert (n + tail)[s + 1..d] == n[s + 1..d];
    }
  }

  /** Appending text without `/` keeps a stem a stem. */
  lemma NamedStemAppend(root: string, tail: string)
    requires NamedStem(root)
    requires Sep !in tail
    ensures NamedStem(root + tail)
  {
    RFindAbsent(tail, Sep);
    RFindConcat(root, tail, Sep);
    var s := RFind(root, Sep);
    var k :| 0 <= k < |root[s + 1..]| && root[s + 1..][k] != ExtSep;
    assert (root + tail)[s + 1..][k] == root[s + 1..][k];
  }

  /** Only the last component decides the extension: putting a directory
      in front of a path does not change its extension. */
  lemma SplitExtAfterDirectory(dir: string, q: string)
    requires dir != [] && dir[|dir| - 1] == Sep
    ensures SplitExt(dir + q).1 == SplitExt(q).1
  {
    var p := dir + q;
    var o := |dir|;
    var sq, dq := RFind(q, Sep), RFind(q, ExtSep);
    RFindConcat(dir, q, Sep);
    RFindConcat(dir, q, ExtSep);
    assert RFind(dir, Sep) == o - 1;
    assert RFind(p, Sep) == o + sq;
    if dq >= 0 {
      assert RFind(p, ExtSep) == o + dq;
      if dq > sq {
        ExtensionShifted(dir, q, sq, dq);
      }
    } else {
      assert RFind(p, ExtSep) == RFind(dir, ExtSep);
      assert RFindBelow(dir, ExtSep, o) == RFindBelow(dir, ExtSep, o - 1);
    }
  }

  /** When the last `/` and the last `.` of `dir + q` are those of `q`,
      the two have the same extension. */
  lemma ExtensionShifted(dir: string, q: string, sq: int, dq: nat)
    requires sq == RFind(q, Sep) && dq == RFind(q, ExtSep) && dq > sq
    requires RFind(dir + q, Sep) == |dir| + sq && RFind(dir + q, ExtSep) == |dir| + dq
    ensures SplitExt(dir + q).1 == SplitExt(q).1
  {
    SliceAfter(dir, q, sq + 1, dq);
    DropAfter(dir, q, dq);
  }

  /** A suffix of the second part of a concatenation. */
  lemma DropAfter(a: string, b: string, i: int)
    requires 0 <= i <= |b|
    ensures (a + b)[|a| + i..] == b[i..]
  {
  }

  /** A slice of the second part of a concatenation. */
  lemma SliceAfter(a: string, b: string, i: int, j: int)
    requires 0 <= i <= j <= |b|
    ensures (a + b)[|a| + i..|a| + j] == b[i..j]
  {
  }

  /** `join` keeps the extension of its second argument. */
  lemma SplitExtOfJoin(a: string, q: string)
    requires !IsAbs(q)
    ensures SplitExt(Join(a, q)).1 == SplitExt(q).1
  {
    var p := Join(a, q);
    if a == [] {
      assert p == q;
    } else if a[|a| - 1] == Sep {
      assert p == a + q;
      SplitExtAfterDirectory(a, q);
    } else {
      assert p == (a + [Sep]) + q;
      SplitExtAfterDirectory(a + [Sep], q);
    }
  }

  /** A directory in normal form: empty, all slashes, or not ending in `/`. */
  predicate NormalDir(d: string)
  {
    d == [] || d[|d| - 1] != Sep || AllSlashes(d)
  }

  /** `dirname` and `basename` take apart what `join` put together. */
  lemma DirnameBasenameOfJoin(d: string, n: string)
    requires NormalDir(d)
    requires Sep !in n
    ensures Dirname(Join(d, n)) == d
    ensures Basename(Join(d, n)) == n
  {
    var p := Join(d, n);
    RFindAbsent(n, Sep);
    if d == [] {
      assert p == n;
    } else if d[|d| - 1] == Sep {
      assert p == d + n;
      RFindConcat(d, n, Sep);
      assert p[..|d|] == d;
      assert p[|d|..] == n;
    } else {
      assert p == (d + [Sep]) + n;
      RFindConcat(d + [Sep], n, Sep);
      var head := p[..|d| + 1];
      assert head == d + [Sep];
      assert !AllSlashes(head) by { assert head[|d| - 1] != Sep; }
      assert TrimSlashes(head) == TrimSlashes(d) by {
        assert head[..|head| - 1] == d;
      }
      assert p[|d| + 1..] == n;
    }
  }

  /** No `//` anywhere in the path. */
  predicate NoDoubleSlash(p: string)
    decreases |p|
  {
    |p| < 2 || (!(p[|p| - 2] == Sep && p[|p| - 1] == Sep) && NoDoubleSlash(p[..|p| - 1]))
  }

  /** In such a path a `/` after the first position follows another character. */
  lemma {:induction false} NoDoubleSlashAt(p: string, i: int)
    requires NoDoubleSlash(p)
    requires 0 < i < |p| && p[i] == Sep
    ensures p[i - 1] != Sep
    decreases |p|
  {
    if i < |p| - 1 {
      var init := p[..|p| - 1];
      assert init[i] == p[i] && init[i - 1] == p[i - 1];
      NoDoubleSlashAt(init, i);
    }
  }

  /** `join(dirname(p), basename(p))` gives back a path without `//`. */
  lemma JoinDirnameBasename(p: string)
    requires NoDoubleSlash(p)
    ensures Join(Dirname(p), Basename(p)) == p
  {
    RFindLast(p, Sep);
    if RFind(p, Sep) == -1 {
      JoinDirnameBasenameOfName(p);
    } else {
      JoinDirnameBasenameAt(p, RFind(p, Sep));
    }
  }

  lemma JoinDirnameBasenameOfName(p: string)
    requires RFind(p, Sep) == -1
    ensures Join(Dirname(p), Basename(p)) == p
  {
    assert Basename(p) == p;
    assert Dirname(p) == [];
  }

  lemma JoinDirnameBasenameAt(p: string, i: nat)
    requires NoDoubleSlash(p)
    requires i == RFind(p, Sep)
    ensures Join(Dirname(p), Basename(p)) == p
  {
    BasenameAt(p, i);
    DirnameAt(p, i);
    SplitAroundIndex(p, i);
    var base := p[i + 1..];
    if i == 0 {
      assert Join([Sep], base) == [Sep] + base;
    } else {
      assert Join(p[..i], base) == p[..i] + [Sep] + base;
    }
  }

  /** After the last `/` comes a relative name. */
  lemma BasenameAt(p: string, i: nat)
    requires i == RFind(p, Sep)
    ensures Basename(p) == p[i + 1..] && !IsAbs(p[i + 1..])
  {
    RFindLast(p, Sep);
    if i + 1 < |p| {
      assert p[i + 1..][0] == p[i + 1];
    }
  }

  /** Without `//`, the directory part is everything before the last `/`,
      or `/` itself when that is the first character. */
  lemma DirnameAt(p: string, i: nat)
    requires NoDoubleSlash(p)
    requires i == RFind(p, Sep)
    ensures p[i] == Sep
    ensures i == 0 ==> Dirname(p) == [Sep]
    ensures i > 0 ==> Dirname(p) == p[..i] && p[i - 1] != Sep
  {
    RFindLast(p, Sep);
    if i > 0 {
      NoDoubleSlashAt(p, i);
      var head, dir := p[..i + 1], p[..i];
      assert head == dir + [Sep];
      assert head[i - 1] != Sep;
      TrimOneSlash(dir);
    }
  }

  /** A path is what comes before an index, the character there, and what
      follows it. */
  lemma SplitAroundIndex(p: string, i: nat)
    requires i < |p|
    ensures p == p[..i] + [p[i]] + p[i + 1..]
  {
  }

  /** `rstrip("/")` removes one trailing `/` after a name not ending in `/`. */
  lemma TrimOneSlash(d: string)
    requires d != [] && d[|d| - 1] != Sep
    ensures TrimSlashes(d + [Sep]) == d
  {
    assert (d + [Sep])[..|d|] == d;
  }
}
