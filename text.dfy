/** The Python `str` operations the batch engine relies on: `startswith`,
    `in`, `replace`, `split`, `lower`, `strip` and `str(int)`. */
module Text {

  /** `s.startswith(prefix)`; `s.find(prefix) == 0` means the same. */
  predicate StartsWith(s: string, prefix: string)
  {
    |prefix| <= |s| && s[..|prefix|] == prefix
  }

  /** `sub in s`: some suffix of `s` starts with `sub`. */
  predicate Contains(s: string, sub: string)
    decreases |s|
  {
    StartsWith(s, sub) || (|s| > 0 && Contains(s[1..], sub))
  }

  /** `s.replace(pattern, replacement)`: every non-overlapping occurrence,
      scanned from the left, is replaced. An empty pattern matches before
      every character and at the end, as in Python. */
  function ReplaceAll(s: string, pattern: string, replacement: string): (r: string)
    ensures !Contains(s, pattern) ==> r == s
    ensures StartsWith(s, pattern) && pattern != [] ==> StartsWith(r, replacement)
    decreases |s|
  {
    if pattern == [] then
      if s == [] then replacement
      else replacement + [s[0]] + ReplaceAll(s[1..], pattern, replacement)
    else if |s| < |pattern| then s
    else if s[..|pattern|] == pattern then
      replacement + ReplaceAll(s[|pattern|..], pattern, replacement)
    else [s[0]] + ReplaceAll(s[1..], pattern, replacement)
  }

  /** A prefix occurrence is replaced and scanning resumes after it. */
  lemma ReplaceAllAtPrefix(pattern: string, rest: string, replacement: string)
    requires pattern != []
    requires !Contains(rest, pattern)
    ensures ReplaceAll(pattern + rest, pattern, replacement) == replacement + rest
  {
    var s := pattern + rest;
    assert s[..|pattern|] == pattern;
    assert s[|pattern|..] == rest;
  }

  /** An occurrence at the front is replaced and scanning resumes right
      after it, whatever follows. */
  lemma ReplaceAllFront(pattern: string, rest: string, replacement: string)
    requires pattern != []
    ensures ReplaceAll(pattern + rest, pattern, replacement) == replacement + ReplaceAll(rest, pattern, replacement)
  {
    var s := pattern + rest;
    assert s[..|pattern|] == pattern;
    assert s[|pattern|..] == rest;
  }

  /** A first character that does not start an occurrence is kept. */
  lemma ReplaceAllSkip(c: char, rest: string, pattern: string, replacement: string)
    requires pattern != [] && !StartsWith([c] + rest, pattern)
    ensures ReplaceAll([c] + rest, pattern, replacement) == [c] + ReplaceAll(rest, pattern, replacement)
  {
    assert ([c] + rest)[1..] == rest;
  }

  /** No occurrence of `pattern` starts at any of the first `n` positions
      of `s`. */
  predicate NoMatchBefore(s: string, pattern: string, n: nat)
    decreases n
  {
    n == 0 || (s != [] && !StartsWith(s, pattern) && NoMatchBefore(s[1..], pattern, n - 1))
  }

  /** `NoMatchBefore` says what its name says: no position `k < n` starts
      an occurrence. */
  lemma {:induction false} NoMatchBeforeAt(s: string, pattern: string, n: nat)
    requires n <= |s|
    ensures NoMatchBefore(s, pattern, n) <==> forall k :: 0 <= k < n ==> !StartsWith(s[k..], pattern)
    decreases n
  {
    if n > 0 {
      NoMatchBeforeAt(s[1..], pattern, n - 1);
      assert s[0..] == s;
      forall k | 1 <= k < n ensures s[k..] == s[1..][k - 1..] { }
    }
  }

  /** The meaning of `replace` for a non-empty pattern: the text before the
      leftmost occurrence is kept, that occurrence is replaced, and the
      rest is replaced in turn, so no two replaced occurrences overlap. */
  lemma {:induction false} ReplaceAllLeftmost(before: string, pattern: string, after: string, replacement: string)
    requires pattern != []
    requires NoMatchBefore(before + pattern + after, pattern, |before|)
    ensures ReplaceAll(before + pattern + after, pattern, replacement)
         == before + replacement + ReplaceAll(after, pattern, replacement)
    decreases |before|
  {
    if before == [] {
      assert before + pattern + after == pattern + after;
      ReplaceAllFront(pattern, after, replacement);
    } else {
      var s := before + pattern + after;
      var tail := before[1..];
      var rest := tail + pattern + after;
      var done := ReplaceAll(after, pattern, replacement);
      assert s[1..] == rest;
      ReplaceAllLeftmost(tail, pattern, after, replacement);
      LeftmostStep(s, rest, pattern, replacement, tail + replacement + done);
      assert before == [s[0]] + tail;
      ConsAssoc(s[0], tail, replacement, done);
    }
  }

  lemma ConsAssoc(c: char, a: string, b: string, d: string)
    ensures [c] + (a + b + d) == [c] + a + b + d
  {
  }

  /** The step of `ReplaceAllLeftmost`: a first character that starts no
      occurrence is kept in front of the replaced tail. */
  lemma LeftmostStep(s: string, rest: string, pattern: string, replacement: string, replacedRest: string)
    requires pattern != [] && s != [] && !StartsWith(s, pattern) && s[1..] == rest
    requires ReplaceAll(rest, pattern, replacement) == replacedRest
    ensures ReplaceAll(s, pattern, replacement) == [s[0]] + replacedRest
  {
    assert s == [s[0]] + rest;
    ReplaceAllSkip(s[0], rest, pattern, replacement);
  }

  /** A string that starts with a character other than the first of
      `pattern` contains `pattern` only if its tail does. */
  lemma ContainsCons(c: char, rest: string, pattern: string)
    requires pattern != [] && pattern[0] != c
    ensures Contains([c] + rest, pattern) == Contains(rest, pattern)
  {
    assert ([c] + rest)[1..] == rest;
  }

  /** `s.split(sep)` for a one-character separator: the pieces between
      separators, including empty ones; never an empty list. */
  function Split(s: string, sep: char): (parts: seq<string>)
    ensures |parts| >= 1
    decreases |s|
  {
    if s == [] then [[]]
    else
      var rest := Split(s[1..], sep);
      if s[0] == sep then [[]] + rest
      else [[s[0]] + rest[0]] + rest[1..]
  }

  /** No piece of a split holds the separator. */
  lemma {:induction false} SplitPiecesFree(s: string, sep: char)
    ensures forall i :: 0 <= i < |Split(s, sep)| ==> sep !in Split(s, sep)[i]
    decreases |s|
  {
    if s != [] {
      var rest := Split(s[1..], sep);
      var parts := Split(s, sep);
      SplitPiecesFree(s[1..], sep);
      forall i | 0 <= i < |parts| ensures sep !in parts[i] {
        if s[0] == sep {
          if i > 0 {
            assert parts[i] == rest[i - 1];
          }
        } else if i == 0 {
          assert parts[0] == [s[0]] + rest[0];
        } else {
          assert parts[i] == rest[i];
        }
      }
    }
  }

  /** `sep.join(parts)`, the inverse of `Split`. */
  function JoinWith(parts: seq<string>, sep: char): string
    requires |parts| >= 1
    decreases |parts|
  {
    if |parts| == 1 then parts[0]
    else parts[0] + [sep] + JoinWith(parts[1..], sep)
  }

  /** Joining the pieces of a split gives back the original string. */
  lemma {:induction false} JoinSplit(s: string, sep: char)
    ensures JoinWith(Split(s, sep), sep) == s
    decreases |s|
  {
    if s != [] {
      var rest := Split(s[1..], sep);
      JoinSplit(s[1..], sep);
      if s[0] == sep {
        assert Split(s, sep) == [[]] + rest;
        assert ([[]] + rest)[1..] == rest;
      } else {
        var parts := [[s[0]] + rest[0]] + rest[1..];
        assert Split(s, sep) == parts;
        if |rest| == 1 {
          assert JoinWith(rest, sep) == rest[0];
        } else {
          assert parts[1..] == rest[1..];
          assert JoinWith(rest, sep) == rest[0] + [sep] + JoinWith(rest[1..], sep);
        }
      }
    }
  }

  /** A string without the separator splits into itself alone. */
  lemma {:induction false} SplitWithoutSeparator(s: string, sep: char)
    requires sep !in s
    ensures Split(s, sep) == [s]
    decreases |s|
  {
    if s != [] {
      assert s[1..] == s[1..];
      assert sep !in s[1..] by {
        forall k | 0 <= k < |s[1..]| ensures s[1..][k] != sep { assert s[1..][k] == s[k + 1]; }
      }
      SplitWithoutSeparator(s[1..], sep);
      assert [s[0]] + s[1..] == s;
    }
  }

  /** A separator in the middle of a string splits both sides apart. */
  lemma {:induction false} SplitAround(u: string, sep: char, v: string)
    ensures Split(u + [sep] + v, sep) == Split(u, sep) + Split(v, sep)
    decreases |u|
  {
    var s := u + [sep] + v;
    if u == [] {
      assert s[0] == sep && s[1..] == v;
    } else {
      assert s[0] == u[0];
      assert s[1..] == u[1..] + [sep] + v;
      SplitAround(u[1..], sep, v);
    }
  }

  /** Splitting a join of separator-free pieces gives back the pieces. */
  lemma {:induction false} SplitJoin(parts: seq<string>, sep: char)
    requires |parts| >= 1
    requires forall i :: 0 <= i < |parts| ==> sep !in parts[i]
    ensures Split(JoinWith(parts, sep), sep) == parts
    decreases |parts|
  {
    SplitWithoutSeparator(parts[0], sep);
    if |parts| > 1 {
      SplitJoin(parts[1..], sep);
      SplitAround(parts[0], sep, JoinWith(parts[1..], sep));
      assert [parts[0]] + parts[1..] == parts;
    }
  }

  /** Every piece of a split is made of characters of the split string. */
  lemma {:induction false} SplitPieceChars(s: string, sep: char, i: nat, x: char)
    requires i < |Split(s, sep)| && x in Split(s, sep)[i]
    ensures x in s
    decreases |s|
  {
    if s != [] {
      var rest := Split(s[1..], sep);
      if s[0] == sep {
        assert Split(s, sep)[i] == rest[i - 1];
        SplitPieceChars(s[1..], sep, i - 1, x);
      } else if i == 0 {
        if x != s[0] {
          assert x in rest[0];
          SplitPieceChars(s[1..], sep, 0, x);
        }
      } else {
        assert Split(s, sep)[i] == rest[i];
        SplitPieceChars(s[1..], sep, i, x);
      }
      assert s == [s[0]] + s[1..];
    }
  }

  /** Each `c` replaced by `d`, position by position. */
  function ReplaceChar(s: string, c: char, d: char): (r: string)
    ensures |r| == |s|
    ensures forall i :: 0 <= i < |s| ==> r[i] == if s[i] == c then d else s[i]
  {
    seq(|s|, i requires 0 <= i < |s| => if s[i] == c then d else s[i])
  }

  /** `s.replace(c, d)` for one-character strings replaces characters. */
  lemma {:induction false} ReplaceAllOneChar(s: string, c: char, d: char)
    ensures ReplaceAll(s, [c], [d]) == ReplaceChar(s, c, d)
    decreases |s|
  {
    if s != [] {
      ReplaceAllOneChar(s[1..], c, d);
      assert s[..1] == [s[0]];
      assert ReplaceChar(s, c, d) == [if s[0] == c then d else s[0]] + ReplaceChar(s[1..], c, d);
    }
  }

  /** Python's ASCII lower-casing of one character. */
  function LowerChar(c: char): char
  {
    if 'A' <= c <= 'Z' then (c as int + 32) as char else c
  }

  /** `s.lower()` restricted to ASCII letters. */
  function Lower(s: string): (r: string)
    ensures |r| == |s|
    ensures forall i :: 0 <= i < |s| ==> r[i] == LowerChar(s[i])
    ensures forall i :: 0 <= i < |r| ==> !('A' <= r[i] <= 'Z')
    decreases |s|
  {
    if s == [] then [] else [LowerChar(s[0])] + Lower(s[1..])
  }

  /** Lower-casing twice is lower-casing once. */
  lemma LowerIdempotent(s: string)
    ensures Lower(Lower(s)) == Lower(s)
  {
    assert forall i :: 0 <= i < |s| ==> Lower(Lower(s))[i] == Lower(s)[i];
  }

  /** The characters `str.strip()` removes, limited to ASCII. */
  predicate IsSpace(c: char)
  {
    c == ' ' || '\t' <= c <= '\r' || '\U{1c}' <= c <= '\U{1f}'
  }

  /** `s.lstrip()`. */
  function TrimStart(s: string): (r: string)
    ensures |r| <= |s| && r == s[|s| - |r|..]
    ensures r == [] || !IsSpace(r[0])
    ensures forall k :: 0 <= k < |s| - |r| ==> IsSpace(s[k])
    decreases |s|
  {
    if s != [] && IsSpace(s[0]) then TrimStart(s[1..]) else s
  }

  /** `s.rstrip()`. */
  function TrimEnd(s: string): (r: string)
    ensures |r| <= |s| && r == s[..|r|]
    ensures r == [] || !IsSpace(r[|r| - 1])
    ensures forall k :: |r| <= k < |s| ==> IsSpace(s[k])
    decreases |s|
  {
    if s != [] && IsSpace(s[|s| - 1]) then TrimEnd(s[..|s| - 1]) else s
  }

  /** `s.strip()`: the longest inner part with no surrounding white space.
      The result is a slice of `s`, and only white space lies outside it. */
  function Strip(s: string): (r: string)
    ensures r == [] || (!IsSpace(r[0]) && !IsSpace(r[|r| - 1]))
    ensures |r| <= |s|
    ensures exists i :: TrimmedAt(s, r, i)
    ensures (s == [] || (!IsSpace(s[0]) && !IsSpace(s[|s| - 1]))) ==> r == s
  {
    var t := TrimStart(s);
    var r := TrimEnd(t);
    StripSlice(s, t, r);
    r
  }

  /** `r` is the slice of `s` from `i` on, and only white space lies
      around it. */
  predicate TrimmedAt(s: string, r: string, i: int)
  {
    && 0 <= i <= |s| - |r| && r == s[i..i + |r|]
    && (forall k :: 0 <= k < i ==> IsSpace(s[k]))
    && (forall k :: i + |r| <= k < |s| ==> IsSpace(s[k]))
  }

  /** Trimming the front, then the back, leaves a slice with only white
      space around it. */
  lemma StripSlice(s: string, t: string, r: string)
    requires |t| <= |s| && t == s[|s| - |t|..] && forall k :: 0 <= k < |s| - |t| ==> IsSpace(s[k])
    requires |r| <= |t| && r == t[..|r|] && forall k :: |r| <= k < |t| ==> IsSpace(t[k])
    ensures TrimmedAt(s, r, |s| - |t|)
  {
    var i := |s| - |t|;
    SliceOfSuffix(s, i, |r|);
    forall k | i + |r| <= k < |s| ensures IsSpace(s[k]) {
      assert |r| <= k - i < |t|;
      assert s[k] == t[k - i];
    }
  }

  lemma SliceOfSuffix(s: string, i: nat, n: nat)
    requires i + n <= |s|
    ensures s[i..][..n] == s[i..i + n]
  {
  }

  function DigitChar(d: nat): (c: char)
    requires d < 10
    ensures '0' <= c <= '9'
  {
    ('0' as int + d) as char
  }

  /** The value of a digit character. */
  function DigitValue(c: char): nat
  {
    if '0' <= c <= '9' then c as int - '0' as int else 0
  }

  /** The number a string of decimal digits spells, most significant first. */
  function DecimalValue(s: string): nat
    decreases |s|
  {
    if s == [] then 0 else 10 * DecimalValue(s[..|s| - 1]) + DigitValue(s[|s| - 1])
  }

  /** `str(n)` for a non-negative integer: the decimal digits that spell `n`. */
  function NatToString(n: nat): (r: string)
    ensures |r| >= 1
    ensures forall k :: 0 <= k < |r| ==> '0' <= r[k] <= '9'
    ensures DecimalValue(r) == n
    decreases n
  {
    if n < 10 then [DigitChar(n)]
    else
      var r := NatToString(n / 10) + [DigitChar(n % 10)];
      assert r[..|r| - 1] == NatToString(n / 10);
      r
  }

  /** Different numbers have different decimal strings. */
  lemma NatToStringInjective(m: nat, n: nat)
    requires NatToString(m) == NatToString(n)
    ensures m == n
  {
  }

  function Pow10(k: nat): (p: nat)
    ensures p >= 1
  {
    if k == 0 then 1 else 10 * Pow10(k - 1)
  }

  /** A number of at least `10^k` has more than `k` decimal digits. */
  lemma {:induction false} NatToStringLength(n: nat, k: nat)
    requires n >= Pow10(k)
    ensures |NatToString(n)| > k
    decreases k
  {
    if k > 0 {
      assert n >= 10;
      assert n / 10 >= Pow10(k - 1);
      NatToStringLength(n / 10, k - 1);
    }
  }
}
