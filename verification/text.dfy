/** String helpers shared by every component of the publisher: Python's notion
    of whitespace, strip(), literal substring search, ASCII case folding, and
    the join of a list of strings with a separator. */
module Text {

  datatype Option<T> = None | Some(value: T)

  /** The characters for which Python's str.isspace() holds: the set `\s`
      matches in a str pattern and the set str.strip() removes. */
  predicate IsSpace(c: char) {
    || c == ' '
    || '\t' <= c <= '\r'
    || '\U{1C}' <= c <= '\U{1F}'
    || c == '\U{85}'
    || c == '\U{A0}'
    || c == '\U{1680}'
    || '\U{2000}' <= c <= '\U{200A}'
    || c == '\U{2028}'
    || c == '\U{2029}'
    || c == '\U{202F}'
    || c == '\U{205F}'
    || c == '\U{3000}'
  }

  // ---------------------------------------------------------------------
  // Trimming
  // ---------------------------------------------------------------------

  /** Length of the longest prefix of `s` whose characters all satisfy `p`. */
  function SkipWhile(s: string, p: char -> bool): (k: nat)
    ensures k <= |s|
    ensures forall i :: 0 <= i < k ==> p(s[i])
    ensures k < |s| ==> !p(s[k])
  {
    if s == [] || !p(s[0]) then 0 else 1 + SkipWhile(s[1..], p)
  }

  /** Position just after the last character of `s` that fails `p` (0 if none). */
  function SkipWhileBack(s: string, p: char -> bool): (k: nat)
    ensures k <= |s|
    ensures forall i :: k <= i < |s| ==> p(s[i])
    ensures k > 0 ==> !p(s[k - 1])
  {
    if s == [] || !p(s[|s| - 1]) then |s| else SkipWhileBack(s[..|s| - 1], p)
  }

  /** First position kept by a two-sided trim. */
  function TrimStart(s: string, p: char -> bool): (i: nat)
    ensures i <= |s|
  {
    SkipWhile(s, p)
  }

  /** Position after the last character kept by a two-sided trim. */
  function TrimEnd(s: string, p: char -> bool): (j: nat)
    ensures TrimStart(s, p) <= j <= |s|
  {
    if SkipWhile(s, p) == |s| then |s| else SkipWhileBack(s, p)
  }

  /** Python's s.strip(chars): drop the characters satisfying `p` at both ends. */
  function TrimBy(s: string, p: char -> bool): (r: string)
    ensures r == s[TrimStart(s, p)..TrimEnd(s, p)]
    ensures forall i :: 0 <= i < TrimStart(s, p) ==> p(s[i])
    ensures forall i :: TrimEnd(s, p) <= i < |s| ==> p(s[i])
    ensures r != [] ==> !p(r[0]) && !p(r[|r| - 1])
    ensures r == [] <==> forall i :: 0 <= i < |s| ==> p(s[i])
  {
    s[TrimStart(s, p)..TrimEnd(s, p)]
  }

  /** Python's s.strip() with no argument. */
  function Strip(s: string): (r: string)
    ensures r != [] ==> !IsSpace(r[0]) && !IsSpace(r[|r| - 1])
    ensures r == [] <==> forall i :: 0 <= i < |s| ==> IsSpace(s[i])
  {
    TrimBy(s, IsSpace)
  }

  /** A string with no `p` at either end is its own trim. */
  lemma TrimByOfTrimmed(s: string, p: char -> bool)
    requires s != [] ==> !p(s[0]) && !p(s[|s| - 1])
    ensures TrimBy(s, p) == s
  {
  }

  /** Trimming a string whose ends are already free of `p`, padded on
      both sides with characters satisfying `p`, gives back that string. */
  lemma TrimByFrame(s: string, a: string, m: string, b: string, p: char -> bool)
    requires s == a + m + b
    requires forall i :: 0 <= i < |a| ==> p(a[i])
    requires forall i :: 0 <= i < |b| ==> p(b[i])
    requires m != [] ==> !p(m[0]) && !p(m[|m| - 1])
    ensures TrimBy(s, p) == m
  {
    if m == [] {
      assert forall i :: 0 <= i < |s| ==> p(s[i]) by {
        assert s == a + b;
      }
    } else {
      var k := SkipWhile(s, p);
      assert s[|a|] == m[0];
      assert k == |a|;
      var j := SkipWhileBack(s, p);
      var e := |a| + |m|;
      assert s[e - 1] == m[|m| - 1];
      assert j == e;
      assert s[|a|..e] == m;
    }
  }

  // ---------------------------------------------------------------------
  // Literal substring search
  // ---------------------------------------------------------------------

  /** `t` occurs in `s` starting at position `i`. */
  predicate Occurs(s: string, t: string, i: int) {
    0 <= i && i + |t| <= |s| && s[i..i + |t|] == t
  }

  /** No occurrence of `t` in `s` starts in [lo, hi): the scan a search
      makes before it reaches `hi`. */
  predicate Absent(s: string, t: string, lo: int, hi: int)
    decreases hi - lo
  {
    lo >= hi || (!Occurs(s, t, lo) && Absent(s, t, lo + 1, hi))
  }

  lemma {:induction false} AbsentIff(s: string, t: string, lo: int, hi: int)
    ensures Absent(s, t, lo, hi) <==> forall q :: lo <= q < hi ==> !Occurs(s, t, q)
    decreases hi - lo
  {
    if lo < hi {
      AbsentIff(s, t, lo + 1, hi);
    }
  }

  /** A stretch of a slice without `t` is one of the whole string too. */
  lemma {:induction false} AbsentInSlice(s: string, lo: nat, hi: nat, t: string, a: int, b: int)
    requires lo <= hi <= |s| && Absent(s, t, lo + a, lo + b)
    ensures Absent(s[lo..hi], t, a, b)
    decreases b - a
  {
    if a < b {
      OccursInSlice(s, lo, hi, t, a);
      AbsentInSlice(s, lo, hi, t, a + 1, b);
    }
  }

  lemma SliceAfter<T>(a: seq<T>, b: seq<T>, i: nat, j: nat)
    requires i <= j <= |b|
    ensures (a + b)[|a| + i..|a| + j] == b[i..j]
  {
    var x := (a + b)[|a| + i..|a| + j];
    forall k | 0 <= k < j - i
      ensures x[k] == b[i..j][k]
    {
      assert x[k] == (a + b)[|a| + i + k];
    }
  }

  lemma SliceOfSlice<T>(s: seq<T>, lo: nat, hi: nat, i: nat, j: nat)
    requires lo <= hi <= |s| && i <= j <= hi - lo
    ensures s[lo..hi][i..j] == s[lo + i..lo + j]
  {
    var x := s[lo..hi][i..j];
    var y := s[lo + i..lo + j];
    assert |x| == |y|;
    forall k | 0 <= k < |x|
      ensures x[k] == y[k]
    {
      assert x[k] == s[lo..hi][i + k];
    }
  }

  /** Two occurrences that are both the first one at or after `lo` are the
      same occurrence. */
  lemma FirstOccurrenceUnique(s: string, t: string, lo: int, x: int, y: int)
    requires lo <= x && Occurs(s, t, x) && Absent(s, t, lo, x)
    requires lo <= y && Occurs(s, t, y) && Absent(s, t, lo, y)
    ensures x == y
  {
    AbsentIff(s, t, lo, x);
    AbsentIff(s, t, lo, y);
  }

  /** An occurrence at `x` with none between `from` and `x` is what
      FindFrom finds. */
  lemma FindFromExact(s: string, t: string, from: nat, x: int)
    requires from <= x && from <= |s| && Occurs(s, t, x) && Absent(s, t, from, x)
    ensures FindFrom(s, t, from) == Some(x)
  {
    AbsentIff(s, t, from, x);
    var f := FindFrom(s, t, from);
    assert f.Some?;
    assert f.value == x;
  }

  /** Index of the first occurrence of `t` in `s` (Python's s.find(t), with
      None for -1). */
  function Find(s: string, t: string): (r: Option<nat>)
    ensures r.Some? ==> Occurs(s, t, r.value)
    ensures r.Some? ==> forall j :: 0 <= j < r.value ==> !Occurs(s, t, j)
    ensures r.None? ==> forall j :: !Occurs(s, t, j)
  {
    FindFrom(s, t, 0)
  }

  /** First occurrence of `t` in `s` at or after `from` (Python's s.find(t, from)). */
  function FindFrom(s: string, t: string, from: nat): (r: Option<nat>)
    requires from <= |s|
    ensures r.Some? ==> from <= r.value && Occurs(s, t, r.value)
    ensures r.Some? ==> forall j :: from <= j < r.value ==> !Occurs(s, t, j)
    ensures r.None? ==> forall j :: from <= j ==> !Occurs(s, t, j)
    decreases |s| - from
  {
    if from + |t| > |s| then None
    else if Occurs(s, t, from) then Some(from)
    else FindFrom(s, t, from + 1)
  }

  /** Prepending text in which no occurrence of `t` starts shifts the first
      occurrence by the length of that text. */
  lemma FindShift(a: string, b: string, t: string)
    requires forall j :: 0 <= j < |a| ==> !Occurs(a + b, t, j)
    ensures Find(b, t).None? ==> Find(a + b, t).None?
    ensures Find(b, t).Some? ==> Find(a + b, t).Some? && Find(a + b, t).value == Find(b, t).value + |a|
  {
    var s := a + b;
    var f := Find(b, t);
    var n := if f.Some? then f.value else |b| + 1;
    forall j | |a| <= j < |a| + n
      ensures !Occurs(s, t, j)
    {
      OccursAfter(a, b, t, j - |a|);
    }
    if f.None? {
      forall j | |a| + n <= j
        ensures !Occurs(s, t, j)
      {
      }
      FindNone(s, t);
    } else {
      OccursAfter(a, b, t, n);
      FindFirst(s, t, |a| + n);
    }
  }

  /** Find only looks as far as the end of the first occurrence: a text
      that agrees up to there finds the same one. */
  lemma FindKeptByPrefix(s1: string, s2: string, t: string, i: nat)
    requires Find(s1, t) == Some(i)
    requires i + |t| <= |s2| && s2[..i + |t|] == s1[..i + |t|]
    ensures Find(s2, t) == Some(i)
  {
    var n := i + |t|;
    forall j | 0 <= j < i
      ensures !Occurs(s2, t, j)
    {
      SamePrefixSlice(s1, s2, n, j, j + |t|);
      assert !Occurs(s1, t, j);
    }
    SamePrefixSlice(s1, s2, n, i, n);
    assert Occurs(s2, t, i);
    FindFirst(s2, t, i);
  }

  lemma SamePrefixSlice(s1: string, s2: string, n: nat, a: nat, b: nat)
    requires a <= b <= n <= |s1| && n <= |s2| && s1[..n] == s2[..n]
    ensures s1[a..b] == s2[a..b]
  {
    forall k | a <= k < b
      ensures s1[k] == s2[k]
    {
      assert s1[k] == s1[..n][k];
      assert s2[k] == s2[..n][k];
    }
  }

  /** The first occurrence is what Find returns. */
  lemma FindFirst(s: string, t: string, i: nat)
    requires Occurs(s, t, i)
    requires forall j :: 0 <= j < i ==> !Occurs(s, t, j)
    ensures Find(s, t) == Some(i)
  {
  }

  /** Without any occurrence, Find returns None. */
  lemma FindNone(s: string, t: string)
    requires forall j :: !Occurs(s, t, j)
    ensures Find(s, t).None?
  {
  }

  /** An occurrence past a prefix is an occurrence in the rest. */
  lemma OccursAfter(a: string, b: string, t: string, j: nat)
    ensures Occurs(a + b, t, |a| + j) <==> Occurs(b, t, j)
  {
    if j + |t| <= |b| {
      assert (a + b)[|a| + j..|a| + j + |t|] == b[j..j + |t|];
    }
  }

  /** If `t` does not occur in `x` and its last character appears nowhere
      else in `t`, the first occurrence of `t` in `x + t + y` is the one
      right after `x`: no occurrence can straddle the boundary. */
  lemma FindAfterClean(x: string, t: string, y: string)
    requires t != []
    requires forall j :: !Occurs(x, t, j)
    requires forall k :: 0 <= k < |t| - 1 ==> t[k] != t[|t| - 1]
    ensures Find(x + t + y, t) == Some(|x|)
  {
    var s := x + t + y;
    assert s[|x|..|x| + |t|] == t;
    assert Occurs(s, t, |x|);
    forall j | 0 <= j < |x|
      ensures !Occurs(s, t, j)
    {
      if j + |t| <= |x| {
        assert s[j..j + |t|] == x[j..j + |t|];
        assert !Occurs(x, t, j);
      } else {
        var last := j + |t| - 1;
        assert |x| <= last < |x| + |t| - 1;
        assert s[last] == t[last - |x|];
        assert t[last - |x|] != t[|t| - 1];
        assert s[j..j + |t|][|t| - 1] != t[|t| - 1];
      }
    }
  }

  /** A string in which every occurrence of `t[0]` is followed by a
      character other than `t[1]` contains no occurrence of `t` anywhere
      before its end, whatever follows it. */
  lemma NoOccurrenceBefore(a: string, b: string, t: string)
    requires |t| >= 2
    requires forall j :: 0 <= j < |a| && a[j] == t[0] ==> j + 1 < |a| && a[j + 1] != t[1]
    ensures forall j :: 0 <= j < |a| ==> !Occurs(a + b, t, j)
  {
    forall j | 0 <= j < |a|
      ensures !Occurs(a + b, t, j)
    {
      if a[j] == t[0] {
        assert (a + b)[j + 1] == a[j + 1];
      }
    }
  }

  /** Occurrences inside a slice are occurrences in the whole string, and an
      occurrence of the whole string that lies within the slice is one of the
      slice. */
  lemma OccursInSlice(s: string, lo: nat, hi: nat, t: string, q: int)
    requires lo <= hi <= |s|
    ensures Occurs(s[lo..hi], t, q) ==> Occurs(s, t, lo + q)
    ensures 0 <= q && lo + q + |t| <= hi && Occurs(s, t, lo + q) ==> Occurs(s[lo..hi], t, q)
  {
    if 0 <= q && lo + q + |t| <= hi {
      var a := s[lo..hi][q..q + |t|];
      var b := s[lo + q..lo + q + |t|];
      assert |a| == |b|;
      assert forall i :: 0 <= i < |a| ==> a[i] == s[lo + q + i] == b[i];
      assert a == b;
    }
  }

  // ---------------------------------------------------------------------
  // Case folding
  // ---------------------------------------------------------------------

  /** Lower-case an ASCII letter; every other character is left alone. */
  function Lower(c: char): (d: char)
    ensures 'A' <= c <= 'Z' ==> d as int == c as int + 32
    ensures !('A' <= c <= 'Z') ==> d == c
    ensures !('A' <= d <= 'Z')
  {
    if 'A' <= c <= 'Z' then (c as int + 32) as char else c
  }

  /** Python's s.lower(), restricted to ASCII letters. */
  function LowerStr(s: string): (r: string)
    ensures |r| == |s|
    ensures forall i :: 0 <= i < |s| ==> r[i] == Lower(s[i])
  {
    seq(|s|, i requires 0 <= i < |s| => Lower(s[i]))
  }

  lemma LowerStrConcat(a: string, b: string)
    ensures LowerStr(a + b) == LowerStr(a) + LowerStr(b)
  {
  }

  // ---------------------------------------------------------------------
  // Joining
  // ---------------------------------------------------------------------

  /** Python's sep.join(parts). */
  function Join(parts: seq<string>, sep: string): (r: string)
    ensures |parts| == 1 ==> r == parts[0]
    decreases |parts|
  {
    if |parts| == 0 then ""
    else if |parts| == 1 then parts[0]
    else parts[0] + sep + Join(parts[1..], sep)
  }

  /** Splicing `m` into `s` at `k` keeps what was before and after `k`. */
  lemma Splice(s: string, k: nat, m: string)
    requires k <= |s|
    ensures |s[..k] + m + s[k..]| == |s| + |m|
    ensures (s[..k] + m + s[k..])[..k] == s[..k]
    ensures (s[..k] + m + s[k..])[k..k + |m|] == m
    ensures (s[..k] + m + s[k..])[k + |m|..] == s[k..]
  {
  }

  /** Joining a part in front of more parts puts one separator between. */
  lemma JoinCons(a: string, rest: seq<string>, sep: string)
    ensures rest == [] ==> Join([a] + rest, sep) == a
    ensures rest != [] ==> Join([a] + rest, sep) == a + sep + Join(rest, sep)
  {
    assert ([a] + rest)[1..] == rest;
  }

  /** Position of `parts[i]` inside Join(parts, sep). */
  function JoinOffset(parts: seq<string>, sep: string, i: nat): nat
    requires i < |parts|
    decreases i
  {
    if i == 0 then 0 else |parts[0]| + |sep| + JoinOffset(parts[1..], sep, i - 1)
  }

  /** Every part appears in the join at its offset, and the offsets respect
      the order of the parts: nothing is reordered. */
  lemma {:induction false} JoinContainsParts(parts: seq<string>, sep: string, i: nat)
    requires i < |parts|
    ensures Occurs(Join(parts, sep), parts[i], JoinOffset(parts, sep, i))
    ensures i + 1 < |parts| ==>
              JoinOffset(parts, sep, i) + |parts[i]| + |sep| == JoinOffset(parts, sep, i + 1)
    decreases i
  {
    var s := Join(parts, sep);
    if i == 0 {
      if |parts| > 1 {
        assert s == parts[0] + sep + Join(parts[1..], sep);
        assert s[0..|parts[0]|] == parts[0];
      }
    } else {
      JoinContainsParts(parts[1..], sep, i - 1);
      var rest := Join(parts[1..], sep);
      var pre := parts[0] + sep;
      var o := JoinOffset(parts[1..], sep, i - 1);
      assert s == pre + rest;
      assert s[|pre| + o..|pre| + o + |parts[i]|] == rest[o..o + |parts[i]|];
    }
  }

  /** Between two neighbouring parts stands exactly the separator. */
  lemma {:induction false} JoinSeparator(parts: seq<string>, sep: string, i: nat)
    requires i + 1 < |parts|
    ensures Occurs(Join(parts, sep), sep, JoinOffset(parts, sep, i) + |parts[i]|)
    decreases i
  {
    var s := Join(parts, sep);
    var rest := Join(parts[1..], sep);
    var pre := parts[0] + sep;
    assert s == pre + rest;
    if i == 0 {
      assert s[|parts[0]|..|pre|] == sep;
    } else {
      JoinSeparator(parts[1..], sep, i - 1);
      var o := JoinOffset(parts[1..], sep, i - 1) + |parts[i]|;
      assert s[|pre| + o..|pre| + o + |sep|] == rest[o..o + |sep|];
    }
  }

  /** The join ends with its last part: nothing follows it. */
  lemma {:induction false} JoinLength(parts: seq<string>, sep: string)
    requires parts != []
    ensures |Join(parts, sep)| == JoinOffset(parts, sep, |parts| - 1) + |parts[|parts| - 1]|
    decreases |parts|
  {
    if |parts| > 1 {
      JoinLength(parts[1..], sep);
    }
  }

  /** `s` is tiled by `parts` and `sep`: part `i` at its join offset, the
      separator right after it, the next part right after that, and the last
      part at the very end. */
  ghost predicate Tiled(s: string, parts: seq<string>, sep: string) {
    && (parts == [] ==> s == "")
    && (parts != [] ==> JoinOffset(parts, sep, 0) == 0)
    && (forall i :: 0 <= i < |parts| ==> Occurs(s, parts[i], JoinOffset(parts, sep, i)))
    && (forall i :: 0 <= i < |parts| - 1 ==>
          && Occurs(s, sep, JoinOffset(parts, sep, i) + |parts[i]|)
          && JoinOffset(parts, sep, i + 1) == JoinOffset(parts, sep, i) + |parts[i]| + |sep|)
    && (parts != [] ==> |s| == JoinOffset(parts, sep, |parts| - 1) + |parts[|parts| - 1]|)
  }

  /** A join is tiled by its parts and separators. */
  lemma JoinTiles(parts: seq<string>, sep: string)
    ensures Tiled(Join(parts, sep), parts, sep)
  {
    if parts != [] {
      JoinPartsAll(parts, sep);
      JoinSeparatorsAll(parts, sep);
      JoinLength(parts, sep);
      assert JoinOffset(parts, sep, 0) == 0;
    }
  }

  lemma JoinPartsAll(parts: seq<string>, sep: string)
    ensures forall i :: 0 <= i < |parts| ==> Occurs(Join(parts, sep), parts[i], JoinOffset(parts, sep, i))
  {
    forall i | 0 <= i < |parts|
      ensures Occurs(Join(parts, sep), parts[i], JoinOffset(parts, sep, i))
    {
      JoinContainsParts(parts, sep, i);
    }
  }

  lemma JoinSeparatorsAll(parts: seq<string>, sep: string)
    ensures forall i :: 0 <= i < |parts| - 1 ==>
              && Occurs(Join(parts, sep), sep, JoinOffset(parts, sep, i) + |parts[i]|)
              && JoinOffset(parts, sep, i + 1) == JoinOffset(parts, sep, i) + |parts[i]| + |sep|
  {
    forall i | 0 <= i < |parts| - 1
      ensures Occurs(Join(parts, sep), sep, JoinOffset(parts, sep, i) + |parts[i]|)
      ensures JoinOffset(parts, sep, i + 1) == JoinOffset(parts, sep, i) + |parts[i]| + |sep|
    {
      JoinContainsParts(parts, sep, i);
      JoinSeparator(parts, sep, i);
    }
  }
}
