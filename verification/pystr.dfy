/** The slice of Python's `str` the bot relies on, with Python's semantics:
    `find` answers -1 on a miss, slices normalise negative indices and clamp,
    `replace` rewrites non-overlapping occurrences left to right, `split` with
    an explicit separator always yields at least one part, `strip` removes
    Unicode whitespace at both ends. Strings are sequences of code points, so
    `|s|` is Python's `len(s)`. */
module PyStr {

  /** The characters for which Python's `str.isspace()` holds, i.e. the ones
      `str.strip()` with no argument removes. */
  const SPACES: set<char> := {
    ' ', '\t', '\n', '\r', '\U{0B}', '\U{0C}', '\U{1C}', '\U{1D}', '\U{1E}',
    '\U{1F}', '\U{85}', '\U{A0}', '\U{1680}', '\U{2000}', '\U{2001}', '\U{2002}',
    '\U{2003}', '\U{2004}', '\U{2005}', '\U{2006}', '\U{2007}', '\U{2008}',
    '\U{2009}', '\U{200A}', '\U{2028}', '\U{2029}', '\U{202F}', '\U{205F}',
    '\U{3000}'
  }

  /** Python's `c.isspace()`. */
  predicate IsSpace(c: char)
  {
    c in SPACES
  }

  /** `w` occurs in `s` starting at index `i`. */
  predicate OccursAt(s: string, w: string, i: int)
  {
    0 <= i && i + |w| <= |s| && s[i..i + |w|] == w
  }

  /** Python's `w in s`. */
  predicate Contains(s: string, w: string)
  {
    exists i :: 0 <= i <= |s| - |w| && OccursAt(s, w, i)
  }

  /** Python's `s.find(w, start)` for a non-negative `start`. */
  function FindFrom(s: string, w: string, start: nat): (r: int)
    ensures -1 <= r
    ensures r >= 0 ==> start <= r && OccursAt(s, w, r)
    ensures forall i :: start <= i && (r < 0 || i < r) ==> !OccursAt(s, w, i)
    decreases |s| - start
  {
    if start + |w| > |s| then -1
    else if s[start..start + |w|] == w then start
    else FindFrom(s, w, start + 1)
  }

  /** Python's `s.find(w, start)`: a negative start counts from the end. */
  function FindAt(s: string, w: string, start: int): (r: int)
    ensures -1 <= r
    ensures r >= 0 ==> OccursAt(s, w, r)
    ensures 0 <= start ==> r == FindFrom(s, w, start)
  {
    FindFrom(s, w, if start >= 0 then start else if start + |s| >= 0 then start + |s| else 0)
  }

  /** Python's `s.find(w)`: the first occurrence, or -1. */
  function Find(s: string, w: string): (r: int)
    ensures -1 <= r
    ensures r >= 0 <==> Contains(s, w)
    ensures r >= 0 ==> OccursAt(s, w, r)
    ensures forall i :: 0 <= i && (r < 0 || i < r) ==> !OccursAt(s, w, i)
  {
    FindFrom(s, w, 0)
  }

  /** A first occurrence is what `Find` reports. */
  lemma FindIsFirst(s: string, w: string, k: int)
    requires OccursAt(s, w, k)
    requires forall i :: 0 <= i < k ==> !OccursAt(s, w, i)
    ensures Find(s, w) == k
  {
  }

  /** Python's normalisation of one slice bound against a length `n`. */
  function Clamp(i: int, n: nat): (k: nat)
    ensures k <= n
    ensures 0 <= i <= n ==> k == i
    ensures i < 0 && -i <= n ==> k == n + i
  {
    if i < 0 then (if i + n < 0 then 0 else i + n)
    else if i > n then n
    else i
  }

  /** Python's `s[lo:hi]`. */
  function Slice(s: string, lo: int, hi: int): (r: string)
    ensures Contains(s, r)
    ensures 0 <= lo <= hi <= |s| ==> r == s[lo..hi]
    ensures lo == 0 && hi < 0 && -hi <= |s| ==> r == s[..|s| + hi]
    ensures 0 <= lo <= |s| <= hi ==> r == s[lo..]
  {
    var a := Clamp(lo, |s|);
    var b := Clamp(hi, |s|);
    if a < b then
      assert OccursAt(s, s[a..b], a);
      s[a..b]
    else
      assert OccursAt(s, [], 0);
      []
  }

  /** Python's `s.replace(pat, rep)`: every non-overlapping occurrence of
      `pat`, scanning left to right, becomes `rep`; an empty `pat` inserts
      `rep` before every character and at the end. */
  function ReplaceAll(s: string, pat: string, rep: string): string
    decreases |s|
  {
    if |pat| == 0 then
      (if |s| == 0 then rep else rep + [s[0]] + ReplaceAll(s[1..], pat, rep))
    else if |s| < |pat| then s
    else if s[..|pat|] == pat then rep + ReplaceAll(s[|pat|..], pat, rep)
    else [s[0]] + ReplaceAll(s[1..], pat, rep)
  }

  /** Python's `s.split(sep)` for a non-empty separator (Python raises
      `ValueError` on an empty one). */
  function Split(s: string, sep: string): (parts: seq<string>)
    requires |sep| > 0
    ensures |parts| >= 1
    ensures forall k :: 0 <= k < |parts| ==> !Contains(parts[k], sep)
    decreases |s|
  {
    var i := Find(s, sep);
    if i < 0 then [s]
    else
      PrefixBeforeFirst(s, sep, i);
      assert !Contains(s[..i], sep);
      [s[..i]] + Split(s[i + |sep|..], sep)
  }

  /** An occurrence that ends by `n` is an occurrence in the prefix `s[..n]`. */
  lemma OccursInPrefix(s: string, n: nat, w: string, i: int)
    requires 0 <= i && i + |w| <= n <= |s|
    ensures OccursAt(s[..n], w, i) <==> OccursAt(s, w, i)
  {
    SliceOfSlice(s, 0, n, i, i + |w|);
  }

  /** A search from `start` gives the same answer on a prefix that still
      holds the occurrence it finds. */
  lemma FindAtInPrefix(s: string, w: string, start: nat, n: nat)
    requires FindAt(s, w, start) >= 0 && FindAt(s, w, start) + |w| <= n <= |s|
    ensures FindAt(s[..n], w, start) == FindAt(s, w, start)
  {
    var k := FindAt(s, w, start);
    var t := s[..n];
    OccursInPrefix(s, n, w, k);
    forall i | start <= i < k
      ensures !OccursAt(t, w, i)
    {
      OccursInPrefix(s, n, w, i);
    }
  }

  /** `find` gives the same answer on a prefix that still holds the first
      occurrence. */
  lemma FindInPrefix(s: string, w: string, n: nat)
    requires Find(s, w) >= 0 && Find(s, w) + |w| <= n <= |s|
    ensures Find(s[..n], w) == Find(s, w)
  {
    var k := Find(s, w);
    var t := s[..n];
    OccursInPrefix(s, n, w, k);
    forall i | 0 <= i < k
      ensures !OccursAt(t, w, i)
    {
      OccursInPrefix(s, n, w, i);
    }
    FindIsFirst(t, w, k);
  }

  /** Replacing a pattern that occurs once, after a prefix that cannot
      start it and before a suffix too short to hold it. */
  lemma ReplaceSingle(pre: string, p: string, post: string, rep: string)
    requires |p| > 0 && p[0] !in pre && |post| < |p|
    ensures ReplaceAll(pre + p + post, p, rep) == pre + rep + post
  {
    var s := pre + p + post;
    assert s[..|pre|] == pre;
    assert s[|pre|..|pre| + |p|] == p;
    assert s[|pre| + |p|..] == post;
    forall j | 0 <= j < |pre|
      ensures !OccursAt(s, p, j)
    {
      if OccursAt(s, p, j) {
        CharOfOccurrence(s, p, j, j);
      }
    }
    ReplaceAtFirst(s, p, rep, |pre|);
  }

  /** Dropping the last character adds no occurrence. */
  lemma DropLastAvoids(s: string, w: string)
    requires |s| > 0 && !Contains(s, w)
    ensures !Contains(s[..|s| - 1], w)
  {
    assert OccursAt(s, s[..|s| - 1], 0);
    if Contains(s[..|s| - 1], w) {
      ContainsTrans(s, s[..|s| - 1], w);
    }
  }

  /** Splitting at the first occurrence of the separator. */
  lemma SplitFirst(s: string, sep: string, i: int)
    requires |sep| > 0 && OccursAt(s, sep, i)
    requires forall j :: 0 <= j < i ==> !OccursAt(s, sep, j)
    ensures Split(s, sep) == [s[..i]] + Split(s[i + |sep|..], sep)
  {
    FindIsFirst(s, sep, i);
  }

  /** A string without the separator splits into itself alone. */
  lemma SplitNone(s: string, sep: string)
    requires |sep| > 0 && !Contains(s, sep)
    ensures Split(s, sep) == [s]
  {
  }

  /** The first part of a split is a prefix of the string. */
  lemma SplitHeadPrefix(s: string, sep: string)
    requires |sep| > 0
    ensures Split(s, sep)[0] <= s
    ensures Contains(s, Split(s, sep)[0])
  {
    assert OccursAt(s, Split(s, sep)[0], 0);
  }

  /** A string that lacks the first character of `w` cannot contain `w`. */
  lemma FirstCharAbsent(s: string, w: string)
    requires |w| > 0 && w[0] !in s
    ensures !Contains(s, w)
  {
    forall i | 0 <= i <= |s| - |w|
      ensures !OccursAt(s, w, i)
    {
      if OccursAt(s, w, i) {
        CharOfOccurrence(s, w, i, i);
      }
    }
  }

  /** Python's `sep.join(parts)`. */
  function Join(sep: string, parts: seq<string>): string
  {
    if |parts| == 0 then []
    else if |parts| == 1 then parts[0]
    else parts[0] + sep + Join(sep, parts[1..])
  }

  /** Python's `s.lstrip()`. */
  function LStrip(s: string): (r: string)
    ensures |r| <= |s| && r == s[|s| - |r|..]
    ensures forall i :: 0 <= i < |s| - |r| ==> IsSpace(s[i])
    ensures |r| > 0 ==> !IsSpace(r[0])
    decreases |s|
  {
    if |s| > 0 && IsSpace(s[0]) then LStrip(s[1..]) else s
  }

  /** Python's `s.rstrip()`. */
  function RStrip(s: string): (r: string)
    ensures |r| <= |s| && r == s[..|r|]
    ensures forall i :: |r| <= i < |s| ==> IsSpace(s[i])
    ensures |r| > 0 ==> !IsSpace(r[|r| - 1])
    decreases |s|
  {
    if |s| > 0 && IsSpace(s[|s| - 1]) then RStrip(s[..|s| - 1]) else s
  }

  /** Neither end of `s` is whitespace. */
  predicate Stripped(s: string)
  {
    |s| == 0 || (!IsSpace(s[0]) && !IsSpace(s[|s| - 1]))
  }

  /** `r` occurs in `s` at `i` with only whitespace before and after it. */
  predicate StripsAt(s: string, r: string, i: int)
  {
    && OccursAt(s, r, i)
    && (forall k :: 0 <= k < i ==> IsSpace(s[k]))
    && (forall k :: i + |r| <= k < |s| ==> IsSpace(s[k]))
  }

  /** Python's `s.strip()`: the text between the leading and the trailing
      whitespace runs. */
  function Strip(s: string): (r: string)
    ensures Stripped(r)
    ensures Contains(s, r)
    ensures Stripped(s) ==> r == s
    ensures StripsAt(s, r, |s| - |LStrip(s)|)
  {
    var l := LStrip(s);
    var r := RStrip(l);
    StripParts(s);
    if Stripped(s) then
      StripOfStripped(s);
      r
    else r
  }

  /** Cutting the leading and then the trailing whitespace leaves the text
      between the two runs. */
  lemma StripParts(s: string)
    ensures Stripped(RStrip(LStrip(s)))
    ensures StripsAt(s, RStrip(LStrip(s)), |s| - |LStrip(s)|)
  {
    StripMiddle(s);
    StripTrailing(s);
  }

  /** What is left sits where the leading run ends. */
  lemma StripMiddle(s: string)
    ensures OccursAt(s, RStrip(LStrip(s)), |s| - |LStrip(s)|)
  {
    var l := LStrip(s);
    var r := RStrip(l);
    assert l == s[|s| - |l|..];
    assert r == l[..|r|];
    PrefixOfSuffix(s, l, r);
  }

  /** A prefix of a suffix of `s` occurs in `s` where the suffix starts. */
  lemma PrefixOfSuffix(s: string, l: string, r: string)
    requires |l| <= |s| && l == s[|s| - |l|..]
    requires |r| <= |l| && r == l[..|r|]
    ensures OccursAt(s, r, |s| - |l|)
  {
    var i := |s| - |l|;
    assert forall k :: 0 <= k < |r| ==> r[k] == l[k] == s[i + k];
    OccursPointwise(s, r, i);
  }

  /** Everything after what is left is whitespace. */
  lemma StripTrailing(s: string)
    ensures forall k :: |s| - |LStrip(s)| + |RStrip(LStrip(s))| <= k < |s| ==> IsSpace(s[k])
  {
    var l := LStrip(s);
    var i := |s| - |l|;
    forall k | i + |RStrip(l)| <= k < |s|
      ensures IsSpace(s[k])
    {
      assert s[k] == l[k - i];
    }
  }

  /** `w` occurs at `i` when it matches `s` character by character there. */
  lemma OccursPointwise(s: string, w: string, i: nat)
    requires i + |w| <= |s|
    requires forall k :: 0 <= k < |w| ==> w[k] == s[i + k]
    ensures OccursAt(s, w, i)
  {
    assert s[i..i + |w|] == w;
  }

  /** A string without whitespace at its ends is its own strip. */
  lemma StripOfStripped(s: string)
    requires Stripped(s)
    ensures RStrip(LStrip(s)) == s
  {
  }

  /** Python's `str.lower()` on one character, for ASCII and Cyrillic
      capitals; every other character is left unchanged. */
  function LowerChar(c: char): char
  {
    if 'A' <= c <= 'Z' || '\U{410}' <= c <= '\U{42F}' then (c as int + 32) as char
    else if '\U{400}' <= c <= '\U{40F}' then (c as int + 80) as char
    else c
  }

  /** Python's `s.lower()`, character by character. */
  function Lower(s: string): (r: string)
    ensures |r| == |s|
    ensures forall i :: 0 <= i < |s| ==> r[i] == LowerChar(s[i])
  {
    seq(|s|, i requires 0 <= i < |s| => LowerChar(s[i]))
  }

  // ---------------------------------------------------------------------
  // Slices and occurrences

  lemma SliceOfSlice(s: string, a: nat, b: nat, c: nat, d: nat)
    requires a <= b <= |s| && c <= d <= b - a
    ensures s[a..b][c..d] == s[a + c..a + d]
  {
    assert forall k :: 0 <= k < d - c ==> s[a..b][c..d][k] == s[a + c..a + d][k];
  }

  lemma ConcatSliceLeft(a: string, t: string, lo: nat, hi: nat)
    requires lo <= hi <= |a|
    ensures (a + t)[lo..hi] == a[lo..hi]
  {
    assert forall k :: 0 <= k < hi - lo ==> (a + t)[lo..hi][k] == a[lo..hi][k];
  }

  lemma ConcatSliceRight(a: string, t: string, lo: nat, hi: nat)
    requires |a| <= lo <= hi <= |a| + |t|
    ensures (a + t)[lo..hi] == t[lo - |a|..hi - |a|]
  {
    assert forall k :: 0 <= k < hi - lo ==> (a + t)[lo..hi][k] == t[lo - |a|..hi - |a|][k];
  }

  /** The characters of an occurrence are those of the text it sits in. */
  lemma CharOfOccurrence(u: string, w: string, k: int, m: int)
    requires OccursAt(u, w, k) && k <= m < k + |w|
    ensures w[m - k] == u[m]
  {
    assert u[k..k + |w|][m - k] == u[m];
  }

  /** A one-character pattern occurs exactly where that character is. */
  lemma OccursChar(s: string, c: char, k: int)
    requires 0 <= k < |s|
    ensures OccursAt(s, [c], k) <==> s[k] == c
  {
    assert s[k..k + 1] == [s[k]];
  }

  /** An occurrence in the right operand of a concatenation, seen from it. */
  lemma OccursInRight(a: string, t: string, w: string, k: int)
    requires OccursAt(a + t, w, k) && k >= |a|
    ensures OccursAt(t, w, k - |a|)
  {
    ConcatSliceRight(a, t, k, k + |w|);
  }

  /** An occurrence in the left operand of a concatenation, seen from it. */
  lemma OccursInLeft(a: string, t: string, w: string, k: int)
    requires OccursAt(a + t, w, k) && k + |w| <= |a|
    ensures OccursAt(a, w, k)
  {
    ConcatSliceLeft(a, t, k, k + |w|);
  }

  /** An occurrence in `s` after its first character, seen from `s[1..]`. */
  lemma OccursInTail(s: string, w: string, j: int)
    requires |s| > 0 && 0 <= j
    ensures OccursAt(s[1..], w, j) <==> OccursAt(s, w, j + 1)
  {
    if j + |w| <= |s| - 1 {
      SliceOfSlice(s, 1, |s|, j, j + |w|);
    }
  }

  /** The part of `s` before the first occurrence of `w` holds no `w`. */
  lemma PrefixBeforeFirst(s: string, w: string, i: int)
    requires |w| > 0 && 0 <= i <= |s|
    requires forall j :: 0 <= j < i ==> !OccursAt(s, w, j)
    ensures !Contains(s[..i], w)
  {
    forall j | 0 <= j <= i - |w| && OccursAt(s[..i], w, j)
      ensures false
    {
      SliceOfSlice(s, 0, i, j, j + |w|);
      assert s[..i][j..j + |w|] == s[j..j + |w|];
      assert OccursAt(s, w, j);
    }
  }

  /** Stripping cannot create an occurrence. */
  lemma StripAvoids(s: string, w: string)
    requires !Contains(s, w)
    ensures !Contains(Strip(s), w)
  {
    if Contains(Strip(s), w) {
      ContainsTrans(s, Strip(s), w);
    }
  }

  /** An occurrence inside a substring is an occurrence in the whole. */
  lemma ContainsTrans(s: string, t: string, w: string)
    requires Contains(s, t) && Contains(t, w)
    ensures Contains(s, w)
  {
    var i :| 0 <= i <= |s| - |t| && OccursAt(s, t, i);
    var j :| 0 <= j <= |t| - |w| && OccursAt(t, w, j);
    SliceOfSlice(s, i, i + |t|, j, j + |w|);
    assert OccursAt(s, w, i + j);
  }

  /** An occurrence in a suffix of `s` is an occurrence in `s`. */
  lemma ContainsDrop(s: string, n: nat, w: string)
    requires n <= |s|
    requires Contains(s[n..], w)
    ensures Contains(s, w)
  {
    assert OccursAt(s, s[n..], n);
    ContainsTrans(s, s[n..], w);
  }

  // ---------------------------------------------------------------------
  // Replacement

  /** Unfolding `ReplaceAll` where the pattern starts the text. */
  lemma ReplaceHit(s: string, p: string, rep: string)
    requires |p| > 0 && OccursAt(s, p, 0)
    ensures ReplaceAll(s, p, rep) == rep + ReplaceAll(s[|p|..], p, rep)
  {
  }

  /** Unfolding `ReplaceAll` where the pattern does not start the text. */
  lemma ReplaceSkip(s: string, p: string, rep: string)
    requires |p| > 0 && |s| > 0 && !OccursAt(s, p, 0)
    ensures ReplaceAll(s, p, rep) == [s[0]] + ReplaceAll(s[1..], p, rep)
  {
  }

  /** `a` is a prefix of `b` or `b` is a prefix of `a`. */
  predicate Compatible(a: string, b: string)
  {
    a <= b || b <= a
  }

  /** No occurrence of `w` can overlap a copy of `rep`: it cannot start
      inside `rep`, and no proper suffix of `w` can start where `rep` starts.
      When this holds, replacing some pattern by `rep` creates no `w`. */
  predicate Separated(rep: string, w: string)
  {
    && (forall i :: 0 <= i < |rep| ==> !Compatible(rep[i..], w))
    && (forall j :: 0 < j < |w| ==> !Compatible(rep, w[j..]))
  }

  /** An occurrence that starts inside the left operand of a concatenation
      is compatible with the rest of that operand. */
  lemma StartInside(a: string, t: string, w: string, k: int)
    requires OccursAt(a + t, w, k) && 0 <= k < |a|
    ensures Compatible(a[k..], w)
  {
    if k + |w| <= |a| {
      ConcatSliceLeft(a, t, k, k + |w|);
      assert w == a[k..][..|w|];
    } else {
      ConcatSliceLeft(a, t, k, |a|);
      SliceOfSlice(a + t, k, k + |w|, 0, |a| - k);
      assert a[k..] == w[..|a| - k];
    }
  }

  /** Where the pattern starts the text, a prefix of the result lines up
      with the replacement. */
  lemma HitCompatible(x: string, p: string, rep: string, v: string)
    requires 0 < |p| <= |x| && v <= ReplaceAll(x, p, rep)
    ensures x[..|p|] == p ==> Compatible(rep, v)
  {
    if x[..|p|] == p {
      ReplaceHit(x, p, rep);
      if |v| <= |rep| {
        assert v == rep[..|v|];
      } else {
        assert rep == v[..|rep|];
      }
    }
  }

  /** Suffixes of a suffix are suffixes. */
  lemma DropDrop(v: string, j: nat)
    requires 1 + j <= |v|
    ensures v[1..][j..] == v[j + 1..]
  {
  }

  /** If a replacement result starts with `v`, so did its input, provided
      `rep` is not compatible with any non-empty suffix of `v`. */
  lemma {:induction false} ReplacePrefixBack(x: string, p: string, rep: string, v: string)
    requires |p| > 0
    requires forall j :: 0 <= j < |v| ==> !Compatible(rep, v[j..])
    requires v <= ReplaceAll(x, p, rep)
    ensures v <= x
    decreases |x|
  {
    if |v| == 0 || |x| < |p| {
    } else {
      HitCompatible(x, p, rep, v);
      assert v[0..] == v;
    }
    if |v| == 0 || |x| < |p| {
    } else if x[..|p|] == p {
      assert false;
    } else {
      var t := ReplaceAll(x[1..], p, rep);
      ReplaceSkip(x, p, rep);
      assert v[1..] <= t;
      forall j | 0 <= j < |v[1..]|
        ensures !Compatible(rep, v[1..][j..])
      {
        DropDrop(v, j);
      }
      ReplacePrefixBack(x[1..], p, rep, v[1..]);
      assert v == [x[0]] + v[1..];
    }
  }

  /** A copy of `rep` followed by text without `w` holds no `w`. */
  lemma AvoidAfterRep(rep: string, t: string, w: string)
    requires |w| > 0 && Separated(rep, w) && !Contains(t, w)
    ensures !Contains(rep + t, w)
  {
    forall k | 0 <= k <= |rep + t| - |w| && OccursAt(rep + t, w, k)
      ensures false
    {
      if k < |rep| {
        StartInside(rep, t, w, k);
      } else {
        OccursInRight(rep, t, w, k);
      }
    }
  }

  /** An occurrence at the very start of a replacement result whose first
      character was copied was already an occurrence in the input. */
  lemma SkipStart(x: string, p: string, rep: string, w: string)
    requires |p| > 0 && |w| > 0 && |x| > 0 && Separated(rep, w)
    requires OccursAt([x[0]] + ReplaceAll(x[1..], p, rep), w, 0)
    ensures OccursAt(x, w, 0)
  {
    var t := ReplaceAll(x[1..], p, rep);
    var u := [x[0]] + t;
    if |w| > 1 {
      SliceOfSlice(u, 0, |w|, 1, |w|);
      ConcatSliceRight([x[0]], t, 1, |w|);
      assert w[1..] <= t;
      forall j | 0 <= j < |w[1..]|
        ensures !Compatible(rep, w[1..][j..])
      {
        DropDrop(w, j);
      }
      ReplacePrefixBack(x[1..], p, rep, w[1..]);
      assert x[..|w|] == [x[0]] + x[1..][..|w| - 1];
    }
    assert x[..|w|] == w;
  }

  /** Replacing `p` by `rep` never creates an occurrence of `w` when `rep`
      and `w` are separated; in particular no `p` survives when `rep` and
      `p` are separated. */
  lemma {:induction false} ReplaceAvoids(x: string, p: string, rep: string, w: string)
    requires |p| > 0 && |w| > 0
    requires Separated(rep, w)
    requires w == p || !Contains(x, w)
    ensures !Contains(ReplaceAll(x, p, rep), w)
    decreases |x|
  {
    if |x| < |p| {
    } else if x[..|p|] == p {
      var rest := x[|p|..];
      if Contains(rest, w) {
        ContainsDrop(x, |p|, w);
      }
      ReplaceAvoids(rest, p, rep, w);
      ReplaceHit(x, p, rep);
      AvoidAfterRep(rep, ReplaceAll(rest, p, rep), w);
    } else {
      var rest := x[1..];
      var t := ReplaceAll(rest, p, rep);
      if Contains(rest, w) {
        ContainsDrop(x, 1, w);
      }
      ReplaceAvoids(rest, p, rep, w);
      ReplaceSkip(x, p, rep);
      forall k | 0 <= k <= |[x[0]] + t| - |w| && OccursAt([x[0]] + t, w, k)
        ensures false
      {
        if k == 0 {
          SkipStart(x, p, rep, w);
        } else {
          OccursInRight([x[0]], t, w, k);
        }
      }
    }
  }

  /** Replacing an absent pattern changes nothing. */
  lemma {:induction false} ReplaceAbsent(s: string, p: string, rep: string)
    requires |p| > 0 && !Contains(s, p)
    ensures ReplaceAll(s, p, rep) == s
    decreases |s|
  {
    if |s| >= |p| {
      forall j | 0 <= j <= |s[1..]| - |p| && OccursAt(s[1..], p, j)
        ensures false
      {
        OccursInTail(s, p, j);
      }
      ReplaceSkip(s, p, rep);
      ReplaceAbsent(s[1..], p, rep);
    }
  }

  /** `replace` keeps everything before the first occurrence, emits `rep`
      for it, and carries on after it. */
  lemma ReplaceAtFirst(s: string, p: string, rep: string, i: int)
    requires |p| > 0 && OccursAt(s, p, i)
    requires forall j :: 0 <= j < i ==> !OccursAt(s, p, j)
    ensures ReplaceAll(s, p, rep) == s[..i] + rep + ReplaceAll(s[i + |p|..], p, rep)
  {
    ReplaceUpTo(s, p, rep, i, s[i + |p|..]);
  }

  /** `ReplaceAtFirst` with the text after the occurrence named `rest`, so
      that the recursion on `s[1..]` speaks of the same `rest`. */
  lemma {:induction false} ReplaceUpTo(s: string, p: string, rep: string, i: int, rest: string)
    requires |p| > 0 && OccursAt(s, p, i) && rest == s[i + |p|..]
    requires forall j :: 0 <= j < i ==> !OccursAt(s, p, j)
    ensures ReplaceAll(s, p, rep) == s[..i] + rep + ReplaceAll(rest, p, rep)
    decreases i
  {
    if i == 0 {
      ReplaceHit(s, p, rep);
      assert s[..i] + rep == rep;
    } else {
      NoEarlierInTail(s, p, i);
      assert rest == s[1..][i - 1 + |p|..];
      ReplaceUpTo(s[1..], p, rep, i - 1, rest);
      ReplaceSkip(s, p, rep);
      ConsBack(ReplaceAll(s, p, rep), ReplaceAll(s[1..], p, rep), s, i, rep,
               ReplaceAll(rest, p, rep));
    }
  }

  /** The last step of `ReplaceUpTo`, over plain strings. */
  lemma ConsBack(whole: string, restR: string, s: string, i: int, rep: string, tail: string)
    requires 0 < i <= |s|
    requires whole == [s[0]] + restR
    requires restR == s[1..][..i - 1] + rep + tail
    ensures whole == s[..i] + rep + tail
  {
    assert s[..i] == [s[0]] + s[1..][..i - 1];
  }

  /** The first occurrence in `s`, seen from `s[1..]`. */
  lemma NoEarlierInTail(s: string, p: string, i: int)
    requires 0 < i && OccursAt(s, p, i)
    requires forall j :: 0 <= j < i ==> !OccursAt(s, p, j)
    ensures OccursAt(s[1..], p, i - 1)
    ensures forall j :: 0 <= j < i - 1 ==> !OccursAt(s[1..], p, j)
  {
    OccursInTail(s, p, i - 1);
    forall j | 0 <= j < i - 1
      ensures !OccursAt(s[1..], p, j)
    {
      OccursInTail(s, p, j);
    }
  }

  /** `Join` of a list of at least two parts peels off the first one. */
  lemma JoinCons(sep: string, a: string, parts: seq<string>)
    requires |parts| >= 1
    ensures Join(sep, [a] + parts) == a + sep + Join(sep, parts)
  {
    assert ([a] + parts)[1..] == parts;
  }

  /** `JoinCons` for a list already known to be `[a] + tail`. */
  lemma JoinConsAt(sep: string, parts: seq<string>, a: string, tail: seq<string>)
    requires |tail| >= 1 && parts == [a] + tail
    ensures Join(sep, parts) == a + sep + Join(sep, tail)
  {
    JoinCons(sep, a, tail);
  }

  /** Two strings built around equal middles are equal. */
  lemma SameMiddle(x: string, z: string, a: string, sep: string, y: string, w: string)
    requires x == a + sep + y && y == w && z == a + sep + w
    ensures x == z
  {
  }

  /** Python documents `s.replace(p, r)` as `r.join(s.split(p))`; the
      scanning definition agrees with it. */
  lemma {:induction false} ReplaceIsJoinOfSplit(s: string, p: string, rep: string)
    requires |p| > 0
    ensures ReplaceAll(s, p, rep) == Join(rep, Split(s, p))
    decreases |s|
  {
    var i := Find(s, p);
    if i < 0 {
      ReplaceAbsent(s, p, rep);
    } else {
      var rest := s[i + |p|..];
      ReplaceUpTo(s, p, rep, i, rest);
      ReplaceIsJoinOfSplit(rest, p, rep);
      SplitFirst(s, p, i);
      JoinConsAt(rep, Split(s, p), s[..i], Split(rest, p));
      SameMiddle(ReplaceAll(s, p, rep), Join(rep, Split(s, p)), s[..i], rep,
                 ReplaceAll(rest, p, rep), Join(rep, Split(rest, p)));
    }
  }

  /** Splitting and joining with the same separator gives back the text. */
  lemma {:induction false} SplitJoin(s: string, sep: string)
    requires |sep| > 0
    ensures Join(sep, Split(s, sep)) == s
    decreases |s|
  {
    var i := Find(s, sep);
    if i >= 0 {
      var rest := s[i + |sep|..];
      SplitJoin(rest, sep);
      JoinCons(sep, s[..i], Split(rest, sep));
      assert s == s[..i] + s[i..i + |sep|] + rest;
    }
  }

  /** Splitting on a one-character separator yields one part more than the
      number of times that character occurs. */
  lemma {:induction false} SplitCount(s: string, c: char)
    ensures |Split(s, [c])| == multiset(s)[c] + 1
    decreases |s|
  {
    var i := Find(s, [c]);
    CharFreeBefore(s, c, if i < 0 then |s| else i);
    if i >= 0 {
      var rest := s[i + 1..];
      SplitCount(rest, c);
      OccursChar(s, c, i);
      SplitFirst(s, [c], i);
      CountAround(s, i, c);
      assert |Split(s, [c])| == 1 + |Split(rest, [c])|;
    } else {
      SplitNone(s, [c]);
    }
  }

  /** A prefix free of occurrences of `[c]` does not hold `c`. */
  lemma CharFreeBefore(s: string, c: char, n: int)
    requires 0 <= n <= |s|
    requires forall k :: 0 <= k < n ==> !OccursAt(s, [c], k)
    ensures multiset(s[..n])[c] == 0
  {
    forall k | 0 <= k < n
      ensures s[k] != c
    {
      OccursChar(s, c, k);
    }
    assert c !in s[..n];
  }

  /** Counting `c` on both sides of an occurrence of it at `i`. */
  lemma CountAround(s: string, i: int, c: char)
    requires 0 <= i < |s| && s[i] == c
    ensures multiset(s)[c] == multiset(s[..i])[c] + 1 + multiset(s[i + 1..])[c]
  {
    assert s == s[..i] + [s[i]] + s[i + 1..];
    assert multiset(s) == multiset(s[..i]) + multiset{c} + multiset(s[i + 1..]);
  }

  /** Lower-casing keeps every occurrence, lower-cased. */
  lemma LowerContains(s: string, w: string)
    requires Contains(s, w)
    ensures Contains(Lower(s), Lower(w))
  {
    var i :| 0 <= i <= |s| - |w| && OccursAt(s, w, i);
    forall m | 0 <= m < |w|
      ensures Lower(s)[i..i + |w|][m] == Lower(w)[m]
    {
      CharOfOccurrence(s, w, i, i + m);
    }
    assert Lower(s)[i..i + |w|] == Lower(w);
    assert OccursAt(Lower(s), Lower(w), i);
  }

  /** A `Join` whose parts all avoid `w` avoids `w`, when `w` shares no
      character with the (non-empty) separator. */
  lemma {:induction false} JoinAvoids(sep: string, parts: seq<string>, w: string)
    requires |w| > 0 && |sep| > 0
    requires forall k :: 0 <= k < |w| ==> w[k] !in sep
    requires forall k :: 0 <= k < |parts| ==> !Contains(parts[k], w)
    ensures !Contains(Join(sep, parts), w)
    decreases |parts|
  {
    if |parts| >= 2 {
      var a := parts[0];
      var t := Join(sep, parts[1..]);
      JoinAvoids(sep, parts[1..], w);
      var out := a + sep + t;
      forall k | 0 <= k <= |out| - |w| && OccursAt(out, w, k)
        ensures false
      {
        if k + |w| <= |a| {
          assert out == a + (sep + t);
          OccursInLeft(a, sep + t, w, k);
        } else if k >= |a| + |sep| {
          OccursInRight(a + sep, t, w, k);
        } else {
          var m := if k >= |a| then k else |a|;
          CharOfOccurrence(out, w, k, m);
        }
      }
    }
  }
}
