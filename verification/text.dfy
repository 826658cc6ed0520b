/**
 * The handful of Python `str` operations the merge engine is built from,
 * on ASCII text: substring search (`in`), `startswith`/`endswith`,
 * `rstrip`/`strip`, `replace` (all occurrences or `count=1`),
 * and `split("\n")` / `"\n".join`.
 */
module Text {
  datatype Option<T> = None | Some(value: T)


  /** Python's `str.isspace` on ASCII: space, \t \n \v \f \r and the separators \x1c..\x1f. */
  predicate IsSpace(c: char) {
    c == ' ' || ('\t' <= c <= '\r') || ('\U{1C}' <= c <= '\U{1F}')
  }

  predicate StartsWith(s: string, p: string) {
    |p| <= |s| && s[..|p|] == p
  }

  predicate EndsWith(s: string, p: string) {
    |p| <= |s| && s[|s| - |p|..] == p
  }

  lemma StartsWithAppend(a: string, b: string)
    ensures StartsWith(a + b, a)
  {
    assert (a + b)[..|a|] == a;
  }

  lemma StartsWithTrans(s: string, p: string, q: string)
    requires StartsWith(s, p) && StartsWith(p, q)
    ensures StartsWith(s, q)
  {
    assert s[..|q|] == s[..|p|][..|q|];
  }

  /** `sub` occurs in `s` starting at index `i`. */
  predicate OccursAt(s: string, sub: string, i: nat) {
    i + |sub| <= |s| && s[i..i + |sub|] == sub
  }

  /** Python's `sub in s`. */
  predicate Contains(s: string, sub: string) {
    exists i: nat :: i <= |s| && OccursAt(s, sub, i)
  }

  // ---------------------------------------------------------------- containment

  lemma ContainsAt(s: string, sub: string, i: nat)
    requires OccursAt(s, sub, i)
    ensures Contains(s, sub)
  {
  }

  lemma ContainsSelf(s: string)
    ensures Contains(s, s)
  {
    assert OccursAt(s, s, 0);
  }

  /** An occurrence in a part is an occurrence in the whole. */
  lemma ContainsInfix(a: string, x: string, b: string, sub: string)
    requires Contains(x, sub)
    ensures Contains(a + x + b, sub)
  {
    var i: nat :| i <= |x| && OccursAt(x, sub, i);
    assert (a + x + b)[|a| + i..|a| + i + |sub|] == x[i..i + |sub|];
    assert OccursAt(a + x + b, sub, |a| + i);
  }

  lemma ContainsLeft(a: string, b: string, sub: string)
    requires Contains(a, sub)
    ensures Contains(a + b, sub)
  {
    ContainsInfix([], a, b, sub);
    assert [] + a + b == a + b;
  }

  lemma ContainsRight(a: string, b: string, sub: string)
    requires Contains(b, sub)
    ensures Contains(a + b, sub)
  {
    ContainsInfix(a, b, [], sub);
    assert a + b + [] == a + b;
  }

  /** `a + m + b` contains its middle part. */
  lemma ContainsMiddle(a: string, m: string, b: string)
    ensures Contains(a + m + b, m)
  {
    ContainsSelf(m);
    ContainsInfix(a, m, b, m);
  }

  /** `a + m` contains its last part. */
  lemma ContainsEnd(a: string, m: string)
    ensures Contains(a + m, m)
  {
    assert (a + m)[|a|..|a| + |m|] == m;
    assert OccursAt(a + m, m, |a|);
  }

  /** Two texts that differ in whether they contain some string are different texts. */
  lemma DifferByMarker(s: string, t: string, m: string)
    requires Contains(s, m) && !Contains(t, m)
    ensures s != t
  {
  }

  /** An occurrence in a suffix `s[d..]` is an occurrence in `s`, shifted by `d`, and back. */
  lemma OccursShift(s: string, d: nat, sub: string, j: nat)
    requires d <= |s|
    ensures OccursAt(s[d..], sub, j) <==> OccursAt(s, sub, j + d)
  {
    if j + |sub| <= |s| - d {
      assert s[d..][j..j + |sub|] == s[j + d..j + d + |sub|];
    }
  }

  // ---------------------------------------------------------------- stripping

  /** Where `s[..n]` ends once its trailing whitespace is dropped. */
  function RStripEnd(s: string, n: nat): (e: nat)
    requires n <= |s|
    ensures e <= n
    ensures forall k :: e <= k < n ==> IsSpace(s[k])
    ensures e == 0 || !IsSpace(s[e - 1])
  {
    if n > 0 && IsSpace(s[n - 1]) then RStripEnd(s, n - 1) else n
  }

  /** Where `s[i..e]` begins once its leading whitespace is dropped. */
  function LStripBegin(s: string, i: nat, e: nat): (b: nat)
    requires i <= e <= |s|
    ensures i <= b <= e
    ensures forall k :: i <= k < b ==> IsSpace(s[k])
    ensures b == e || !IsSpace(s[b])
    decreases e - i
  {
    if i < e && IsSpace(s[i]) then LStripBegin(s, i + 1, e) else i
  }

  /** Python's `s.rstrip()`. */
  function RStrip(s: string): (r: string)
    ensures StartsWith(s, r)
    ensures forall k :: |r| <= k < |s| ==> IsSpace(s[k])
    ensures r == [] || !IsSpace(r[|r| - 1])
  {
    s[..RStripEnd(s, |s|)]
  }

  /** Python's `s.strip()`. */
  function Strip(s: string): (r: string)
    ensures r == [] || (!IsSpace(r[0]) && !IsSpace(r[|r| - 1]))
    ensures exists b, e :: 0 <= b <= e <= |s| && r == s[b..e] &&
              (forall k :: 0 <= k < b ==> IsSpace(s[k])) && (forall k :: e <= k < |s| ==> IsSpace(s[k]))
  {
    var e := RStripEnd(s, |s|);
    s[LStripBegin(s, 0, e)..e]
  }

  /** The three facts `RStrip` promises determine its result. */
  lemma RStripUnique(s: string, r: string)
    requires StartsWith(s, r)
    requires forall k :: |r| <= k < |s| ==> IsSpace(s[k])
    requires r == [] || !IsSpace(r[|r| - 1])
    ensures RStrip(s) == r
  {
  }

  /**
   * `rstrip` only removes trailing whitespace: an occurrence of a string that
   * ends in a non-space character survives it.
   */
  lemma RStripKeeps(s: string, sub: string)
    requires Contains(s, sub)
    requires |sub| > 0 && !IsSpace(sub[|sub| - 1])
    ensures Contains(RStrip(s), sub)
  {
    var r := RStrip(s);
    var i: nat :| i <= |s| && OccursAt(s, sub, i);
    assert s[i + |sub| - 1] == sub[|sub| - 1];
    assert i + |sub| <= |r|;
    assert r == s[..|r|];
    assert r[i..i + |sub|] == s[i..i + |sub|];
    assert OccursAt(r, sub, i);
  }

  /** What the stripped text contains, the text contains. */
  lemma ContainsFromRStrip(s: string, m: string)
    requires Contains(RStrip(s), m)
    ensures Contains(s, m)
  {
    var i: nat :| i <= |RStrip(s)| && OccursAt(RStrip(s), m, i);
    assert s[i..i + |m|] == RStrip(s)[i..i + |m|];
    assert OccursAt(s, m, i);
  }

  /** Stripping `a + b` keeps `a` whole when `b` has something that is not whitespace. */
  lemma RStripAppend(a: string, b: string)
    requires RStrip(b) != []
    ensures RStrip(a + b) == a + RStrip(b)
  {
    var r := a + RStrip(b);
    assert (a + b)[..|r|] == r;
    forall k | |r| <= k < |a + b| ensures IsSpace((a + b)[k]) {
      assert (a + b)[k] == b[k - |a|];
    }
    RStripUnique(a + b, r);
  }

  /** Whatever is prepended, the stripped text of the tail survives contiguously. */
  lemma RStripKeepsTail(a: string, b: string)
    ensures Contains(RStrip(a + b), RStrip(b))
  {
    if RStrip(b) == [] {
      assert OccursAt(RStrip(a + b), [], 0);
    } else {
      RStripAppend(a, b);
      ContainsSelf(RStrip(b));
      ContainsRight(a, RStrip(b), RStrip(b));
    }
  }

  // ---------------------------------------------------------------- replace

  /**
   * Python's `s.replace(pat, rep)` (every non-overlapping occurrence, scanning
   * left to right), or `s.replace(pat, rep, 1)` / `re.sub(..., count=1)` on a
   * literal pattern when `once` holds.
   */
  function Replace(s: string, pat: string, rep: string, once: bool): string
    requires |pat| > 0
    decreases |s|
  {
    if StartsWith(s, pat) then
      rep + (if once then s[|pat|..] else Replace(s[|pat|..], pat, rep, once))
    else if s == [] then []
    else [s[0]] + Replace(s[1..], pat, rep, once)
  }

  /** If the pattern occurs, the replacement text appears in the result. */
  lemma {:induction false} ReplaceIntroduces(s: string, pat: string, rep: string, once: bool)
    requires |pat| > 0 && Contains(s, pat)
    ensures Contains(Replace(s, pat, rep, once), rep)
  {
    if StartsWith(s, pat) {
      ContainsSelf(rep);
      ContainsLeft(rep, if once then s[|pat|..] else Replace(s[|pat|..], pat, rep, once), rep);
    } else {
      var j: nat :| j <= |s| && OccursAt(s, pat, j);
      assert j != 0;
      OccursShift(s, 1, pat, j - 1);
      ReplaceIntroduces(s[1..], pat, rep, once);
      ContainsRight([s[0]], Replace(s[1..], pat, rep, once), rep);
    }
  }

  /**
   * No occurrence of `m` in `s` runs across the end of an occurrence of `pat`:
   * inserting text right after each `pat` cannot cut an `m` in two.
   */
  ghost predicate NoStraddle(s: string, pat: string, m: string) {
    forall j: nat, q: nat :: OccursAt(s, pat, j) && OccursAt(s, m, q) ==> !(q < j + |pat| < q + |m|)
  }

  lemma NoStraddleShift(s: string, d: nat, pat: string, m: string)
    requires d <= |s| && NoStraddle(s, pat, m)
    ensures NoStraddle(s[d..], pat, m)
  {
    forall j: nat, q: nat | OccursAt(s[d..], pat, j) && OccursAt(s[d..], m, q)
      ensures !(q < j + |pat| < q + |m|)
    {
      OccursShift(s, d, pat, j);
      OccursShift(s, d, m, q);
    }
  }

  /** Inserting after `pat` leaves the first `n` characters alone when no `pat` ends before `n`. */
  lemma {:induction false} ReplaceKeepsPrefix(t: string, pat: string, ext: string, once: bool, n: nat)
    requires |pat| > 0 && n <= |t|
    requires forall j: nat :: OccursAt(t, pat, j) ==> j + |pat| >= n
    ensures n <= |Replace(t, pat, pat + ext, once)|
    ensures Replace(t, pat, pat + ext, once)[..n] == t[..n]
  {
    var r := Replace(t, pat, pat + ext, once);
    if StartsWith(t, pat) {
      assert OccursAt(t, pat, 0);
    } else if t == [] {
    } else if n > 0 {
      forall j: nat | OccursAt(t[1..], pat, j) ensures j + |pat| >= n - 1 {
        OccursShift(t, 1, pat, j);
      }
      ReplaceKeepsPrefix(t[1..], pat, ext, once, n - 1);
      assert r == [t[0]] + Replace(t[1..], pat, pat + ext, once);
    }
  }

  /**
   * Text inserted right after occurrences of `pat` (replacing `pat` by `pat + ext`)
   * keeps every string `m` that no such occurrence straddles.
   */
  lemma {:induction false} ReplaceKeeps(s: string, pat: string, ext: string, once: bool, m: string)
    requires |pat| > 0 && Contains(s, m) && NoStraddle(s, pat, m)
    ensures Contains(Replace(s, pat, pat + ext, once), m)
    decreases |s|
  {
    var q: nat :| q <= |s| && OccursAt(s, m, q);
    if StartsWith(s, pat) {
      ReplaceKeepsAtPattern(s, pat, ext, once, m, q);
    } else if q > 0 {
      OccursShift(s, 1, m, q - 1);
      NoStraddleShift(s, 1, pat, m);
      ReplaceKeeps(s[1..], pat, ext, once, m);
      ContainsRight([s[0]], Replace(s[1..], pat, pat + ext, once), m);
    } else {
      ReplaceKeepsAtStart(s, pat, ext, once, m);
    }
  }

  /** An occurrence inside a prefix of the text survives whatever follows that prefix. */
  lemma ContainsInPrefix(s: string, p: string, m: string, q: nat, tail: string)
    requires StartsWith(s, p) && OccursAt(s, m, q) && q + |m| <= |p|
    ensures Contains(p + tail, m)
  {
    assert p[q..q + |m|] == s[q..q + |m|];
    ContainsAt(p, m, q);
    ContainsLeft(p, tail, m);
  }

  /** `ReplaceKeeps` when the text begins with the pattern. */
  lemma {:induction false} ReplaceKeepsAtPattern(s: string, pat: string, ext: string, once: bool, m: string, q: nat)
    requires |pat| > 0 && StartsWith(s, pat) && OccursAt(s, m, q) && NoStraddle(s, pat, m)
    ensures Contains(Replace(s, pat, pat + ext, once), m)
    decreases |s|, 0
  {
    assert OccursAt(s, pat, 0);
    var rest := if once then s[|pat|..] else Replace(s[|pat|..], pat, pat + ext, once);
    assert Replace(s, pat, pat + ext, once) == pat + ext + rest;
    if q + |m| <= |pat| {
      ContainsInPrefix(s, pat, m, q, ext + rest);
      assert pat + (ext + rest) == pat + ext + rest;
    } else {
      OccursShift(s, |pat|, m, q - |pat|);
      ContainsAt(s[|pat|..], m, q - |pat|);
      if !once {
        NoStraddleShift(s, |pat|, pat, m);
        ReplaceKeeps(s[|pat|..], pat, ext, once, m);
      }
      ContainsRight(pat + ext, rest, m);
    }
  }

  /** `ReplaceKeeps` when `m` starts the text and the pattern does not. */
  lemma ReplaceKeepsAtStart(s: string, pat: string, ext: string, once: bool, m: string)
    requires |pat| > 0 && !StartsWith(s, pat) && OccursAt(s, m, 0) && NoStraddle(s, pat, m)
    ensures Contains(Replace(s, pat, pat + ext, once), m)
  {
    var r := Replace(s, pat, pat + ext, once);
    if |m| == 0 {
      assert OccursAt(r, m, 0);
    } else {
      var t := s[1..];
      forall j: nat | OccursAt(t, pat, j) ensures j + |pat| >= |m| - 1 {
        OccursShift(s, 1, pat, j);
      }
      ReplaceKeepsPrefix(t, pat, ext, once, |m| - 1);
      var rt := Replace(t, pat, pat + ext, once);
      assert r == [s[0]] + rt;
      assert r[..|m|] == [s[0]] + rt[..|m| - 1];
      assert s[..|m|] == [s[0]] + t[..|m| - 1];
      assert OccursAt(r, m, 0);
    }
  }

  /** Python's `s.index(pat)`: where the first occurrence starts. */
  function IndexOf(s: string, pat: string): (i: nat)
    requires Contains(s, pat)
    ensures OccursAt(s, pat, i)
    ensures forall j: nat :: j < i ==> !OccursAt(s, pat, j)
    decreases |s|
  {
    if StartsWith(s, pat) then 0
    else
      ContainsInTail(s, pat);
      var i := IndexOf(s[1..], pat);
      FirstOccurrenceShift(s, pat, i);
      i + 1
  }

  lemma ContainsInTail(s: string, pat: string)
    requires Contains(s, pat) && !StartsWith(s, pat)
    ensures |s| > 0 && Contains(s[1..], pat)
  {
    var j: nat :| j <= |s| && OccursAt(s, pat, j);
    assert j > 0;
    OccursShift(s, 1, pat, j - 1);
  }

  lemma FirstOccurrenceShift(s: string, pat: string, i: nat)
    requires |s| > 0 && !StartsWith(s, pat)
    requires OccursAt(s[1..], pat, i)
    requires forall j: nat :: j < i ==> !OccursAt(s[1..], pat, j)
    ensures OccursAt(s, pat, i + 1)
    ensures forall j: nat :: j < i + 1 ==> !OccursAt(s, pat, j)
  {
    OccursShift(s, 1, pat, i);
    forall j: nat | 0 < j < i + 1 ensures !OccursAt(s, pat, j) {
      OccursShift(s, 1, pat, j - 1);
    }
  }

  /** With no occurrence of the pattern, `replace` returns the text unchanged. */
  lemma {:induction false} ReplaceAbsent(s: string, pat: string, rep: string, once: bool)
    requires |pat| > 0 && !Contains(s, pat)
    ensures Replace(s, pat, rep, once) == s
    decreases |s|
  {
    assert !OccursAt(s, pat, 0);
    if s != [] {
      forall j: nat | j <= |s| - 1 && OccursAt(s[1..], pat, j) ensures false {
        OccursShift(s, 1, pat, j);
      }
      ReplaceAbsent(s[1..], pat, rep, once);
      assert s == [s[0]] + s[1..];
    }
  }

  /** A single replacement (`count=1`) splices `ext` in right after the first occurrence. */
  lemma ReplaceOnceSplices(s: string, pat: string, ext: string)
    requires |pat| > 0 && Contains(s, pat)
    ensures var e := IndexOf(s, pat) + |pat|;
            Replace(s, pat, pat + ext, true) == s[..e] + ext + s[e..]
  {
    ReplaceOnceSplicesAt(s, pat, ext, IndexOf(s, pat));
  }

  lemma {:induction false} ReplaceOnceSplicesAt(s: string, pat: string, ext: string, i: nat)
    requires |pat| > 0 && OccursAt(s, pat, i)
    requires forall j: nat :: j < i ==> !OccursAt(s, pat, j)
    ensures Replace(s, pat, pat + ext, true) == s[..i + |pat|] + ext + s[i + |pat|..]
    decreases i
  {
    if i == 0 {
      assert StartsWith(s, pat);
      assert s == s[..|pat|] + s[|pat|..];
    } else {
      assert !OccursAt(s, pat, 0);
      var t := s[1..];
      forall j: nat | j <= i - 1 ensures OccursAt(t, pat, j) <==> OccursAt(s, pat, j + 1) {
        OccursShift(s, 1, pat, j);
      }
      ReplaceOnceSplicesAt(t, pat, ext, i - 1);
      var e := i + |pat|;
      assert [s[0]] + t[..e - 1] == s[..e];
      assert t[e - 1..] == s[e..];
    }
  }

  /**
   * Replacing every occurrence splices `ext` in right after the first one and
   * goes on replacing in the text that follows it.
   */
  lemma ReplaceAllSplices(s: string, pat: string, ext: string)
    requires |pat| > 0 && Contains(s, pat)
    ensures var e := IndexOf(s, pat) + |pat|;
            Replace(s, pat, pat + ext, false) == s[..e] + ext + Replace(s[e..], pat, pat + ext, false)
  {
    var i := IndexOf(s, pat);
    var e := i + |pat|;
    var tail := Replace(s[e..], pat, pat + ext, false);
    ReplaceAfterPrefix(s, i, pat, pat + ext);
    assert StartsWith(s[i..], pat) && s[i..][|pat|..] == s[e..];
    ReplaceAtPattern(s[i..], pat, pat + ext);
    assert s[..e] == s[..i] + pat;
    assert s[..i] + (pat + ext + tail) == s[..e] + ext + tail;
  }

  /** A text that begins with the pattern begins with the replacement. */
  lemma ReplaceAtPattern(s: string, pat: string, rep: string)
    requires |pat| > 0 && StartsWith(s, pat)
    ensures Replace(s, pat, rep, false) == rep + Replace(s[|pat|..], pat, rep, false)
  {
  }

  /** The first `k` characters pass through `replace` unchanged when no occurrence starts among them. */
  lemma {:induction false} ReplaceAfterPrefix(s: string, k: nat, pat: string, rep: string)
    requires |pat| > 0 && k <= |s|
    requires forall j: nat :: j < k ==> !OccursAt(s, pat, j)
    ensures Replace(s, pat, rep, false) == s[..k] + Replace(s[k..], pat, rep, false)
  {
    if k > 0 {
      assert !OccursAt(s, pat, 0);
      assert !StartsWith(s, pat) && s != [];
      var t := s[1..];
      forall j: nat | j < k - 1 ensures !OccursAt(t, pat, j) {
        OccursShift(s, 1, pat, j);
      }
      ReplaceAfterPrefix(t, k - 1, pat, rep);
      assert Replace(s, pat, rep, false) == [s[0]] + Replace(t, pat, rep, false);
      assert t[k - 1..] == s[k..];
      assert [s[0]] + t[..k - 1] == s[..k];
    }
  }

  /** Replacing leaves the first `n` characters alone when no occurrence starts before `n`. */
  lemma {:induction false} ReplaceKeepsHead(t: string, pat: string, rep: string, once: bool, n: nat)
    requires |pat| > 0 && n <= |t|
    requires forall j: nat :: OccursAt(t, pat, j) ==> n <= j
    ensures n <= |Replace(t, pat, rep, once)|
    ensures Replace(t, pat, rep, once)[..n] == t[..n]
  {
    if StartsWith(t, pat) {
      assert OccursAt(t, pat, 0);
    } else if t != [] && n > 0 {
      forall j: nat | OccursAt(t[1..], pat, j) ensures n - 1 <= j {
        OccursShift(t, 1, pat, j);
      }
      ReplaceKeepsHead(t[1..], pat, rep, once, n - 1);
      assert Replace(t, pat, rep, once) == [t[0]] + Replace(t[1..], pat, rep, once);
    }
  }

  /**
   * Text inserted right BEFORE occurrences of `pat` (replacing `pat` by
   * `pre + pat`) keeps every string `m` that lacks the first character of
   * `pat`: no occurrence of `pat` can begin inside an `m`.
   */
  lemma {:induction false} ReplaceBeforeKeeps(s: string, pat: string, pre: string, once: bool, m: string)
    requires |pat| > 0 && pat[0] !in m && Contains(s, m)
    ensures Contains(Replace(s, pat, pre + pat, once), m)
    decreases |s|
  {
    var r := Replace(s, pat, pre + pat, once);
    var q: nat :| q <= |s| && OccursAt(s, m, q);
    if |m| == 0 {
      assert OccursAt(r, m, 0);
    } else if StartsWith(s, pat) {
      ReplaceBeforeKeepsAtPattern(s, pat, pre, once, m, q);
    } else if q > 0 {
      OccursShift(s, 1, m, q - 1);
      ReplaceBeforeKeeps(s[1..], pat, pre, once, m);
      ContainsRight([s[0]], Replace(s[1..], pat, pre + pat, once), m);
    } else {
      var t := s[1..];
      forall j: nat | OccursAt(t, pat, j) ensures |m| - 1 <= j {
        OccursShift(s, 1, pat, j);
        NoStartInside(s, pat, m, 0, j + 1);
      }
      ReplaceKeepsHead(t, pat, pre + pat, once, |m| - 1);
      var rt := Replace(t, pat, pre + pat, once);
      assert r == [s[0]] + rt;
      assert r[..|m|] == [s[0]] + rt[..|m| - 1];
      assert s[..|m|] == [s[0]] + t[..|m| - 1];
      assert OccursAt(r, m, 0);
    }
  }

  /** `ReplaceBeforeKeeps` when the text begins with the pattern. */
  lemma {:induction false} ReplaceBeforeKeepsAtPattern(s: string, pat: string, pre: string, once: bool, m: string, q: nat)
    requires |pat| > 0 && pat[0] !in m && |m| > 0 && StartsWith(s, pat) && OccursAt(s, m, q)
    ensures Contains(Replace(s, pat, pre + pat, once), m)
    decreases |s|, 0
  {
    var t := s[|pat|..];
    var rest := if once then t else Replace(t, pat, pre + pat, once);
    assert Replace(s, pat, pre + pat, once) == pre + (pat + rest);
    assert s == pat + t;
    if q >= |pat| {
      OccursShift(s, |pat|, m, q - |pat|);
      if !once {
        ReplaceBeforeKeeps(t, pat, pre, once, m);
      }
      ContainsRight(pat, rest, m);
    } else if q + |m| <= |pat| {
      assert (pat + rest)[q..q + |m|] == s[q..q + |m|];
      assert OccursAt(pat + rest, m, q);
    } else {
      var k := q + |m| - |pat|;
      if !once {
        forall j: nat | OccursAt(t, pat, j) ensures k <= j {
          OccursShift(s, |pat|, pat, j);
          NoStartInside(s, pat, m, q, |pat| + j);
        }
        ReplaceKeepsHead(t, pat, pre + pat, once, k);
      }
      assert (pat + rest)[..q + |m|] == pat + rest[..k] == s[..q + |m|];
      assert OccursAt(pat + rest, m, q);
    }
    ContainsRight(pre, pat + rest, m);
  }

  /** An occurrence of `pat` cannot start inside an `m` that lacks `pat`'s first character. */
  lemma NoStartInside(s: string, pat: string, m: string, q: nat, p: nat)
    requires |pat| > 0 && pat[0] !in m && OccursAt(s, m, q) && OccursAt(s, pat, p)
    ensures p < q || q + |m| <= p
  {
    OccurrenceChars(s, m, q);
    CharOfOccurrence(s, pat, p, 0);
  }

  /** Every character of an occurrence of `m` is a character of `m`. */
  lemma OccurrenceChars(t: string, m: string, q: nat)
    requires OccursAt(t, m, q)
    ensures forall i :: q <= i < q + |m| ==> t[i] in m
  {
    forall i | q <= i < q + |m| ensures t[i] in m {
      assert t[q..q + |m|][i - q] == t[i];
    }
  }

  /** Replacing every occurrence where the pattern occurs once, after text that cannot start it. */
  lemma {:induction false} ReplaceSingle(a: string, pat: string, b: string, rep: string)
    requires |pat| > 0 && pat[0] !in a && !Contains(b, pat)
    ensures Replace(a + pat + b, pat, rep, false) == a + rep + b
  {
    if a == [] {
      assert a + pat + b == pat + b;
      assert StartsWith(pat + b, pat);
      assert (pat + b)[|pat|..] == b;
      ReplaceAbsent(b, pat, rep, false);
    } else {
      var s := a + pat + b;
      assert s[0] == a[0];
      assert !StartsWith(s, pat);
      assert s[1..] == a[1..] + pat + b;
      ReplaceSingle(a[1..], pat, b, rep);
      assert [a[0]] + (a[1..] + rep + b) == a + rep + b;
    }
  }

  /** Text that lacks a character of `m` does not contain `m`. */
  lemma MissingCharAbsent(s: string, m: string, c: char)
    requires c in m && c !in s
    ensures !Contains(s, m)
  {
  }

  /** Two pieces, each without `m`, joined where `a` ends in a character `m` lacks. */
  lemma JoinedAbsent(a: string, b: string, m: string)
    requires !Contains(a, m) && !Contains(b, m)
    requires a != [] && a[|a| - 1] !in m
    ensures !Contains(a + b, m)
  {
    forall q: nat | q + |m| <= |a + b| ensures !OccursAt(a + b, m, q) {
      if q + |m| <= |a| {
        assert !OccursAt(a, m, q);
        assert (a + b)[q..q + |m|] == a[q..q + |m|];
      } else if q >= |a| {
        assert !OccursAt(b, m, q - |a|);
        assert (a + b)[q..q + |m|] == b[q - |a|..q - |a| + |m|];
      } else {
        assert (a + b)[q..q + |m|][|a| - 1 - q] == a[|a| - 1];
        assert m[|a| - 1 - q] in m;
      }
    }
  }

  // ---------------------------------------------------------------- lines

  /** Python's `s.split("\n")`: always at least one element. */
  function Lines(s: string): (ls: seq<string>)
    ensures |ls| >= 1
  {
    if s == [] then [[]]
    else if s[0] == '\n' then [[]] + Lines(s[1..])
    else
      var rest := Lines(s[1..]);
      [[s[0]] + rest[0]] + rest[1..]
  }

  /** Python's `"\n".join(ls)`. */
  function Join(ls: seq<string>): string
  {
    if ls == [] then []
    else if |ls| == 1 then ls[0]
    else ls[0] + "\n" + Join(ls[1..])
  }

  lemma {:induction false} JoinLines(s: string)
    ensures Join(Lines(s)) == s
  {
    if s == [] {
    } else if s[0] == '\n' {
      JoinLines(s[1..]);
      assert Lines(s)[1..] == Lines(s[1..]);
    } else {
      var rest := Lines(s[1..]);
      JoinLines(s[1..]);
      if |rest| == 1 {
      } else {
        assert Lines(s)[1..] == rest[1..];
        assert Join(rest) == rest[0] + "\n" + Join(rest[1..]);
      }
    }
  }

  lemma {:induction false} JoinAppend(a: seq<string>, b: seq<string>)
    requires |a| > 0 && |b| > 0
    ensures Join(a + b) == Join(a) + "\n" + Join(b)
  {
    if |a| == 1 {
      assert (a + b)[1..] == b;
    } else {
      assert (a + b)[1..] == a[1..] + b;
      JoinAppend(a[1..], b);
    }
  }

  /** A string without a newline is one line. */
  lemma {:induction false} LinesOfLine(a: string)
    requires '\n' !in a
    ensures Lines(a) == [a]
  {
    if a != [] {
      LinesOfLine(a[1..]);
      assert [a[0]] + a[1..] == a;
    }
  }

  /** A line followed by a newline splits off as the first element. */
  lemma {:induction false} LinesOfPrefixedLine(a: string, b: string)
    requires '\n' !in a
    ensures Lines(a + "\n" + b) == [a] + Lines(b)
  {
    if a == [] {
      assert a + "\n" + b == "\n" + b;
      assert ("\n" + b)[1..] == b;
    } else {
      assert (a + "\n" + b)[1..] == a[1..] + "\n" + b;
      LinesOfPrefixedLine(a[1..], b);
      assert [a[0]] + a[1..] == a;
    }
  }

  /** The inverse of `JoinLines`: splitting joined newline-free lines gives them back. */
  lemma {:induction false} LinesJoin(ls: seq<string>)
    requires |ls| > 0 && forall i :: 0 <= i < |ls| ==> '\n' !in ls[i]
    ensures Lines(Join(ls)) == ls
  {
    if |ls| == 1 {
      LinesOfLine(ls[0]);
    } else {
      LinesJoin(ls[1..]);
      LinesOfPrefixedLine(ls[0], Join(ls[1..]));
    }
  }

  /** No piece of a split holds the separator. */
  lemma {:induction false} LinesHaveNoNewline(s: string)
    ensures forall i :: 0 <= i < |Lines(s)| ==> '\n' !in Lines(s)[i]
  {
    if s != [] {
      LinesHaveNoNewline(s[1..]);
      var rest := Lines(s[1..]);
      if s[0] != '\n' {
        assert '\n' !in [s[0]] + rest[0];
      }
    }
  }

  lemma CharOfOccurrence(t: string, m: string, q: nat, i: nat)
    requires OccursAt(t, m, q) && i < |m|
    ensures t[q + i] == m[i] && m[i] in m
  {
    assert t[q..q + |m|][i] == t[q + i];
  }

  /** Text spliced in at `k` keeps every string no occurrence of which runs across `k`. */
  lemma InsertKeeps(t: string, k: nat, x: string, m: string)
    requires k <= |t| && Contains(t, m)
    requires forall q: nat :: OccursAt(t, m, q) ==> q + |m| <= k || k <= q
    ensures Contains(t[..k] + x + t[k..], m)
  {
    var q: nat :| q <= |t| && OccursAt(t, m, q);
    var r := t[..k] + x + t[k..];
    if q + |m| <= k {
      assert t[..k][q..q + |m|] == t[q..q + |m|];
      ContainsAt(t[..k], m, q);
      ContainsLeft(t[..k], x + t[k..], m);
      assert t[..k] + (x + t[k..]) == r;
    } else {
      OccursShift(t, k, m, q - k);
      ContainsAt(t[k..], m, q - k);
      ContainsRight(t[..k] + x, t[k..], m);
    }
  }

  /**
   * Text spliced in at a line boundary keeps every string without a newline
   * that the original text contained.
   */
  lemma InsertAtLineBoundaryKeeps(t: string, k: nat, x: string, m: string)
    requires k <= |t| && (k == |t| || t[k] == '\n')
    requires forall c :: c in m ==> c != '\n'
    requires Contains(t, m)
    ensures Contains(t[..k] + x + t[k..], m)
  {
    forall q: nat | OccursAt(t, m, q) ensures q + |m| <= k || k <= q {
      if q < k < q + |m| {
        CharOfOccurrence(t, m, q, k - q);
      }
    }
    InsertKeeps(t, k, x, m);
  }

  /**
   * Text spliced in right after a character `t[k - 1]` keeps every string in which
   * that character can only be the last one.
   */
  lemma InsertAfterCharKeeps(t: string, k: nat, x: string, m: string)
    requires 0 < k <= |t| && Contains(t, m)
    requires forall i :: 0 <= i < |m| - 1 ==> m[i] != t[k - 1]
    ensures Contains(t[..k] + x + t[k..], m)
  {
    forall q: nat | OccursAt(t, m, q) ensures q + |m| <= k || k <= q {
      if q < k < q + |m| {
        CharOfOccurrence(t, m, q, k - 1 - q);
      }
    }
    InsertKeeps(t, k, x, m);
  }

  /** If `s` contains `x` and `x` contains `m`, then `s` contains `m`. */
  lemma ContainsTrans(s: string, x: string, m: string)
    requires Contains(s, x) && Contains(x, m)
    ensures Contains(s, m)
  {
    var i: nat :| i <= |s| && OccursAt(s, x, i);
    var j: nat :| j <= |x| && OccursAt(x, m, j);
    forall k | 0 <= k < |m| ensures s[i + j + k] == m[k] {
      CharOfOccurrence(x, m, j, k);
      CharOfOccurrence(s, x, i, j + k);
    }
    assert s[i + j..i + j + |m|] == m;
    assert OccursAt(s, m, i + j);
  }

  /** An occurrence that ends in a non-space character stays where it is under `rstrip`. */
  lemma RStripKeepsAt(s: string, m: string, q: nat)
    requires OccursAt(s, m, q) && |m| > 0 && !IsSpace(m[|m| - 1])
    ensures OccursAt(RStrip(s), m, q)
  {
    var r := RStrip(s);
    CharOfOccurrence(s, m, q, |m| - 1);
    assert q + |m| <= |r|;
    assert r == s[..|r|];
    assert r[q..q + |m|] == s[q..q + |m|];
  }

  /**
   * Appending text that lacks the last character of `m` cannot create an
   * occurrence of `m`.
   */
  lemma AppendKeepsAbsent(t: string, u: string, m: string)
    requires |m| > 0 && !Contains(t, m) && m[|m| - 1] !in u
    ensures !Contains(t + u, m)
  {
    forall q: nat | q + |m| <= |t + u| ensures !OccursAt(t + u, m, q) {
      if q + |m| <= |t| {
        assert !OccursAt(t, m, q);
        assert (t + u)[q..q + |m|] == t[q..q + |m|];
      } else {
        assert (t + u)[q..q + |m|][|m| - 1] == u[q + |m| - 1 - |t|];
        assert u[q + |m| - 1 - |t|] in u;
      }
    }
  }
}
