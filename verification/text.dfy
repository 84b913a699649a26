/**
 Text primitives shared by both scripts: Python's `str.isspace`, `strip`,
 `split('\n')`, `find`, line anchors of `re.MULTILINE`, and `os.path.basename`.
 Whitespace is the ASCII part of what `str.isspace()` accepts.
 */
module Text {

  /** ASCII characters for which Python's `str.isspace()` (and regex `\s`) holds. */
  predicate IsSpace(c: char) {
    c == ' ' || c == '\t' || c == '\n' || c == '\r' || c == '\U{B}' || c == '\U{C}'
    || ('\U{1C}' <= c <= '\U{1F}')
  }

  predicate AllSpace(s: string) {
    forall i :: 0 <= i < |s| ==> IsSpace(s[i])
  }

  /** A string with no leading and no trailing whitespace. */
  predicate Stripped(s: string) {
    s == [] || (!IsSpace(s[0]) && !IsSpace(s[|s| - 1]))
  }

  /** The least k in [lo, hi) with p(k), or hi when there is none. */
  function FirstWhere(lo: nat, hi: nat, p: nat -> bool): (k: nat)
    requires lo <= hi
    ensures lo <= k <= hi
    ensures k < hi ==> p(k)
    ensures forall j :: lo <= j < k ==> !p(j)
    decreases hi - lo
  {
    if lo == hi then hi
    else if p(lo) then lo
    else FirstWhere(lo + 1, hi, p)
  }

  /** The greatest k in [lo, hi) with p(k), or hi when there is none. */
  function LastWhere(lo: nat, hi: nat, p: nat -> bool): (k: nat)
    requires lo <= hi
    ensures lo <= k <= hi
    ensures k < hi ==> p(k) && forall j :: k < j < hi ==> !p(j)
    ensures k == hi ==> forall j :: lo <= j < hi ==> !p(j)
    decreases hi - lo
  {
    if lo == hi then hi
    else if p(hi - 1) then hi - 1
    else
      var k := LastWhere(lo, hi - 1, p);
      if k == hi - 1 then hi else k
  }

  /** `str.strip()`: leading and trailing whitespace removed, one character
      at a time. */
  function Strip(s: string): (r: string)
    ensures Stripped(r)
    ensures |r| <= |s|
    decreases |s|
  {
    if |s| > 0 && IsSpace(s[0]) then Strip(s[1..])
    else if |s| > 0 && IsSpace(s[|s| - 1]) then Strip(s[..|s| - 1])
    else s
  }

  /** `Strip` empties exactly the all-whitespace strings. */
  lemma StripBlank(s: string)
    ensures Strip(s) == [] <==> AllSpace(s)
  {
    if AllSpace(s) {
      StripPadded(s, [], []);
      assert s + [] + [] == s;
    } else {
      var k :| 0 <= k < |s| && !IsSpace(s[k]);
      StripKeepsNonSpace(s, k);
    }
  }

  /** A non-whitespace character survives `Strip`, so the result is non-empty. */
  lemma {:induction false} StripKeepsNonSpace(s: string, k: nat)
    requires k < |s| && !IsSpace(s[k])
    ensures Strip(s) != []
    decreases |s|
  {
    if IsSpace(s[0]) {
      StripKeepsNonSpace(s[1..], k - 1);
    } else if IsSpace(s[|s| - 1]) {
      StripKeepsNonSpace(s[..|s| - 1], k);
    }
  }

  /** `Strip` recovers the core of any whitespace-padded stripped string. */
  lemma {:induction false} StripPadded(w1: string, x: string, w2: string)
    requires AllSpace(w1) && AllSpace(w2) && Stripped(x)
    ensures Strip(w1 + x + w2) == x
    decreases |w1| + |w2|
  {
    var s := w1 + x + w2;
    if |w1| > 0 {
      assert s[0] == w1[0];
      assert s[1..] == w1[1..] + x + w2;
      StripPadded(w1[1..], x, w2);
    } else if |w2| > 0 {
      assert s == x + w2;
      assert s[|s| - 1] == w2[|w2| - 1];
      if x == [] {
        assert s[1..] == w1 + x + w2[1..];
        StripPadded(w1, x, w2[1..]);
      } else {
        assert s[0] == x[0];
        assert s[..|s| - 1] == w1 + x + w2[..|w2| - 1];
        StripPadded(w1, x, w2[..|w2| - 1]);
      }
    } else {
      assert s == x;
    }
  }

  /** Stripping only removes characters. */
  lemma {:induction false} StripKeeps(s: string)
    ensures forall c :: c in Strip(s) ==> c in s
    decreases |s|
  {
    if |s| > 0 && IsSpace(s[0]) {
      StripKeeps(s[1..]);
      assert s == [s[0]] + s[1..];
    } else if |s| > 0 && IsSpace(s[|s| - 1]) {
      StripKeeps(s[..|s| - 1]);
      assert s == s[..|s| - 1] + [s[|s| - 1]];
    }
  }

  /** Python's `s.startswith(pat)` at offset k: pat occurs in s at k. */
  predicate OccursAt(s: string, pat: string, k: nat) {
    k + |pat| <= |s| && s[k..k + |pat|] == pat
  }

  /** An occurrence stays put when text is appended. */
  lemma OccursExtend(s: string, t: string, pat: string, k: nat)
    requires OccursAt(s, pat, k)
    ensures OccursAt(s + t, pat, k)
  {
    assert (s + t)[k..k + |pat|] == s[k..k + |pat|];
  }

  /** An occurrence moves right by the length of prepended text. */
  lemma OccursShift(s: string, t: string, pat: string, k: nat)
    requires OccursAt(t, pat, k)
    ensures OccursAt(s + t, pat, |s| + k)
  {
    assert (s + t)[|s| + k..|s| + k + |pat|] == t[k..k + |pat|];
  }

  /** Adjacent occurrences of p and q form an occurrence of p + q. */
  lemma OccursConcat(s: string, p: string, q: string, k: nat)
    requires OccursAt(s, p, k) && OccursAt(s, q, k + |p|)
    ensures OccursAt(s, p + q, k)
  {
    assert s[k..k + |p| + |q|] == s[k..k + |p|] + s[k + |p|..k + |p| + |q|];
  }

  /** Python's `pat in s`. */
  predicate Contains(s: string, pat: string) {
    exists k :: 0 <= k <= |s| && OccursAt(s, pat, k)
  }

  /** Every slice of s is contained in s. */
  lemma ContainsSlice(s: string, i: nat, j: nat)
    requires i <= j <= |s|
    ensures Contains(s, s[i..j])
  {
    assert OccursAt(s, s[i..j], i);
  }

  /** Containment is transitive. */
  lemma ContainsTrans(s: string, t: string, u: string)
    requires Contains(s, t) && Contains(t, u)
    ensures Contains(s, u)
  {
    var k :| 0 <= k <= |s| && OccursAt(s, t, k);
    var j :| 0 <= j <= |t| && OccursAt(t, u, j);
    forall i | 0 <= i < |u| ensures s[k + j + i] == u[i] {
      assert u[i] == t[j..j + |u|][i] == t[j + i];
      assert t[j + i] == s[k..k + |t|][j + i];
    }
    assert s[k + j..k + j + |u|] == u;
    assert OccursAt(s, u, k + j);
  }

  function StartsWith(s: string, pat: string): (b: bool)
    ensures b <==> OccursAt(s, pat, 0)
  {
    |pat| <= |s| && s[..|pat|] == pat
  }

  /** Python's `s.endswith(m)`. */
  predicate EndsWith(t: string, m: string) {
    |m| <= |t| && t[|t| - |m|..] == m
  }

  /** Python's `s.find(pat, start)`: the first occurrence at or after start. */
  function Find(s: string, pat: string, start: nat): (r: int)
    requires start <= |s|
    ensures r == -1 || (start <= r && OccursAt(s, pat, r))
    ensures r == -1 ==> forall k :: start <= k <= |s| ==> !OccursAt(s, pat, k)
    ensures r != -1 ==> forall k :: start <= k < r ==> !OccursAt(s, pat, k)
  {
    var p := (k: nat) => OccursAt(s, pat, k);
    var k := FirstWhere(start, |s| + 1, p);
    assert forall j :: start <= j < k ==> !OccursAt(s, pat, j) by {
      forall j | start <= j < k ensures !OccursAt(s, pat, j) { assert !p(j); }
    }
    if k == |s| + 1 then -1 else k
  }

  /** The first position at or after i holding c, or |s| when there is none. */
  function IndexOf(s: string, c: char, i: nat): (k: nat)
    requires i <= |s|
    ensures i <= k <= |s|
    ensures k < |s| ==> s[k] == c
    ensures forall j :: i <= j < k ==> s[j] != c
    decreases |s| - i
  {
    if i == |s| || s[i] == c then i else IndexOf(s, c, i + 1)
  }

  /** `IndexOf` lands on c when nothing before it holds c. */
  lemma {:induction false} IndexOfSkips(s: string, c: char, i: nat, e: nat)
    requires i <= e < |s| && s[e] == c
    requires forall j :: i <= j < e ==> s[j] != c
    ensures IndexOf(s, c, i) == e
    decreases e - i
  {
    if i < e {
      IndexOfSkips(s, c, i + 1, e);
    }
  }

  /** `^` under `re.MULTILINE`: the start of the text or just after a newline. */
  predicate LineStart(s: string, i: nat) {
    i == 0 || (i <= |s| && s[i - 1] == '\n')
  }

  /** Where `$` under `re.MULTILINE` first holds at or after i: the next newline
      or the end of the text. */
  function LineEnd(s: string, i: nat): (e: nat)
    requires i <= |s|
    ensures i <= e <= |s|
    ensures e < |s| ==> s[e] == '\n'
    ensures '\n' !in s[i..e]
  {
    var e := IndexOf(s, '\n', i);
    assert forall j :: 0 <= j < e - i ==> s[i..e][j] == s[i + j];
    e
  }

  /** Joins pieces with the separator between them (Python's `sep.join`). */
  function Join(pieces: seq<string>, sep: char): string {
    if |pieces| == 0 then []
    else if |pieces| == 1 then pieces[0]
    else pieces[0] + [sep] + Join(pieces[1..], sep)
  }

  /** Python's `s.split(sep)` for a one-character separator. */
  function Split(s: string, sep: char): (r: seq<string>)
    ensures |r| >= 1
    ensures forall i :: 0 <= i < |r| ==> sep !in r[i]
    ensures Join(r, sep) == s
    decreases |s|
  {
    var k := IndexOf(s, sep, 0);
    assert forall j :: 0 <= j < k ==> s[..k][j] == s[j];
    if k == |s| then
      assert s[..k] == s;
      [s]
    else
      var rest := Split(s[k + 1..], sep);
      assert s == s[..k] + [sep] + s[k + 1..];
      [s[..k]] + rest
  }

  /** Splitting undoes joining, so line-based rendering can be read back. */
  lemma {:induction false} SplitJoin(pieces: seq<string>, sep: char)
    requires |pieces| >= 1
    requires forall i :: 0 <= i < |pieces| ==> sep !in pieces[i]
    ensures Split(Join(pieces, sep), sep) == pieces
    decreases |pieces|
  {
    if |pieces| == 1 {
      SplitSingle(pieces[0], sep);
    } else {
      SplitCons(pieces[0], sep, Join(pieces[1..], sep));
      SplitJoin(pieces[1..], sep);
      assert pieces == [pieces[0]] + pieces[1..];
    }
  }

  /** Text without the separator splits into itself alone. */
  lemma SplitSingle(a: string, sep: char)
    requires sep !in a
    ensures Split(a, sep) == [a]
  {
    assert IndexOf(a, sep, 0) == |a|;
    assert a[..|a|] == a;
  }

  /** Splitting stops at the first separator. */
  lemma SplitCons(a: string, sep: char, t: string)
    requires sep !in a
    ensures Split(a + [sep] + t, sep) == [a] + Split(t, sep)
  {
    var s := a + [sep] + t;
    assert forall j :: 0 <= j < |a| ==> s[j] == a[j];
    IndexOfSkips(s, sep, 0, |a|);
    assert s[..|a|] == a;
    assert s[|a| + 1..] == t;
  }

  /** `os.path.basename` on '/'-separated paths: what follows the last '/'. */
  function Basename(p: string): (r: string)
    ensures |r| <= |p| && r == p[|p| - |r|..]
    ensures '/' !in r
    ensures |r| == |p| || p[|p| - |r| - 1] == '/'
  {
    var slash := (k: nat) => k < |p| && p[k] == '/';
    var k := LastWhere(0, |p|, slash);
    if k == |p| then
      assert forall j :: 0 <= j < |p| ==> p[j] != '/' by {
        forall j | 0 <= j < |p| ensures p[j] != '/' { assert !slash(j); }
      }
      p
    else
      assert forall j :: k < j < |p| ==> p[j] != '/' by {
        forall j | k < j < |p| ensures p[j] != '/' { assert !slash(j); }
      }
      p[k + 1..]
  }
}
