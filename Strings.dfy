/**
 * The Python `str` operations the modelled code relies on, written out over `seq<char>`:
 * `isspace`, `strip`/`lstrip`/`rstrip`, `split(sep)`, `sep.join`, `splitlines`, `lower`,
 * `startswith`/`endswith` and `in` on substrings.
 */
module Strings {
  import opened Wrappers

  /** Python's `str.isspace()` for one character (the code points Python calls whitespace). */
  predicate IsSpace(c: char) {
    c == ' ' || ('\t' <= c <= '\r') || ('\U{1c}' <= c <= '\U{1f}') || c == '\U{85}' || c == '\U{a0}'
    || c == '\U{1680}' || ('\U{2000}' <= c <= '\U{200a}') || c == '\U{2028}' || c == '\U{2029}'
    || c == '\U{202f}' || c == '\U{205f}' || c == '\U{3000}'
  }

  /** The characters at which `str.splitlines()` ends a line (`\r\n` counts as one break). */
  predicate IsLineBreak(c: char) {
    c == '\n' || c == '\r' || c == '\U{0b}' || c == '\U{0c}' || ('\U{1c}' <= c <= '\U{1e}')
    || c == '\U{85}' || c == '\U{2028}' || c == '\U{2029}'
  }

  predicate NoLineBreak(s: string) {
    forall i :: 0 <= i < |s| ==> !IsLineBreak(s[i])
  }

  /** Neither end of `s` is whitespace: what `strip()` leaves behind. */
  predicate Stripped(s: string) {
    s == [] || (!IsSpace(s[0]) && !IsSpace(s[|s| - 1]))
  }

  predicate AllSpace(s: string) {
    forall i :: 0 <= i < |s| ==> IsSpace(s[i])
  }

  /** Python's `s[a:b]` for non-negative bounds: out-of-range bounds are clamped, and `a > b` gives `""`. */
  function Slice(s: string, a: nat, b: nat): (r: string)
    ensures a <= b <= |s| ==> r == s[a..b]
    ensures |r| <= |s|
  {
    var hi := if b <= |s| then b else |s|;
    var lo := if a <= hi then a else hi;
    s[lo..hi]
  }

  /** The index of the first non-whitespace character at or after `i`, or `|s|`. */
  function SkipSpace(s: string, i: nat): (j: nat)
    requires i <= |s|
    ensures i <= j <= |s| && (j < |s| ==> !IsSpace(s[j]))
    decreases |s| - i
  {
    if i < |s| && IsSpace(s[i]) then SkipSpace(s, i + 1) else i
  }

  /** The end of `s[lo..j]` once its trailing whitespace is dropped. */
  function TrimEnd(s: string, lo: nat, j: nat): (k: nat)
    requires lo <= j <= |s|
    ensures lo <= k <= j && (k > lo ==> !IsSpace(s[k - 1]))
    decreases j
  {
    if j > lo && IsSpace(s[j - 1]) then TrimEnd(s, lo, j - 1) else j
  }

  /** `s.lstrip()` */
  function LStrip(s: string): (r: string)
    ensures |r| <= |s| && r == s[|s| - |r|..]
    ensures r == [] || !IsSpace(r[0])
  {
    s[SkipSpace(s, 0)..]
  }

  /** `s.rstrip()` */
  function RStrip(s: string): (r: string)
    ensures |r| <= |s| && r == s[..|r|]
    ensures r == [] || !IsSpace(r[|r| - 1])
  {
    s[..TrimEnd(s, 0, |s|)]
  }

  /** `s.strip()`: `lstrip()` followed by `rstrip()`. */
  function Strip(s: string): (r: string)
    ensures Stripped(r) && |r| <= |s|
  {
    var lo := SkipSpace(s, 0);
    s[lo..TrimEnd(s, lo, |s|)]
  }

  /** `s.rstrip(c)` for a single character `c` */
  function RStripChar(s: string, c: char): (r: string)
    ensures |r| <= |s| && r == s[..|r|]
    ensures r == [] || r[|r| - 1] != c
    ensures forall i :: |r| <= i < |s| ==> s[i] == c
  {
    if s != [] && s[|s| - 1] == c then RStripChar(s[..|s| - 1], c) else s
  }

  /** `s.strip(c)` for a single character `c` */
  function StripChar(s: string, c: char): (r: string)
    ensures r == [] || (r[0] != c && r[|r| - 1] != c)
  {
    var l := if s != [] && s[0] == c then StripChar(s[1..], c) else s;
    var r := RStripChar(l, c);
    assert r != [] ==> r[0] == l[0];
    r
  }

  /** Everything `SkipSpace` passes over is whitespace. */
  lemma {:induction false} SkipSpaceAll(s: string, i: nat)
    requires i <= |s|
    ensures forall k :: i <= k < SkipSpace(s, i) ==> IsSpace(s[k])
    decreases |s| - i
  {
    if i < |s| && IsSpace(s[i]) {
      SkipSpaceAll(s, i + 1);
    }
  }

  /** Everything `TrimEnd` drops is whitespace. */
  lemma {:induction false} TrimEndAll(s: string, lo: nat, j: nat)
    requires lo <= j <= |s|
    ensures forall k :: TrimEnd(s, lo, j) <= k < j ==> IsSpace(s[k])
    decreases j
  {
    if j > lo && IsSpace(s[j - 1]) {
      TrimEndAll(s, lo, j - 1);
    }
  }

  /** `SkipSpace` stops at the first non-whitespace character. */
  lemma {:induction false} SkipSpaceAt(s: string, i: nat, m: nat)
    requires i <= m <= |s| && (m < |s| ==> !IsSpace(s[m]))
    requires forall k :: i <= k < m ==> IsSpace(s[k])
    ensures SkipSpace(s, i) == m
    decreases m - i
  {
    if i < m {
      SkipSpaceAt(s, i + 1, m);
    }
  }

  /** `TrimEnd` stops after the last non-whitespace character. */
  lemma {:induction false} TrimEndAt(s: string, lo: nat, j: nat, m: nat)
    requires lo <= m <= j <= |s| && (m > lo ==> !IsSpace(s[m - 1]))
    requires forall k :: m <= k < j ==> IsSpace(s[k])
    ensures TrimEnd(s, lo, j) == m
    decreases j - m
  {
    if m < j {
      TrimEndAt(s, lo, j - 1, m);
    }
  }

  lemma StripOfStripped(s: string)
    requires Stripped(s)
    ensures Strip(s) == s
  {
    if s != [] {
      assert SkipSpace(s, 0) == 0;
      assert TrimEnd(s, 0, |s|) == |s|;
    }
  }

  lemma StripIdempotent(s: string)
    ensures Strip(Strip(s)) == Strip(s)
  {
    StripOfStripped(Strip(s));
  }

  /** `strip()` gives the empty string exactly when the input is all whitespace. */
  lemma StripEmpty(s: string)
    ensures Strip(s) == [] <==> AllSpace(s)
  {
    var lo := SkipSpace(s, 0);
    SkipSpaceAll(s, 0);
    TrimEndAll(s, lo, |s|);
    if AllSpace(s) {
      SkipSpaceAt(s, 0, |s|);
    }
  }

  /** `strip()` removes only surrounding whitespace: the result sits inside the input. */
  lemma StripInfix(s: string) returns (i: nat)
    ensures i + |Strip(s)| <= |s| && s[i..i + |Strip(s)|] == Strip(s)
    ensures AllSpace(s[..i]) && AllSpace(s[i + |Strip(s)|..])
  {
    i := SkipSpace(s, 0);
    SkipSpaceAll(s, 0);
    TrimEndAll(s, i, |s|);
  }

  /** Whitespace around a stripped text is what `strip()` removes. */
  lemma StripSpaceAround(w1: string, s: string, w2: string)
    requires AllSpace(w1) && AllSpace(w2) && Stripped(s)
    ensures Strip(w1 + s + w2) == s
  {
    var t := w1 + s + w2;
    if s == [] {
      assert t == w1 + w2;
      StripEmpty(t);
    } else {
      forall k | 0 <= k < |w1|
        ensures IsSpace(t[k])
      {
        assert t[k] == w1[k];
      }
      forall k | |w1| + |s| <= k < |t|
        ensures IsSpace(t[k])
      {
        assert t[k] == w2[k - |w1| - |s|];
      }
      assert t[|w1|] == s[0] && t[|w1| + |s| - 1] == s[|s| - 1];
      SkipSpaceAt(t, 0, |w1|);
      TrimEndAt(t, |w1|, |t|, |w1| + |s|);
      assert t[|w1|..|w1| + |s|] == s;
    }
  }

  /** A concatenation is all whitespace exactly when both parts are. */
  lemma AllSpaceConcat(x: string, y: string)
    ensures AllSpace(x + y) <==> AllSpace(x) && AllSpace(y)
  {
    assert forall k :: 0 <= k < |x| ==> (x + y)[k] == x[k];
    assert forall k :: 0 <= k < |y| ==> (x + y)[|x| + k] == y[k];
  }

  /** `lstrip()` removes exactly a whitespace prefix. */
  lemma LStripSpacePrefix(w: string, t: string)
    requires AllSpace(w) && (t == [] || !IsSpace(t[0]))
    ensures LStrip(w + t) == t
  {
    var u := w + t;
    assert forall k :: 0 <= k < |w| ==> u[k] == w[k];
    SkipSpaceAt(u, 0, |w|);
    assert u[|w|..] == t;
  }

  /** `rstrip()` removes exactly a whitespace suffix. */
  lemma RStripSpaceSuffix(t: string, w: string)
    requires AllSpace(w) && (t == [] || !IsSpace(t[|t| - 1]))
    ensures RStrip(t + w) == t
  {
    var u := t + w;
    assert forall k :: |t| <= k < |u| ==> u[k] == w[k - |t|];
    TrimEndAt(u, 0, |u|, |t|);
    assert u[..|t|] == t;
  }

  /** `s.split(sep)` for a one-character separator: always at least one piece. */
  function SplitOn(s: string, sep: char): (r: seq<string>)
    ensures |r| >= 1 && forall p :: p in r ==> sep !in p
  {
    SplitOnFrom(s, sep, [])
  }

  function SplitOnFrom(s: string, sep: char, cur: string): (r: seq<string>)
    requires sep !in cur
    ensures |r| >= 1 && forall p :: p in r ==> sep !in p
  {
    if s == [] then [cur]
    else if s[0] == sep then [cur] + SplitOnFrom(s[1..], sep, [])
    else SplitOnFrom(s[1..], sep, cur + [s[0]])
  }

  /** Past the head, an element of a list with one more item in front is the one before it in the tail. */
  lemma ConsIndex(x: string, xs: seq<string>, i: nat)
    requires 1 <= i <= |xs|
    ensures ([x] + xs)[i] == xs[i - 1]
  {
  }

  /** Concatenation regrouped. */
  lemma Regroup(a: string, b: string, c: string)
    ensures a + b + c == a + (b + c)
  {
  }

  /** `sep.join(xs)` */
  function Join(xs: seq<string>, sep: string): string {
    if xs == [] then [] else if |xs| == 1 then xs[0] else xs[0] + sep + Join(xs[1..], sep)
  }

  lemma JoinCons(x: string, xs: seq<string>, sep: string)
    requires xs != []
    ensures Join([x] + xs, sep) == x + sep + Join(xs, sep)
  {
    assert ([x] + xs)[1..] == xs;
  }

  /** A join begins with its first piece. */
  lemma JoinFirst(xs: seq<string>, sep: string)
    requires |xs| >= 1 && xs[0] != []
    ensures Join(xs, sep) != [] && Join(xs, sep)[0] == xs[0][0]
  {
  }

  /** A join ends with its last piece. */
  lemma {:induction false} JoinLast(xs: seq<string>, sep: string)
    requires |xs| >= 1 && xs[|xs| - 1] != []
    ensures Join(xs, sep) != []
    ensures Join(xs, sep)[|Join(xs, sep)| - 1] == xs[|xs| - 1][|xs[|xs| - 1]| - 1]
  {
    if |xs| > 1 {
      JoinLast(xs[1..], sep);
    }
  }

  /** A character in neither the pieces nor the separator is not in their join. */
  lemma {:induction false} JoinAvoids(xs: seq<string>, sep: string, c: char)
    requires c !in sep && forall k :: 0 <= k < |xs| ==> c !in xs[k]
    ensures c !in Join(xs, sep)
  {
    if |xs| > 1 {
      JoinAvoids(xs[1..], sep, c);
    }
  }

  /** Pieces and separator without line breaks join into a text without line breaks. */
  lemma {:induction false} JoinNoBreak(xs: seq<string>, sep: string)
    requires NoLineBreak(sep) && forall k :: 0 <= k < |xs| ==> NoLineBreak(xs[k])
    ensures NoLineBreak(Join(xs, sep))
  {
    if |xs| > 1 {
      JoinNoBreak(xs[1..], sep);
      var t := Join(xs[1..], sep);
      assert forall i :: 0 <= i < |xs[0] + sep + t| ==>
        (xs[0] + sep + t)[i] == if i < |xs[0]| then xs[0][i] else if i < |xs[0] + sep| then sep[i - |xs[0]|] else t[i - |xs[0] + sep|];
    }
  }

  lemma {:induction false} SplitOnFromPlain(x: string, t: string, sep: char, cur: string)
    requires sep !in cur && sep !in x
    ensures SplitOnFrom(x + t, sep, cur) == SplitOnFrom(t, sep, cur + x)
    decreases |x|
  {
    if x != [] {
      assert (x + t)[0] == x[0] && (x + t)[1..] == x[1..] + t;
      SplitOnFromPlain(x[1..], t, sep, cur + [x[0]]);
      assert cur + [x[0]] + x[1..] == cur + x;
    } else {
      assert x + t == t && cur + x == cur;
    }
  }

  /** Splitting the join of separator-free pieces gives the pieces back. */
  lemma {:induction false} SplitOnJoin(xs: seq<string>, sep: char)
    requires xs != [] && forall x :: x in xs ==> sep !in x
    ensures SplitOn(Join(xs, [sep]), sep) == xs
  {
    if |xs| == 1 {
      SplitOnFromPlain(xs[0], [], sep, []);
      assert xs[0] + [] == xs[0];
    } else {
      var rest := Join(xs[1..], [sep]);
      assert Join(xs, [sep]) == xs[0] + ([sep] + rest);
      SplitOnFromPlain(xs[0], [sep] + rest, sep, []);
      assert ([sep] + rest)[0] == sep && ([sep] + rest)[1..] == rest;
      assert [] + xs[0] == xs[0];
      SplitOnJoin(xs[1..], sep);
      assert [xs[0]] + xs[1..] == xs;
    }
  }

  lemma {:induction false} JoinSplitOnFrom(s: string, sep: char, cur: string)
    requires sep !in cur
    ensures Join(SplitOnFrom(s, sep, cur), [sep]) == cur + s
    decreases |s|
  {
    if s == [] {
    } else if s[0] == sep {
      JoinSplitOnFrom(s[1..], sep, []);
      JoinCons(cur, SplitOnFrom(s[1..], sep, []), [sep]);
      assert s == [sep] + s[1..];
    } else {
      JoinSplitOnFrom(s[1..], sep, cur + [s[0]]);
      assert cur + [s[0]] + s[1..] == cur + s;
    }
  }

  /** Joining the pieces of a split gives the text back. */
  lemma JoinSplitOn(s: string, sep: char)
    ensures Join(SplitOn(s, sep), [sep]) == s
  {
    JoinSplitOnFrom(s, sep, []);
  }

  /** Length of the line break at the head of `s` (`\r\n` is one break). */
  function BreakLength(s: string): nat
    requires s != [] && IsLineBreak(s[0])
  {
    if |s| >= 2 && s[0] == '\r' && s[1] == '\n' then 2 else 1
  }

  /** `s.splitlines()`: no piece for the text after a final line break. */
  function SplitLines(s: string): (r: seq<string>)
    ensures forall l :: l in r ==> NoLineBreak(l)
  {
    SplitLinesFrom(s, [])
  }

  function SplitLinesFrom(s: string, cur: string): (r: seq<string>)
    requires NoLineBreak(cur)
    ensures forall l :: l in r ==> NoLineBreak(l)
    decreases |s|
  {
    if s == [] then (if cur == [] then [] else [cur])
    else if IsLineBreak(s[0]) then [cur] + SplitLinesFrom(s[BreakLength(s)..], [])
    else SplitLinesFrom(s[1..], cur + [s[0]])
  }

  lemma {:induction false} SplitLinesFromPlain(x: string, t: string, cur: string)
    requires NoLineBreak(cur) && NoLineBreak(x)
    ensures SplitLinesFrom(x + t, cur) == SplitLinesFrom(t, cur + x)
    decreases |x|
  {
    if x != [] {
      assert (x + t)[0] == x[0] && (x + t)[1..] == x[1..] + t;
      assert NoLineBreak(cur + [x[0]]);
      SplitLinesFromPlain(x[1..], t, cur + [x[0]]);
      assert cur + [x[0]] + x[1..] == cur + x;
    } else {
      assert x + t == t && cur + x == cur;
    }
  }

  lemma SplitLinesCons(row: string, rest: string)
    requires NoLineBreak(row)
    ensures SplitLinesFrom(row + "\n" + rest, []) == [row] + SplitLinesFrom(rest, [])
  {
    var t := "\n" + rest;
    assert row + "\n" + rest == row + t;
    SplitLinesFromPlain(row, t, []);
    assert [] + row == row;
    assert t[0] == '\n' && t[1..] == rest && BreakLength(t) == 1;
  }

  /** Lines without breaks, joined by `\n`, split back into the same lines. */
  lemma {:induction false} SplitLinesJoin(rows: seq<string>)
    requires rows != [] && rows[|rows| - 1] != []
    requires forall r :: r in rows ==> NoLineBreak(r)
    ensures SplitLines(Join(rows, "\n")) == rows
  {
    if |rows| == 1 {
      assert Join(rows, "\n") == rows[0] + [];
      SplitLinesFromPlain(rows[0], [], []);
      assert [] + rows[0] == rows[0];
      assert SplitLinesFrom([], rows[0]) == [rows[0]];
    } else {
      SplitLinesCons(rows[0], Join(rows[1..], "\n"));
      SplitLinesJoin(rows[1..]);
      assert [rows[0]] + rows[1..] == rows;
    }
  }

  /** Python's `str.lower()` on ASCII letters. */
  function LowerChar(c: char): char {
    if 'A' <= c <= 'Z' then (c as int + 32) as char else c
  }

  function Lower(s: string): (r: string)
    ensures |r| == |s| && forall i :: 0 <= i < |s| ==> r[i] == LowerChar(s[i])
  {
    seq(|s|, i requires 0 <= i < |s| => LowerChar(s[i]))
  }

  predicate IsDigit(c: char) {
    '0' <= c <= '9'
  }

  predicate StartsWith(s: string, p: string) {
    |p| <= |s| && s[..|p|] == p
  }

  predicate EndsWith(s: string, p: string) {
    |p| <= |s| && s[|s| - |p|..] == p
  }

  /** `s[i..]` begins with `sub`, compared character by character. */
  predicate MatchesAt(s: string, sub: string, i: nat)
    decreases |sub|
  {
    sub == [] || (i < |s| && s[i] == sub[0] && MatchesAt(s, sub[1..], i + 1))
  }

  /** The character comparison is the comparison of the slice. */
  lemma {:induction false} MatchesSlice(s: string, sub: string, i: nat)
    requires i + |sub| <= |s|
    ensures MatchesAt(s, sub, i) <==> s[i..i + |sub|] == sub
    decreases |sub|
  {
    if sub != [] {
      MatchesSlice(s, sub[1..], i + 1);
      assert s[i..i + |sub|] == [s[i]] + s[i + 1..i + |sub|];
      assert sub == [sub[0]] + sub[1..];
    }
  }

  /** `sub` occurs in `s` at index `i` */
  predicate OccursAt(s: string, sub: string, i: int) {
    0 <= i <= |s| - |sub| && MatchesAt(s, sub, i)
  }

  /** The first index at or after `i` where `sub` occurs in `s`, scanning left to right. */
  function FirstOccurrence(s: string, sub: string, i: nat): (r: Option<nat>)
    ensures r.Some? ==> i <= r.value && OccursAt(s, sub, r.value)
    decreases |s| - i
  {
    if i + |sub| > |s| then None
    else if MatchesAt(s, sub, i) then Some(i)
    else FirstOccurrence(s, sub, i + 1)
  }

  /** `sub in s` */
  predicate Contains(s: string, sub: string) {
    FirstOccurrence(s, sub, 0).Some?
  }

  /**
   * Where the last piece of `s.split(sep)` begins, searching from `i`: Python splits at the
   * occurrences of `sep` found left to right without overlap.
   */
  function LastStart(s: string, sep: string, i: nat): (k: nat)
    requires sep != [] && i <= |s|
    ensures i <= k <= |s|
    decreases |s| - i
  {
    match FirstOccurrence(s, sep, i)
    case None => i
    case Some(q) => LastStart(s, sep, q + |sep|)
  }

  /** `s.split(sep)[-1]` */
  function LastPiece(s: string, sep: string): (r: string)
    requires sep != []
  {
    s[LastStart(s, sep, 0)..]
  }

  /** `s.split(c)[0]`: the text before the first `c`. */
  function Before(s: string, c: char): (r: string)
    ensures |r| <= |s| && r == s[..|r|] && c !in r
    ensures |r| < |s| ==> s[|r|] == c
  {
    s[..Find(s, c, 0)]
  }

  /** Python's `s[1:-1]`: the text between the first and the last character. */
  function Inner(s: string): (r: string)
    ensures |r| < |s| || s == []
  {
    if |s| >= 2 then s[1..|s| - 1] else []
  }

  /** The index of the first `c` in `s` at or after `i`, or `|s|` when there is none. */
  function Find(s: string, c: char, i: nat): (j: nat)
    requires i <= |s|
    ensures i <= j <= |s| && (j < |s| ==> s[j] == c)
    ensures forall k :: i <= k < j ==> s[k] != c
    decreases |s| - i
  {
    if i == |s| || s[i] == c then i else Find(s, c, i + 1)
  }

  /** The first `c` from `i` on is the one at `j` when none stands between. */
  lemma FindAt(s: string, c: char, i: nat, j: nat)
    requires i <= j < |s| && s[j] == c && forall q :: i <= q < j ==> s[q] != c
    ensures Find(s, c, i) == j
  {
  }
}
