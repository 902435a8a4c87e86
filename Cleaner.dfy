/**
 * `clean_notebook_content`: a notebook's markdown and code cells are cleaned for an LLM
 * prompt. Cells that are only whitespace are dropped; in markdown every run of three or
 * more newlines becomes two; in code every inline base64 image longer than 100 characters
 * is cut down to its `data:image/...;base64,` prefix and a marker; every kept cell is stripped.
 */
module NotebookCleaner {
  import opened Wrappers
  import opened Strings

  /** The parsed notebook: its markdown cells and its code cells, in order. */
  datatype Notebook = Notebook(markdown: seq<string>, code: seq<string>)

  /* ---------------------------------------------------------------------------------- */
  /* `EXCESS_NEWLINES_RE.sub('\n\n', cell)`                                             */
  /* ---------------------------------------------------------------------------------- */

  /** The number of `\n` at the head of `s`. */
  function LeadingNewlines(s: string): (n: nat)
    ensures n <= |s| && (forall k :: 0 <= k < n ==> s[k] == '\n') && (n < |s| ==> s[n] != '\n')
  {
    if s != [] && s[0] == '\n' then 1 + LeadingNewlines(s[1..]) else 0
  }

  /**
   * The pattern `\n{3,}` replaced by two newlines. Scanning left to right, a match can only
   * begin at the first `\n` of a run and takes the whole run, so every maximal run of three
   * or more newlines becomes `\n\n` and shorter runs stay.
   */
  function Collapse(s: string): string
    decreases |s|
  {
    if s == [] then []
    else if s[0] != '\n' then [s[0]] + Collapse(s[1..])
    else
      var n := LeadingNewlines(s);
      (if n >= 3 then "\n\n" else s[..n]) + Collapse(s[n..])
  }

  /** Three newlines in a row from `i` */
  predicate TripleAt(s: string, i: nat)
    requires i + 2 < |s|
  {
    s[i] == '\n' && s[i + 1] == '\n' && s[i + 2] == '\n'
  }

  predicate NoTriple(s: string) {
    forall i :: 0 <= i && i + 2 < |s| ==> !TripleAt(s, i)
  }

  /* ---------------------------------------------------------------------------------- */
  /* `BASE64_IMAGE_RE.sub(r'\1<TRUNCATED_BASE64_DATA>', cell)`                          */
  /* ---------------------------------------------------------------------------------- */

  const ImagePrefix := "data:image/"
  const Base64Tag := ";base64,"
  const TruncatedMarker := "<TRUNCATED_BASE64_DATA>"
  /** The fewest payload characters that are cut */
  const MinPayload := 100

  /** `[a-zA-Z0-9+/=\n\r]` */
  predicate Base64Char(c: char) {
    ('a' <= c <= 'z') || ('A' <= c <= 'Z') || ('0' <= c <= '9') || c == '+' || c == '/' || c == '='
    || c == '\n' || c == '\r'
  }

  /** The end of the run of payload characters that begins at `k`. */
  function PayloadEnd(s: string, k: nat): (e: nat)
    requires k <= |s|
    ensures k <= e <= |s| && (forall q :: k <= q < e ==> Base64Char(s[q])) && (e < |s| ==> !Base64Char(s[e]))
    decreases |s| - k
  {
    if k < |s| && Base64Char(s[k]) then PayloadEnd(s, k + 1) else k
  }

  /**
   * Where a group `prefix[^;]+tag` ends when it matches at the head of `s`, for a `tag` that
   * begins with `;`: `[^;]+` can only end at the first `;` after the prefix, so there is no
   * other way for the group to match.
   */
  function GroupEndOf(s: string, prefix: string, tag: string): (k: Option<nat>)
    ensures k.Some? ==> |prefix| + 1 + |tag| <= k.value <= |s|
  {
    if |s| >= |prefix| && MatchesAt(s, prefix, 0) then
      var j := Find(s, ';', |prefix|);
      if j > |prefix| && j + |tag| <= |s| && MatchesAt(s, tag, j) then Some(j + |tag|)
      else None
    else None
  }

  /** Where the group `(data:image/[^;]+;base64,)` ends when it matches at the head of `s`. */
  function GroupEnd(s: string): (k: Option<nat>)
    ensures k.Some? ==> |ImagePrefix| + 1 + |Base64Tag| <= k.value <= |s|
  {
    GroupEndOf(s, ImagePrefix, Base64Tag)
  }

  /**
   * Whether the whole pattern matches at the head of `s`: the group, then at least 100
   * payload characters, the run taken whole. A match is `Some((k, e))` with the group
   * ending at `k` and the match at `e`.
   */
  function ImageMatch(s: string): (m: Option<(nat, nat)>)
    ensures m.Some? ==> |ImagePrefix| + 1 + |Base64Tag| <= m.value.0 && m.value.0 + MinPayload <= m.value.1 <= |s|
  {
    match GroupEnd(s)
    case None => None
    case Some(k) =>
      var e := PayloadEnd(s, k);
      if e - k >= MinPayload then Some((k, e)) else None
  }

  /** The substitution, scanning left to right and going on after each match. */
  function Truncate(s: string): string
    decreases |s|
  {
    if s == [] then []
    else match ImageMatch(s)
      case Some((k, e)) => s[..k] + TruncatedMarker + Truncate(s[e..])
      case None => [s[0]] + Truncate(s[1..])
  }

  /** No match begins anywhere in `s`. */
  predicate NoImage(s: string) {
    forall i :: 0 <= i < |s| ==> ImageMatch(s[i..]).None?
  }

  /* ---------------------------------------------------------------------------------- */
  /* Cells                                                                              */
  /* ---------------------------------------------------------------------------------- */

  datatype CellKind = Markdown | Code

  /** A kept cell: markdown has its newline runs collapsed, code its images truncated; both are stripped. */
  function CleanCell(kind: CellKind, cell: string): string {
    match kind
    case Markdown => Strip(Collapse(cell))
    case Code => Strip(Truncate(cell))
  }

  /** The list a loop builds: each cell that is not blank, cleaned, in order. */
  function Cleaned(kind: CellKind, cells: seq<string>): seq<string> {
    if cells == [] then []
    else if Strip(cells[0]) == [] then Cleaned(kind, cells[1..])
    else [CleanCell(kind, cells[0])] + Cleaned(kind, cells[1..])
  }

  /** `clean_notebook_content`: the markdown cells, then the code cells, each in one pass. */
  method CleanNotebookContent(content: Notebook) returns (cleaned: Notebook)
    ensures cleaned == Notebook(Cleaned(Markdown, content.markdown), Cleaned(Code, content.code))
  {
    var cleanedMd := CleanMarkdownCells(content.markdown);
    var cleanedCode := CleanCodeCells(content.code);
    return Notebook(cleanedMd, cleanedCode);
  }

  /** The markdown loop: every cell that is not blank has its newline runs collapsed and is stripped. */
  method CleanMarkdownCells(cells: seq<string>) returns (cleanedMd: seq<string>)
    ensures cleanedMd == Cleaned(Markdown, cells)
  {
    cleanedMd := [];
    var i := 0;
    while i < |cells|
      invariant i <= |cells|
      invariant cleanedMd == Cleaned(Markdown, cells[..i])
    {
      var cell := cells[i];
      if Strip(cell) != [] {
        var collapsed := Collapse(cell);
        cleanedMd := cleanedMd + [Strip(collapsed)];
      }
      CleanedSnoc(Markdown, cells[..i], cell);
      assert cells[..i + 1] == cells[..i] + [cell];
      i := i + 1;
    }
    assert cells[..i] == cells;
  }

  /** The code loop: every cell that is not blank has its inline image data truncated and is stripped. */
  method CleanCodeCells(cells: seq<string>) returns (cleanedCode: seq<string>)
    ensures cleanedCode == Cleaned(Code, cells)
  {
    cleanedCode := [];
    var i := 0;
    while i < |cells|
      invariant i <= |cells|
      invariant cleanedCode == Cleaned(Code, cells[..i])
    {
      var cell := cells[i];
      if Strip(cell) != [] {
        var truncated := Truncate(cell);
        cleanedCode := cleanedCode + [Strip(truncated)];
      }
      CleanedSnoc(Code, cells[..i], cell);
      assert cells[..i + 1] == cells[..i] + [cell];
      i := i + 1;
    }
    assert cells[..i] == cells;
  }

  /* ---------------------------------------------------------------------------------- */
  /* The cell lists                                                                     */
  /* ---------------------------------------------------------------------------------- */

  /** Cleaning works cell by cell: the cleaned concatenation is the concatenation of the cleaned parts. */
  lemma {:induction false} CleanedConcat(kind: CellKind, a: seq<string>, b: seq<string>)
    ensures Cleaned(kind, a + b) == Cleaned(kind, a) + Cleaned(kind, b)
  {
    if a != [] {
      assert (a + b)[0] == a[0] && (a + b)[1..] == a[1..] + b;
      CleanedConcat(kind, a[1..], b);
    } else {
      assert a + b == b;
    }
  }

  /** One cell: a blank cell is dropped, any other is cleaned. */
  lemma CleanedOne(kind: CellKind, cell: string)
    ensures Cleaned(kind, [cell]) == if AllSpace(cell) then [] else [CleanCell(kind, cell)]
  {
    StripEmpty(cell);
    assert [cell][1..] == [];
  }

  lemma CleanedSnoc(kind: CellKind, cells: seq<string>, cell: string)
    ensures Cleaned(kind, cells + [cell]) == Cleaned(kind, cells) + (if Strip(cell) == [] then [] else [CleanCell(kind, cell)])
  {
    CleanedConcat(kind, cells, [cell]);
    assert [cell][1..] == [];
  }

  /** The output list is never longer than the input. */
  lemma {:induction false} CleanedLength(kind: CellKind, cells: seq<string>)
    ensures |Cleaned(kind, cells)| <= |cells|
  {
    if cells != [] {
      CleanedLength(kind, cells[1..]);
    }
  }

  /** Without blank cells nothing is dropped: output cell `i` is input cell `i`, cleaned. */
  lemma {:induction false} CleanedNoBlank(kind: CellKind, cells: seq<string>)
    requires forall k :: 0 <= k < |cells| ==> Strip(cells[k]) != []
    ensures |Cleaned(kind, cells)| == |cells|
    ensures forall i :: 0 <= i < |cells| ==> Cleaned(kind, cells)[i] == CleanCell(kind, cells[i])
  {
    if cells != [] {
      CleanedNoBlank(kind, cells[1..]);
      var rest := Cleaned(kind, cells[1..]);
      assert Cleaned(kind, cells) == [CleanCell(kind, cells[0])] + rest;
      forall i | 1 <= i < |cells|
        ensures Cleaned(kind, cells)[i] == CleanCell(kind, cells[i])
      {
        ConsIndex(CleanCell(kind, cells[0]), rest, i);
        assert cells[1..][i - 1] == cells[i];
      }
    }
  }

  /** Every output cell is non-empty and stripped. */
  lemma {:induction false} CleanedCells(kind: CellKind, cells: seq<string>)
    ensures forall k :: 0 <= k < |Cleaned(kind, cells)| ==> Cleaned(kind, cells)[k] != [] && Stripped(Cleaned(kind, cells)[k])
  {
    if cells != [] {
      CleanedCells(kind, cells[1..]);
      if Strip(cells[0]) != [] {
        CleanCellNotBlank(kind, cells[0]);
        var rest := Cleaned(kind, cells[1..]);
        assert Cleaned(kind, cells) == [CleanCell(kind, cells[0])] + rest;
      }
    }
  }

  /** A cell that is not blank is not blank once cleaned. */
  lemma CleanCellNotBlank(kind: CellKind, cell: string)
    requires Strip(cell) != []
    ensures CleanCell(kind, cell) != []
  {
    StripEmpty(cell);
    match kind {
      case Markdown =>
        CollapseKeepsText(cell);
        StripEmpty(Collapse(cell));
      case Code =>
        TruncateKeepsText(cell);
        StripEmpty(Truncate(cell));
    }
  }

  /* ---------------------------------------------------------------------------------- */
  /* Markdown                                                                           */
  /* ---------------------------------------------------------------------------------- */

  /** A text with a character other than whitespace keeps one after collapsing. */
  lemma {:induction false} CollapseKeepsText(s: string)
    ensures AllSpace(Collapse(s)) ==> AllSpace(s)
    decreases |s|
  {
    if s != [] {
      if s[0] != '\n' {
        CollapseKeepsText(s[1..]);
        AllSpaceConcat([s[0]], Collapse(s[1..]));
        AllSpaceConcat([s[0]], s[1..]);
        assert [s[0]] + s[1..] == s;
      } else {
        var n := LeadingNewlines(s);
        var piece := if n >= 3 then "\n\n" else s[..n];
        CollapseKeepsText(s[n..]);
        AllSpaceConcat(piece, Collapse(s[n..]));
        AllSpaceConcat(s[..n], s[n..]);
        assert s[..n] + s[n..] == s;
      }
    }
  }

  /** A character other than `\n` in front of a text without three newlines in a row adds none. */
  lemma NoTripleCons(c: char, b: string)
    requires c != '\n' && NoTriple(b)
    ensures NoTriple([c] + b)
  {
    var s := [c] + b;
    forall i | 0 <= i && i + 2 < |s|
      ensures !TripleAt(s, i)
    {
      if i > 0 {
        assert !TripleAt(b, i - 1);
      }
    }
  }

  /** One or two newlines in front of a text that does not begin with one add no triple. */
  lemma NoTripleBreak(a: string, b: string)
    requires |a| <= 2 && (forall k :: 0 <= k < |a| ==> a[k] == '\n')
    requires NoTriple(b) && (b == [] || b[0] != '\n')
    ensures NoTriple(a + b)
  {
    var s := a + b;
    forall i | 0 <= i && i + 2 < |s|
      ensures !TripleAt(s, i)
    {
      if i >= |a| {
        assert !TripleAt(b, i - |a|);
      } else {
        assert s[|a|] == b[0];
      }
    }
  }

  /** A collapsed text that is not empty begins as the text does, unless with a newline. */
  lemma CollapseHead(s: string)
    requires s != [] && s[0] != '\n'
    ensures Collapse(s) != [] && Collapse(s)[0] == s[0]
  {
  }

  /** No three newlines in a row are left after collapsing. */
  lemma {:induction false} CollapseNoTriple(s: string)
    ensures NoTriple(Collapse(s))
    decreases |s|
  {
    if s != [] {
      if s[0] != '\n' {
        CollapseNoTriple(s[1..]);
        NoTripleCons(s[0], Collapse(s[1..]));
      } else {
        var n := LeadingNewlines(s);
        var piece := if n >= 3 then "\n\n" else s[..n];
        CollapseNoTriple(s[n..]);
        if n < |s| {
          CollapseHead(s[n..]);
        }
        NoTripleBreak(piece, Collapse(s[n..]));
      }
    }
  }

  /** A text without three newlines in a row is left as it is. */
  lemma {:induction false} CollapseQuiet(s: string)
    requires NoTriple(s)
    ensures Collapse(s) == s
    decreases |s|
  {
    if s != [] {
      if s[0] != '\n' {
        NoTripleTail(s, 1);
        CollapseQuiet(s[1..]);
        assert [s[0]] + s[1..] == s;
      } else {
        var n := LeadingNewlines(s);
        assert n < 3 by {
          if n >= 3 {
            assert TripleAt(s, 0);
          }
        }
        NoTripleTail(s, n);
        CollapseQuiet(s[n..]);
        assert s[..n] + s[n..] == s;
      }
    }
  }

  /** A tail of a text without three newlines in a row has none either. */
  lemma NoTripleTail(s: string, n: nat)
    requires n <= |s| && NoTriple(s)
    ensures NoTriple(s[n..])
  {
    var t := s[n..];
    forall i | 0 <= i && i + 2 < |t|
      ensures !TripleAt(t, i)
    {
      assert !TripleAt(s, i + n);
    }
  }

  /** Stripping cannot make three newlines in a row. */
  lemma StripNoTriple(s: string)
    requires NoTriple(s)
    ensures NoTriple(Strip(s))
  {
    var lo := StripInfix(s);
    var t := Strip(s);
    forall i | 0 <= i && i + 2 < |t|
      ensures !TripleAt(t, i)
    {
      assert t[i] == s[lo + i] && t[i + 1] == s[lo + i + 1] && t[i + 2] == s[lo + i + 2];
      assert !TripleAt(s, lo + i);
    }
  }

  /** A cleaned markdown cell never holds three newlines in a row. */
  lemma MarkdownNoTriple(cell: string)
    ensures NoTriple(CleanCell(Markdown, cell))
  {
    CollapseNoTriple(cell);
    StripNoTriple(Collapse(cell));
  }

  /** Collapsing works piece by piece when the first piece does not end with a newline. */
  lemma {:induction false} CollapseConcat(a: string, b: string)
    requires a == [] || a[|a| - 1] != '\n'
    ensures Collapse(a + b) == Collapse(a) + Collapse(b)
    decreases |a|
  {
    var s := a + b;
    if a == [] {
      assert s == b;
    } else if a[0] != '\n' {
      assert s[0] == a[0] && s[1..] == a[1..] + b;
      CollapseConcat(a[1..], b);
      Regroup([a[0]], Collapse(a[1..]), Collapse(b));
    } else {
      var n := LeadingNewlines(a);
      assert n < |a|;
      assert LeadingNewlines(s) == n by {
        assert forall k :: 0 <= k <= n ==> s[k] == a[k];
      }
      assert s[..n] == a[..n] && s[n..] == a[n..] + b;
      CollapseConcat(a[n..], b);
      Regroup(if n >= 3 then "\n\n" else a[..n], Collapse(a[n..]), Collapse(b));
    }
  }

  /** `n` newlines */
  function Newlines(n: nat): (s: string)
    ensures |s| == n && forall k :: 0 <= k < n ==> s[k] == '\n'
  {
    seq(n, _ => '\n')
  }

  /** The newlines at the head of a text are the run put there. */
  lemma RunLength(x: string, b: string)
    requires (forall k :: 0 <= k < |x| ==> x[k] == '\n') && (b == [] || b[0] != '\n')
    ensures LeadingNewlines(x + b) == |x|
  {
    var s := x + b;
    var n := LeadingNewlines(s);
    assert |x| < |s| ==> s[|x|] == b[0];
  }

  /**
   * A run of three or more newlines between two other characters becomes exactly two, and
   * the text on each side is collapsed on its own.
   */
  lemma RunCollapsed(a: string, n: nat, b: string)
    requires a == [] || a[|a| - 1] != '\n'
    requires n >= 3 && (b == [] || b[0] != '\n')
    ensures Collapse(a + Newlines(n) + b) == Collapse(a) + "\n\n" + Collapse(b)
  {
    var t := Newlines(n) + b;
    Regroup(a, Newlines(n), b);
    CollapseConcat(a, t);
    RunLength(Newlines(n), b);
    assert t[n..] == b;
    Regroup(Collapse(a), "\n\n", Collapse(b));
  }

  /** Cleaning a markdown cell a second time changes nothing. */
  lemma MarkdownIdempotent(cell: string)
    ensures CleanCell(Markdown, CleanCell(Markdown, cell)) == CleanCell(Markdown, cell)
  {
    MarkdownNoTriple(cell);
    CollapseQuiet(CleanCell(Markdown, cell));
    StripIdempotent(Collapse(cell));
  }

  /** Cleaning the markdown cells a second time changes nothing. */
  lemma {:induction false} CleanedMarkdownIdempotent(cells: seq<string>)
    ensures Cleaned(Markdown, Cleaned(Markdown, cells)) == Cleaned(Markdown, cells)
  {
    if cells != [] {
      var rest := Cleaned(Markdown, cells[1..]);
      CleanedMarkdownIdempotent(cells[1..]);
      if Strip(cells[0]) != [] {
        var c := CleanCell(Markdown, cells[0]);
        var r := [c] + rest;
        assert Cleaned(Markdown, cells) == r;
        CleanCellNotBlank(Markdown, cells[0]);
        StripOfStripped(c);
        MarkdownIdempotent(cells[0]);
        assert r[0] == c && r[1..] == rest;
      }
    }
  }

  /** Markdown is never truncated: a markdown cell without three newlines in a row is only stripped, image data and all. */
  lemma MarkdownNotTruncated(cell: string)
    requires NoTriple(cell)
    ensures CleanCell(Markdown, cell) == Strip(cell)
  {
    CollapseQuiet(cell);
  }

  /* ---------------------------------------------------------------------------------- */
  /* Code                                                                               */
  /* ---------------------------------------------------------------------------------- */

  /** A text with a character other than whitespace keeps one after truncation. */
  lemma {:induction false} TruncateKeepsText(s: string)
    ensures AllSpace(Truncate(s)) ==> AllSpace(s)
    decreases |s|
  {
    if s != [] {
      match ImageMatch(s)
      case Some((k, e)) =>
        assert Truncate(s)[0] == s[0] == 'd' by {
          MatchesSlice(s, ImagePrefix, 0);
          assert s[..|ImagePrefix|][0] == s[0];
        }
      case None =>
        TruncateKeepsText(s[1..]);
        AllSpaceConcat([s[0]], Truncate(s[1..]));
        AllSpaceConcat([s[0]], s[1..]);
        assert [s[0]] + s[1..] == s;
    }
  }

  /** A text in which no match begins is left as it is. */
  lemma {:induction false} TruncateQuiet(s: string)
    requires NoImage(s)
    ensures Truncate(s) == s
    decreases |s|
  {
    if s != [] {
      assert ImageMatch(s[0..]).None?;
      assert s[0..] == s;
      assert NoImage(s[1..]) by {
        forall i | 0 <= i < |s[1..]|
          ensures ImageMatch(s[1..][i..]).None?
        {
          assert s[1..][i..] == s[i + 1..];
        }
      }
      TruncateQuiet(s[1..]);
      assert [s[0]] + s[1..] == s;
    }
  }

  /** A text begins with itself. */
  lemma PrefixMatches(x: string, y: string)
    ensures MatchesAt(x + y, x, 0)
  {
    MatchesSlice(x + y, x, 0);
    assert (x + y)[..|x|] == x;
  }

  /** A text is found where it was put. */
  lemma InfixMatches(a: string, y: string, z: string)
    ensures MatchesAt(a + (y + z), y, |a|)
  {
    MatchesSlice(a + (y + z), y, |a|);
    assert (a + (y + z))[|a|..|a| + |y|] == y;
  }

  /** Searching past `x` for `c` stops at the first character after `t` when `t` has no `c`. */
  lemma FindPast(x: string, t: string, y: string, c: char)
    requires c !in t && y != [] && y[0] == c
    ensures Find(x + (t + y), c, |x|) == |x| + |t|
  {
    var s := x + (t + y);
    assert forall q :: |x| <= q < |x| + |t| ==> s[q] == t[q - |x|];
    assert s[|x| + |t|] == c;
  }

  /** The payload run after `a` ends where the payload does when the rest does not go on with it. */
  lemma PayloadEndAfter(a: string, payload: string, rest: string)
    requires forall q :: 0 <= q < |payload| ==> Base64Char(payload[q])
    requires rest == [] || !Base64Char(rest[0])
    ensures PayloadEnd(a + (payload + rest), |a|) == |a| + |payload|
  {
    var s := a + (payload + rest);
    var e := |a| + |payload|;
    assert forall q :: |a| <= q < e ==> s[q] == payload[q - |a|];
    assert e < |s| ==> s[e] == rest[0];
  }

  /** The group matches at the head of `s` once each of its parts is found in place. */
  lemma GroupEndAt(s: string, prefix: string, tag: string, j: nat)
    requires |s| >= |prefix| && MatchesAt(s, prefix, 0)
    requires Find(s, ';', |prefix|) == j > |prefix|
    requires j + |tag| <= |s| && MatchesAt(s, tag, j)
    ensures GroupEndOf(s, prefix, tag) == Some(j + |tag|)
  {
  }

  /** After `prefix`, a non-empty text without `;` and a `tag` beginning with `;`, the group ends after the tag. */
  lemma GroupOfParts(prefix: string, t: string, tag: string, tail: string)
    requires t != [] && ';' !in t && tag != [] && tag[0] == ';'
    ensures GroupEndOf(prefix + t + tag + tail, prefix, tag) == Some(|prefix| + |t| + |tag|)
  {
    var s := prefix + t + tag + tail;
    Regroup(prefix + t, tag, tail);
    Regroup(prefix, t, tag + tail);
    PrefixMatches(prefix, t + (tag + tail));
    FindPast(prefix, t, tag + tail, ';');
    InfixMatches(prefix + t, tag, tail);
    GroupEndAt(s, prefix, tag, |prefix| + |t|);
  }

  /**
   * An image with a type, `;base64,` and a payload of at least 100 characters, taken
   * whole, keeps its prefix and gets the marker in place of the payload; the rest of the
   * text is truncated on its own.
   */
  lemma ImageTruncated(t: string, payload: string, rest: string)
    requires t != [] && ';' !in t
    requires |payload| >= MinPayload && forall q :: 0 <= q < |payload| ==> Base64Char(payload[q])
    requires rest == [] || !Base64Char(rest[0])
    ensures Truncate(ImagePrefix + t + Base64Tag + payload + rest)
      == ImagePrefix + t + Base64Tag + TruncatedMarker + Truncate(rest)
  {
    var s := ImagePrefix + t + Base64Tag + payload + rest;
    var head := ImagePrefix + t + Base64Tag;
    Regroup(head, payload, rest);
    GroupOfParts(ImagePrefix, t, Base64Tag, payload + rest);
    PayloadEndAfter(head, payload, rest);
    var k := |head|;
    var e := k + |payload|;
    TruncateAtMatch(s, k, e);
    assert s[..k] == head && s[e..] == rest;
  }

  /** A match at the head is replaced, and the scan goes on after it. */
  lemma TruncateAtMatch(s: string, k: nat, e: nat)
    requires GroupEnd(s) == Some(k) && k <= e == PayloadEnd(s, k) && e - k >= MinPayload
    ensures Truncate(s) == s[..k] + TruncatedMarker + Truncate(s[e..])
  {
    assert ImageMatch(s) == Some((k, e));
  }

  /** Code is never collapsed: a code cell in which no image match begins is only stripped, newline runs and all. */
  lemma CodeNotCollapsed(cell: string)
    requires NoImage(cell)
    ensures CleanCell(Code, cell) == Strip(cell)
  {
    TruncateQuiet(cell);
  }
}
