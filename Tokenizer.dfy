/**
 * The top-level comma splitter shared by the decoder and the validator
 * (`ToonDecoder._split_top_level_commas`). It walks the text once, tracking a quote
 * flag, an escape flag and a stack of open brackets, and cuts at commas that are
 * outside quotes with an empty stack. Each piece is whitespace-stripped. It never fails:
 * unbalanced quotes or brackets simply leave the scan in a residual state.
 */
module ToonTokenizer {
  import opened Strings

  /**
   * The scanner's state. The source keeps a stack of the opening characters, but only
   * ever asks whether it is empty and pops whatever is on top, so its size is all that
   * is kept here.
   */
  datatype ScanState = ScanState(depth: nat, inQuotes: bool, esc: bool)

  const Initial := ScanState(0, false, false)

  /** The state after one character of the scan. */
  function Next(st: ScanState, ch: char): ScanState {
    if st.esc then st.(esc := false)
    else if ch == '\\' then st.(esc := true)
    else if ch == '"' then st.(inQuotes := !st.inQuotes)
    else if st.inQuotes then st
    else if ch == '[' || ch == '{' then st.(depth := st.depth + 1)
    else if ch == ']' || ch == '}' then st.(depth := if st.depth > 0 then st.depth - 1 else 0)
    else st
  }

  /** The character is a cut: a comma outside quotes, not escaped, with nothing open. */
  predicate IsCut(st: ScanState, ch: char) {
    ch == ',' && !st.esc && !st.inQuotes && st.depth == 0
  }

  /**
   * The raw (unstripped) pieces produced from the remaining text `rest`, in state `st`,
   * when `cur` is the text of the piece begun so far. A final piece is produced only
   * when it is non-empty, so a trailing cut or an empty input gives no final piece.
   */
  function Pieces(st: ScanState, rest: string, cur: string): seq<string>
    decreases |rest|
  {
    if rest == [] then (if cur == [] then [] else [cur])
    else
      if IsCut(st, rest[0]) then [cur] + Pieces(Next(st, rest[0]), rest[1..], [])
      else Pieces(Next(st, rest[0]), rest[1..], cur + [rest[0]])
  }

  /** `strip()` applied to every piece. */
  function StripAll(ps: seq<string>): (r: seq<string>)
    ensures |r| == |ps|
    decreases |ps|
  {
    if ps == [] then [] else StripAll(ps[..|ps| - 1]) + [Strip(ps[|ps| - 1])]
  }

  lemma {:induction false} StripAllAt(ps: seq<string>)
    ensures forall k :: 0 <= k < |ps| ==> StripAll(ps)[k] == Strip(ps[k])
    decreases |ps|
  {
    if ps != [] {
      StripAllAt(ps[..|ps| - 1]);
    }
  }

  /** The pieces of `text`: every piece is stripped and no longer than the text. */
  function SplitTopLevel(text: string): seq<string> {
    StripAll(Pieces(Initial, text, []))
  }

  lemma SplitTopLevelStripped(text: string)
    ensures forall k :: 0 <= k < |SplitTopLevel(text)| ==> Stripped(SplitTopLevel(text)[k]) && |SplitTopLevel(text)[k]| <= |text|
  {
    var raw := Pieces(Initial, text, []);
    PiecesBound(Initial, text, []);
    StripAllAt(raw);
    forall k | 0 <= k < |raw|
      ensures |StripAll(raw)[k]| <= |text|
    {
      assert raw[k] in raw;
    }
  }

  lemma {:induction false} PiecesBound(st: ScanState, rest: string, cur: string)
    ensures forall p :: p in Pieces(st, rest, cur) ==> |p| <= |cur| + |rest|
    decreases |rest|
  {
    if rest != [] {
      if IsCut(st, rest[0]) {
        PiecesBound(Next(st, rest[0]), rest[1..], []);
      } else {
        PiecesBound(Next(st, rest[0]), rest[1..], cur + [rest[0]]);
      }
    }
  }

  /**
   * The scan as the source writes it: one pass over the text, the state updated by
   * `Next` character by character, a stripped piece cut off at each top-level comma and
   * the remainder, when non-empty, kept as the last piece.
   */
  method SplitTopLevelCommas(text: string) returns (pieces: seq<string>)
    ensures pieces == SplitTopLevel(text)
  {
    pieces := [];
    var st := Initial;
    var start := 0;
    var i := 0;
    while i < |text|
      invariant i <= |text|
      invariant st == After(text, i).st && start == After(text, i).start
      invariant pieces == StripAll(After(text, i).cuts)
    {
      var ch := text[i];
      if IsCut(st, ch) {
        pieces := pieces + [Strip(text[start..i])];
        start := i + 1;
      }
      st := Next(st, ch);
      i := i + 1;
    }
    ghost var tail := if start < |text| then [text[start..]] else [];
    if start < |text| {
      pieces := pieces + [Strip(text[start..])];
    }
    assert After(text, |text|).cuts + tail == ScanFrom(text, Initial, 0, 0) by {
      AfterThenScan(text, |text|);
    }
    if start < |text| {
      assert (After(text, |text|).cuts + tail)[..|After(text, |text|).cuts|] == After(text, |text|).cuts;
    } else {
      assert After(text, |text|).cuts + tail == After(text, |text|).cuts;
    }
    ScanFromPieces(text, Initial, 0, 0);
  }

  /** What the scan has done after `i` characters: its state, where the current piece began, the raw pieces cut so far. */
  datatype Progress = Progress(st: ScanState, start: nat, cuts: seq<string>)

  ghost function After(text: string, i: nat): (r: Progress)
    requires i <= |text|
    ensures r.start <= i
    decreases i
  {
    if i == 0 then Progress(Initial, 0, [])
    else
      var p := After(text, i - 1);
      var ch := text[i - 1];
      if IsCut(p.st, ch) then Progress(Next(p.st, ch), i, p.cuts + [text[p.start..i - 1]])
      else Progress(Next(p.st, ch), p.start, p.cuts)
  }

  /**
   * The scan over `text` from index `i` in state `st`, the current piece having begun at
   * `start`: the raw pieces still to come.
   */
  ghost function ScanFrom(text: string, st: ScanState, start: nat, i: nat): seq<string>
    requires start <= i <= |text|
    decreases |text| - i
  {
    if i == |text| then (if start < |text| then [text[start..]] else [])
    else if IsCut(st, text[i]) then [text[start..i]] + ScanFrom(text, Next(st, text[i]), i + 1, i + 1)
    else ScanFrom(text, Next(st, text[i]), start, i + 1)
  }

  /** The pieces cut in the first `i` characters followed by those still to come are all of them. */
  lemma {:induction false} AfterThenScan(text: string, i: nat)
    requires i <= |text|
    ensures After(text, i).cuts + ScanFrom(text, After(text, i).st, After(text, i).start, i) == ScanFrom(text, Initial, 0, 0)
    decreases i
  {
    if i == 0 {
      assert [] + ScanFrom(text, Initial, 0, 0) == ScanFrom(text, Initial, 0, 0);
    } else {
      AfterThenScan(text, i - 1);
      var p := After(text, i - 1);
      var ch := text[i - 1];
      if IsCut(p.st, ch) {
        var later := ScanFrom(text, Next(p.st, ch), i, i);
        assert p.cuts + ([text[p.start..i - 1]] + later) == (p.cuts + [text[p.start..i - 1]]) + later;
      }
    }
  }

  /** The index-based scan and the one over the remaining text agree. */
  lemma {:induction false} ScanFromPieces(text: string, st: ScanState, start: nat, i: nat)
    requires start <= i <= |text|
    ensures ScanFrom(text, st, start, i) == Pieces(st, text[i..], text[start..i])
    decreases |text| - i
  {
    if i == |text| {
      assert text[i..] == [] && text[start..i] == text[start..];
    } else {
      assert text[i..][0] == text[i] && text[i..][1..] == text[i + 1..];
      assert text[start..i] + [text[i]] == text[start..i + 1];
      assert text[i + 1..i + 1] == [];
      if IsCut(st, text[i]) {
        ScanFromPieces(text, Next(st, text[i]), i + 1, i + 1);
      } else {
        ScanFromPieces(text, Next(st, text[i]), start, i + 1);
      }
    }
  }

  /** The state after scanning all of `s` from `st`. */
  function Run(st: ScanState, s: string): ScanState
    decreases |s|
  {
    if s == [] then st else Run(Next(st, s[0]), s[1..])
  }

  /** Scanning `s` from `st` meets no cut. */
  predicate NoCut(st: ScanState, s: string)
    decreases |s|
  {
    s == [] || (!IsCut(st, s[0]) && NoCut(Next(st, s[0]), s[1..]))
  }

  /** `s` holds no top-level comma and leaves the scanner where it started. */
  predicate Neutral(s: string) {
    NoCut(Initial, s) && Run(Initial, s) == Initial
  }

  lemma {:induction false} RunConcat(st: ScanState, a: string, b: string)
    ensures Run(st, a + b) == Run(Run(st, a), b)
    ensures NoCut(st, a + b) <==> NoCut(st, a) && NoCut(Run(st, a), b)
    decreases |a|
  {
    if a != [] {
      assert (a + b)[0] == a[0] && (a + b)[1..] == a[1..] + b;
      RunConcat(Next(st, a[0]), a[1..], b);
    } else {
      assert a + b == b;
    }
  }

  lemma NeutralConcat(a: string, b: string)
    requires Neutral(a) && Neutral(b)
    ensures Neutral(a + b)
  {
    RunConcat(Initial, a, b);
  }

  /** A character the scanner passes over without any effect, inside or outside quotes. */
  predicate Plain(c: char) {
    c != '\\' && c != '"' && c != '[' && c != ']' && c != '{' && c != '}' && c != ','
  }

  /** Text made of plain characters is neutral. */
  lemma {:induction false} PlainNeutral(s: string)
    requires forall i :: 0 <= i < |s| ==> Plain(s[i])
    ensures Neutral(s)
  {
    if s != [] {
      PlainNeutral(s[1..]);
    }
  }

  /** Inside quotes everything but a backslash or a quote is inert. */
  lemma {:induction false} InQuotesRun(s: string)
    requires forall i :: 0 <= i < |s| ==> s[i] != '\\' && s[i] != '"'
    ensures Run(ScanState(0, true, false), s) == ScanState(0, true, false)
    ensures NoCut(ScanState(0, true, false), s)
  {
    if s != [] {
      InQuotesRun(s[1..]);
    }
  }

  /** A quoted text with no quote or backslash inside is neutral, whatever it contains. */
  lemma QuotedNeutral(s: string)
    requires forall i :: 0 <= i < |s| ==> s[i] != '\\' && s[i] != '"'
    ensures Neutral("\"" + s + "\"")
  {
    var q := ScanState(0, true, false);
    InQuotesRun(s);
    RunConcat(q, s, "\"");
    assert ("\"" + s + "\"")[1..] == s + "\"";
  }

  /** Going over text that meets no cut just extends the current piece. */
  lemma {:induction false} PiecesNoCut(st: ScanState, a: string, rest: string, cur: string)
    requires NoCut(st, a)
    ensures Pieces(st, a + rest, cur) == Pieces(Run(st, a), rest, cur + a)
    decreases |a|
  {
    if a != [] {
      assert (a + rest)[0] == a[0] && (a + rest)[1..] == a[1..] + rest;
      PiecesNoCut(Next(st, a[0]), a[1..], rest, cur + [a[0]]);
      assert cur + [a[0]] + a[1..] == cur + a;
    } else {
      assert a + rest == rest && cur + a == cur;
    }
  }

  /** A neutral text is one piece: itself, stripped, or none when it is empty. */
  lemma NeutralOnePiece(s: string)
    requires Neutral(s)
    ensures SplitTopLevel(s) == if s == [] then [] else [Strip(s)]
  {
    PiecesNoCut(Initial, s, [], []);
    assert s + [] == s && [] + s == s;
  }

  /** A trailing top-level comma produces no final empty piece. */
  lemma TrailingComma(s: string)
    requires Neutral(s)
    ensures SplitTopLevel(s + ",") == [Strip(s)]
  {
    PiecesNoCut(Initial, s, ",", []);
    assert [] + s == s;
    assert Pieces(Initial, ",", s) == [s] + Pieces(Initial, [], []);
  }

  /** Whitespace is neutral. */
  lemma SpaceNeutral(w: string)
    requires AllSpace(w)
    ensures Neutral(w)
  {
    PlainNeutral(w);
  }

  /** One piece and its separator: `p` is cut off and the separator's spaces begin the next piece. */
  lemma PiecesSeparator(p: string, w: string, rest: string, cur: string)
    requires Neutral(p) && AllSpace(w)
    ensures Pieces(Initial, p + ([','] + (w + rest)), cur) == [cur + p] + Pieces(Initial, rest, w)
  {
    PiecesNoCut(Initial, p, [','] + (w + rest), cur);
    assert ([','] + (w + rest))[0] == ',' && ([','] + (w + rest))[1..] == w + rest;
    SpaceNeutral(w);
    PiecesNoCut(Initial, w, rest, []);
    assert [] + w == w;
  }

  /** The raw pieces of joined neutral texts: each one, preceded by the separator's spaces after the first. */
  lemma {:induction false} PiecesJoin(ps: seq<string>, w: string, cur: string)
    requires |ps| >= 1 && ps[|ps| - 1] != []
    requires forall k :: 0 <= k < |ps| ==> Neutral(ps[k])
    requires AllSpace(w)
    ensures |Pieces(Initial, Join(ps, [','] + w), cur)| == |ps|
    ensures forall k :: 0 <= k < |ps| ==> Pieces(Initial, Join(ps, [','] + w), cur)[k] == (if k == 0 then cur else w) + ps[k]
  {
    var p := ps[0];
    if |ps| == 1 {
      PiecesNoCut(Initial, p, [], cur);
      assert p + [] == p;
    } else {
      var rest := Join(ps[1..], [','] + w);
      assert Join(ps, [','] + w) == p + ([','] + (w + rest));
      PiecesSeparator(p, w, rest, cur);
      PiecesJoin(ps[1..], w, w);
    }
  }

  /** Whitespace before a stripped text is what `strip()` removes. */
  lemma StripPrefixed(pre: string, p: string)
    requires AllSpace(pre) && Stripped(p)
    ensures Strip(pre + p) == p
  {
    StripSpaceAround(pre, p, []);
    assert pre + p + [] == pre + p;
  }

  /**
   * Joining neutral, stripped pieces with a comma (and optional spaces) and splitting
   * again gives the pieces back, provided the last one is non-empty.
   */
  lemma SplitJoin(ps: seq<string>, w: string)
    requires |ps| >= 1 && ps[|ps| - 1] != []
    requires forall k :: 0 <= k < |ps| ==> Neutral(ps[k]) && Stripped(ps[k])
    requires AllSpace(w)
    ensures SplitTopLevel(Join(ps, [','] + w)) == ps
  {
    var raw := Pieces(Initial, Join(ps, [','] + w), []);
    PiecesJoin(ps, w, []);
    StripAllAt(raw);
    forall k | 0 <= k < |ps|
      ensures StripAll(raw)[k] == ps[k]
    {
      if k == 0 {
        StripPrefixed([], ps[k]);
      } else {
        StripPrefixed(w, ps[k]);
      }
    }
  }

  /** A backslash outside quotes makes the next character inert, even a comma. */
  lemma EscapedNeutral(c: char)
    ensures Neutral(['\\', c])
  {
    var s := ['\\', c];
    assert s[1..] == [c] && s[1..][1..] == [];
    assert Next(Initial, '\\') == ScanState(0, false, true);
    assert Run(Initial, s) == Run(ScanState(0, false, true), [c]) == Run(Initial, []);
    assert NoCut(ScanState(0, false, true), [c]);
  }

  /** An escaped comma is not a cut. */
  lemma EscapedComma()
    ensures SplitTopLevel("a\\,b") == ["a\\,b"]
  {
    EscapedNeutral(',');
    PlainNeutral("a");
    PlainNeutral("b");
    NeutralConcat("a", "\\,");
    NeutralConcat("a\\,", "b");
    assert "a" + "\\," + "b" == "a\\,b";
    NeutralOnePiece("a\\,b");
    StripOfStripped("a\\,b");
  }

  /** A closer with nothing open is ignored: it leaves the scanner where it was. */
  lemma CloserNeutral(c: char)
    requires c == ']' || c == '}'
    ensures Neutral([c])
  {
    assert [c][1..] == [];
  }

  /** Inside one open bracket, plain characters and commas change nothing and are never cuts. */
  lemma {:induction false} OpenRun(s: string)
    requires forall i :: 0 <= i < |s| ==> Plain(s[i]) || s[i] == ','
    ensures Run(ScanState(1, false, false), s) == ScanState(1, false, false)
    ensures NoCut(ScanState(1, false, false), s)
  {
    if s != [] {
      OpenRun(s[1..]);
    }
  }

  /** Commas inside `[...]` or `{...}` are not cuts: the bracketed text is neutral. */
  lemma BracketedNeutral(s: string)
    requires forall i :: 0 <= i < |s| ==> Plain(s[i]) || s[i] == ','
    ensures Neutral("[" + s + "]") && Neutral("{" + s + "}")
  {
    var o := ScanState(1, false, false);
    OpenRun(s);
    RunConcat(o, s, "]");
    RunConcat(o, s, "}");
    assert ("[" + s + "]")[1..] == s + "]";
    assert ("{" + s + "}")[1..] == s + "}";
  }

  /** A comma inside brackets is not a cut: `[a,b],c` is two pieces. */
  lemma BracketedComma()
    ensures SplitTopLevel("[a,b],c") == ["[a,b]", "c"]
  {
    BracketedNeutral("a,b");
    PlainNeutral("c");
    assert "[" + "a,b" + "]" == "[a,b]";
    assert Join(["[a,b]", "c"], [','] + []) == "[a,b],c";
    SplitJoin(["[a,b]", "c"], []);
  }

  /** A closer with nothing open is ignored and does not hide the next comma. */
  lemma StrayCloser()
    ensures SplitTopLevel("],x") == ["]", "x"]
  {
    CloserNeutral(']');
    PlainNeutral("x");
    assert Join(["]", "x"], [','] + []) == "],x";
    SplitJoin(["]", "x"], []);
  }
}
