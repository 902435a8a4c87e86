/**
 * The block layer of the TOON decoder: `ToonDecoder.decode`. After stripping the text,
 * a bracketed text is one inline list; otherwise every line of the form
 * `[name]{col,col,...}` is a header, and the lines after a header (up to the next header)
 * are its rows. A lone anonymous header gives a dict (one row) or a list of dicts; any
 * other set of headers gives a dict from header name to block.
 */
module ToonDecoder {
  import opened Wrappers
  import opened Strings
  import opened ToonValue
  import opened ToonTokenizer
  import opened ToonScalar

  /* ---------------------------------------------------------------------------------- */
  /* Header lines                                                                       */
  /* ---------------------------------------------------------------------------------- */

  /** `[A-Za-z0-9_]` */
  predicate WordChar(c: char) {
    ('A' <= c <= 'Z') || ('a' <= c <= 'z') || ('0' <= c <= '9') || c == '_'
  }

  predicate AllWord(s: string) {
    forall k :: 0 <= k < |s| ==> WordChar(s[k])
  }

  predicate NoCloser(s: string) {
    forall k :: 0 <= k < |s| ==> s[k] != '}'
  }

  /** The two groups of a header line; an empty name stands for the group that did not take part. */
  datatype HeaderLine = HeaderLine(name: string, cols: string)

  /**
   * Whether a whole line matches `([A-Za-z0-9_]+)?\{([^}]+)\}`. A name character is never
   * `{`, so the name, when there is one, runs exactly up to the first `{`.
   */
  function MatchHeader(line: string): (r: Option<HeaderLine>)
    ensures r.Some? ==> line == r.value.name + "{" + r.value.cols + "}"
    ensures r.Some? ==> AllWord(r.value.name) && r.value.cols != [] && NoCloser(r.value.cols)
  {
    var j := Find(line, '{', 0);
    if j < |line| && AllWord(line[..j]) && j + 2 < |line| && line[|line| - 1] == '}'
       && NoCloser(line[j + 1..|line| - 1])
    then
      var h := HeaderLine(line[..j], line[j + 1..|line| - 1]);
      assert line == h.name + "{" + h.cols + "}";
      Some(h)
    else None
  }

  /** Every line of that shape is a header, and its groups are read back exactly. */
  lemma HeaderMatches(name: string, cols: string)
    requires AllWord(name) && cols != [] && NoCloser(cols)
    ensures MatchHeader(name + "{" + cols + "}") == Some(HeaderLine(name, cols))
  {
    var line := name + "{" + cols + "}";
    assert forall k :: 0 <= k < |name| ==> line[k] == name[k] && line[k] != '{';
    assert line[|name|] == '{';
    var j := Find(line, '{', 0);
    assert j == |name|;
    assert line[..j] == name;
    assert line[j + 1..|line| - 1] == cols;
  }

  /** Columns in braces with nothing before them make an anonymous header. */
  lemma AnonymousHeader(cols: string)
    requires cols != [] && NoCloser(cols)
    ensures MatchHeader("{" + cols + "}") == Some(HeaderLine([], cols))
  {
    var line := "{" + cols + "}";
    assert line[0] == '{';
    assert line[1..|line| - 1] == cols;
  }

  /** A line with a non-name character before any `{` is not a header. */
  lemma NotHeader(line: string, k: nat)
    requires k < |line| && !WordChar(line[k])
    requires forall q :: 0 <= q <= k ==> line[q] != '{'
    ensures MatchHeader(line).None?
  {
    var j := Find(line, '{', 0);
    if j < |line| {
      assert k < j && line[..j][k] == line[k];
    }
  }

  /** A line without `{` is not a header. */
  lemma NoBraceNotHeader(line: string)
    requires forall q :: 0 <= q < |line| ==> line[q] != '{'
    ensures MatchHeader(line).None?
  {
  }

  /**
   * One match of the header pattern under `re.MULTILINE`: `start` and `end` delimit the
   * matched line (`m.start()`, `m.end()`).
   */
  datatype HeaderMatch = HeaderMatch(start: nat, end: nat, name: string, cols: string)

  /**
   * The matches among `lines`, the first of which starts at `offset`. Under `re.MULTILINE`,
   * `^` and `$` sit at the ends of the text and next to every `\n`, so the pattern matches
   * each `\n`-separated line as a whole or not at all.
   */
  function HeadersIn(lines: seq<string>, offset: nat): seq<HeaderMatch>
    decreases |lines|
  {
    if lines == [] then []
    else
      var rest := HeadersIn(lines[1..], offset + |lines[0]| + 1);
      match MatchHeader(lines[0])
      case Some(h) => [HeaderMatch(offset, offset + |lines[0]|, h.name, h.cols)] + rest
      case None => rest
  }

  /** `list(header_re.finditer(text))` */
  function Headers(text: string): seq<HeaderMatch> {
    HeadersIn(SplitOn(text, '\n'), 0)
  }

  /** Lines none of which is a header give no match. */
  lemma {:induction false} NoHeaderLines(lines: seq<string>, offset: nat)
    requires forall k :: 0 <= k < |lines| ==> MatchHeader(lines[k]).None?
    ensures HeadersIn(lines, offset) == []
    decreases |lines|
  {
    if lines != [] {
      NoHeaderLines(lines[1..], offset + |lines[0]| + 1);
    }
  }

  /** The line at `pos` is `row` when the text there is `row`, then nothing or a `\n`. */
  lemma LineAt(text: string, pos: nat, row: string, tail: string)
    requires pos <= |text| && text[pos..] == row + tail
    requires tail == [] || tail[0] == '\n'
    ensures pos + |row| <= |text| && text[pos..pos + |row|] == row
    ensures tail != [] ==> text[pos + |row|] == '\n' && text[pos + |row| + 1..] == tail[1..]
  {
    assert text[pos..pos + |row|] == text[pos..][..|row|];
    if tail != [] {
      assert text[pos + |row|] == text[pos..][|row|];
      assert text[pos + |row| + 1..] == text[pos..][|row| + 1..];
    }
  }

  /** The match the first of `lines` makes, if it is a header. */
  function FirstMatch(lines: seq<string>, offset: nat): (m: Option<HeaderMatch>)
    requires lines != []
    ensures HeadersIn(lines, offset)
      == (if m.Some? then [m.value] else []) + HeadersIn(lines[1..], offset + |lines[0]| + 1)
  {
    match MatchHeader(lines[0])
    case Some(h) => Some(HeaderMatch(offset, offset + |lines[0]|, h.name, h.cols))
    case None => None
  }

  /** The text after the first of `lines` is the rest of them, joined. */
  lemma FirstLine(lines: seq<string>, offset: nat, text: string)
    requires offset <= |text| && text[offset..] == Join(lines, "\n") && lines != []
    ensures offset + |lines[0]| <= |text| && text[offset..offset + |lines[0]|] == lines[0]
    ensures |lines| == 1 ==> offset + |lines[0]| == |text|
    ensures |lines| > 1 ==> (text[offset + |lines[0]|] == '\n'
      && text[offset + |lines[0]| + 1..] == Join(lines[1..], "\n"))
  {
    if |lines| == 1 {
      assert text[offset..] == lines[0] + [];
      LineAt(text, offset, lines[0], []);
    } else {
      JoinCons(lines[0], lines[1..], "\n");
      assert [lines[0]] + lines[1..] == lines;
      var tail := "\n" + Join(lines[1..], "\n");
      assert text[offset..] == lines[0] + tail;
      LineAt(text, offset, lines[0], tail);
      assert tail[1..] == Join(lines[1..], "\n");
    }
  }

  /** What a match says about the text it was found in. */
  predicate Spans(text: string, m: HeaderMatch) {
    m.start <= m.end <= |text| && (m.end == |text| || text[m.end] == '\n')
    && text[m.start..m.end] == m.name + "{" + m.cols + "}"
    && AllWord(m.name) && m.cols != [] && NoCloser(m.cols)
  }

  /** The match for a header first line spans that line. */
  lemma FirstSpans(lines: seq<string>, offset: nat, text: string, h: HeaderLine)
    requires offset <= |text| && text[offset..] == Join(lines, "\n") && lines != []
    requires MatchHeader(lines[0]) == Some(h)
    ensures Spans(text, HeaderMatch(offset, offset + |lines[0]|, h.name, h.cols))
  {
    FirstLine(lines, offset, text);
  }

  /** Every one of `ms` spans a header line of `text`. */
  predicate AllSpan(text: string, ms: seq<HeaderMatch>)
    decreases |ms|
  {
    ms != [] ==> Spans(text, ms[0]) && AllSpan(text, ms[1..])
  }

  lemma {:induction false} AllSpanAt(text: string, ms: seq<HeaderMatch>, i: nat)
    requires AllSpan(text, ms) && i < |ms|
    ensures Spans(text, ms[i])
    decreases i
  {
    if i > 0 {
      AllSpanAt(text, ms[1..], i - 1);
    }
  }

  /** One more match that spans a header line can go in front. */
  lemma SpansCons(text: string, m: Option<HeaderMatch>, ms: seq<HeaderMatch>)
    requires m.Some? ==> Spans(text, m.value)
    requires AllSpan(text, ms)
    ensures AllSpan(text, (if m.Some? then [m.value] else []) + ms)
  {
    if m.Some? {
      var r := [m.value] + ms;
      assert r[0] == m.value && r[1..] == ms;
    } else {
      assert [] + ms == ms;
    }
  }

  /** The matches of `lines`, split from `text` at `offset`, span header lines of `text`. */
  lemma {:induction false} SpansIn(lines: seq<string>, offset: nat, text: string)
    requires offset <= |text| && text[offset..] == Join(lines, "\n")
    ensures AllSpan(text, HeadersIn(lines, offset))
    decreases |lines|
  {
    if lines != [] {
      var next := offset + |lines[0]| + 1;
      if |lines| > 1 {
        FirstLine(lines, offset, text);
        SpansIn(lines[1..], next, text);
      }
      var m := FirstMatch(lines, offset);
      if m.Some? {
        FirstSpans(lines, offset, text, MatchHeader(lines[0]).value);
      }
      SpansCons(text, m, HeadersIn(lines[1..], next));
    }
  }

  /**
   * The offsets are right: each match `finditer` reports spans, in the text, a whole
   * header line that ends at the end of the text or at a `\n`.
   */
  lemma HeaderSpans(text: string)
    ensures forall i :: 0 <= i < |Headers(text)| ==> Spans(text, Headers(text)[i])
  {
    JoinSplitOn(text, '\n');
    assert text[0..] == text;
    SpansIn(SplitOn(text, '\n'), 0, text);
    forall i | 0 <= i < |Headers(text)|
      ensures Spans(text, Headers(text)[i])
    {
      AllSpanAt(text, Headers(text), i);
    }
  }

  /* ---------------------------------------------------------------------------------- */
  /* Blocks                                                                             */
  /* ---------------------------------------------------------------------------------- */

  /** `[k.strip() for k in cols.split(",")]` */
  function ColumnNames(cols: string): seq<string> {
    StripAll(SplitOn(cols, ','))
  }

  /** `[l.strip() for l in lines if l.strip()]` */
  function NonBlank(lines: seq<string>): (r: seq<string>)
    ensures |r| <= |lines|
    ensures forall k :: 0 <= k < |r| ==> r[k] != [] && Stripped(r[k])
    decreases |lines|
  {
    if lines == [] then []
    else (if Strip(lines[0]) != [] then [Strip(lines[0])] else []) + NonBlank(lines[1..])
  }

  /** The rows of a block body: its non-blank lines, stripped. */
  function BodyLines(body: string): seq<string> {
    NonBlank(SplitLines(Strip(body)))
  }

  function ParseAll(tokens: seq<string>): (r: seq<Value>)
    ensures |r| == |tokens| && forall k :: 0 <= k < |tokens| ==> r[k] == ParseValue(tokens[k])
  {
    seq(|tokens|, k requires 0 <= k < |tokens| => ParseValue(tokens[k]))
  }

  /** `dict(zip(keys, map(parse_value, _split_top_level_commas(line))))` */
  function RowObject(keys: seq<string>, line: string): seq<Field> {
    FromPairs(Zip(keys, ParseAll(SplitTopLevel(line))))
  }

  /** One row makes a dict; any other number of rows (none included) a list of dicts. */
  function BlockValue(keys: seq<string>, lines: seq<string>): Value {
    if |lines| == 1 then Object(RowObject(keys, lines[0]))
    else List(seq(|lines|, i requires 0 <= i < |lines| => Object(RowObject(keys, lines[i]))))
  }

  /** Where the body of match `i` ends: the start of the next match, or the end of the text. */
  function BodyEnd(text: string, hs: seq<HeaderMatch>, i: nat): nat
    requires i < |hs|
  {
    if i + 1 < |hs| then hs[i + 1].start else |text|
  }

  /** The value of the block that match `i` heads: `text[m.end():end]`, read as rows. */
  function BlockOf(text: string, hs: seq<HeaderMatch>, i: nat): Value
    requires i < |hs|
  {
    BlockValue(ColumnNames(hs[i].cols), BodyLines(Slice(text, hs[i].end, BodyEnd(text, hs, i))))
  }

  /** `m.group(1)` as a dict key: `None` for an anonymous header. */
  function HeaderKey(h: HeaderMatch): Key {
    if h.name == [] then NoneKey else Name(h.name)
  }

  /** The keys of the headers, in order. */
  function HeaderKeys(hs: seq<HeaderMatch>): (ks: seq<Key>)
    ensures |ks| == |hs| && forall i :: 0 <= i < |hs| ==> ks[i] == HeaderKey(hs[i])
  {
    seq(|hs|, i requires 0 <= i < |hs| => HeaderKey(hs[i]))
  }

  /** The `(name, block)` assignments of the multi-block branch, in header order. */
  function Assignments(text: string, hs: seq<HeaderMatch>): (r: seq<Field>)
    ensures |r| == |hs|
    ensures forall i :: 0 <= i < |hs| ==> r[i] == Field(HeaderKey(hs[i]), BlockOf(text, hs, i))
  {
    seq(|hs|, i requires 0 <= i < |hs| => Field(HeaderKey(hs[i]), BlockOf(text, hs, i)))
  }

  predicate Bracketed(t: string) {
    t != [] && t[0] == '[' && t[|t| - 1] == ']'
  }

  /** What `decode` returns for `text`. */
  function DecodeSpec(text: string): Value {
    var t := Strip(text);
    if Bracketed(t) then ParseValue(t)
    else
      var hs := Headers(t);
      if hs == [] then ParseValue(t)
      else if |hs| == 1 && hs[0].name == [] then BlockOf(t, hs, 0)
      else Object(FromPairs(Assignments(t, hs)))
  }

  /** The multi-block branch of `decode`: one assignment `result[name] = ...` per header. */
  method DecodeBlocks(text: string, hs: seq<HeaderMatch>) returns (result: seq<Field>)
    ensures result == FromPairs(Assignments(text, hs))
  {
    ghost var pairs := Assignments(text, hs);
    result := [];
    var i := 0;
    while i < |hs|
      invariant i <= |hs|
      invariant result == FromPairs(pairs[..i])
    {
      var key := HeaderKey(hs[i]);
      var block := BlockOf(text, hs, i);
      AssignmentsStep(text, hs, i);
      result := Put(result, key, block);
      i := i + 1;
    }
    assert pairs[..i] == pairs;
  }

  /** One more header puts its block under its key. */
  lemma AssignmentsStep(text: string, hs: seq<HeaderMatch>, i: nat)
    requires i < |hs|
    ensures var pairs := Assignments(text, hs);
      FromPairs(pairs[..i + 1]) == Put(FromPairs(pairs[..i]), HeaderKey(hs[i]), BlockOf(text, hs, i))
  {
    var pairs := Assignments(text, hs);
    assert pairs[i] == Field(HeaderKey(hs[i]), BlockOf(text, hs, i));
    FromPairsStep(pairs, i);
  }

  /** `ToonDecoder.decode` */
  method Decode(text: string) returns (v: Value)
    ensures v == DecodeSpec(text)
  {
    var t := Strip(text);
    if Bracketed(t) {
      return ParseValue(t);
    }
    var hs := Headers(t);
    if hs == [] {
      return ParseValue(t);
    }
    if |hs| == 1 && hs[0].name == [] {
      return BlockOf(t, hs, 0);
    }
    var fields := DecodeBlocks(t, hs);
    return Object(fields);
  }

  /* ---------------------------------------------------------------------------------- */
  /* Properties                                                                         */
  /* ---------------------------------------------------------------------------------- */

  /** An empty or all-whitespace text decodes to `None`. */
  lemma DecodeBlank(text: string)
    requires AllSpace(text)
    ensures DecodeSpec(text) == Null
  {
    StripEmpty(text);
    EmptyText();
  }

  /** The empty text holds no header and reads as `None`. */
  lemma EmptyText()
    ensures Headers([]) == [] && ParseValue([]) == Null
  {
    assert SplitOn([], '\n') == [[]];
    StripOfStripped([]);
  }

  /** Whitespace around the text never changes what it decodes to. */
  lemma DecodePadded(text: string)
    ensures DecodeSpec(text) == DecodeSpec(Strip(text))
  {
    StripIdempotent(text);
  }

  /** A lone anonymous header gives a dict for exactly one row, and a list with one dict per row otherwise. */
  lemma SingleBlockShape(text: string, hs: seq<HeaderMatch>)
    requires |hs| == 1
    ensures var lines := BodyLines(Slice(text, hs[0].end, |text|));
      (BlockOf(text, hs, 0).Object? <==> |lines| == 1)
      && (BlockOf(text, hs, 0).List? ==> |BlockOf(text, hs, 0).items| == |lines|)
  {
  }

  /** The multi-block result has one entry per distinct header name (a missing name is `None`). */
  lemma MultiKeys(text: string, hs: seq<HeaderMatch>)
    ensures DistinctKeys(FromPairs(Assignments(text, hs)))
    ensures forall k :: k in Keys(FromPairs(Assignments(text, hs))) <==> k in HeaderKeys(hs)
  {
    assert Keys(Assignments(text, hs)) == HeaderKeys(hs);
  }

  /** The entry for a name holds the block of the last header with that name. */
  lemma MultiLastWins(text: string, hs: seq<HeaderMatch>, i: nat)
    requires i < |hs|
    requires forall j :: i < j < |hs| ==> HeaderKey(hs[j]) != HeaderKey(hs[i])
    ensures Lookup(FromPairs(Assignments(text, hs)), HeaderKey(hs[i])) == Some(BlockOf(text, hs, i))
  {
    FromPairsLast(Assignments(text, hs), i);
  }
}
