/**
 * Encoding then decoding: the shapes of data that `decode(encode(d))` gives back, and the
 * shapes it does not. A flat dict is written as one header and one row, a list of dicts as
 * a header and one row per dict; the decoder reads either back from the lone anonymous
 * header, which is also why a one-item list comes back as a bare dict.
 */
module ToonRoundTrip {
  import opened Wrappers
  import opened Strings
  import opened ToonValue
  import opened ToonTokenizer
  import opened ToonScalar
  import opened ToonEncoder
  import opened ToonDecoder

  /** A scalar that can sit in a table row: inline-safe, and a string without line breaks. */
  predicate RowSafe(v: Value) {
    InlineSafe(v) && (v.Str? ==> NoLineBreak(v.s))
  }

  /** A key the header pattern reads back as a column: a non-empty run of `[A-Za-z0-9_]`. */
  predicate ColumnKey(k: Key) {
    k.Name? && k.name != [] && AllWord(k.name)
  }

  /** A non-empty dict with distinct column keys and row-safe values. */
  predicate FlatFields(fields: seq<Field>) {
    fields != [] && DistinctKeys(fields)
    && forall j :: 0 <= j < |fields| ==> ColumnKey(fields[j].key) && RowSafe(fields[j].val)
  }

  /* ---------------------------------------------------------------------------------- */
  /* Cells and rows                                                                     */
  /* ---------------------------------------------------------------------------------- */

  /** The characters of a decimal integer are a sign and digits. */
  lemma IntChars(i: int)
    ensures forall k :: 0 <= k < |IntText(i)| ==> IntText(i)[k] == '-' || IsDigit(IntText(i)[k])
  {
    var t := IntText(i);
    if i < 0 {
      assert t[1..] == NatText(-i);
      assert forall k :: 1 <= k < |t| ==> t[k] == t[1..][k - 1];
    }
  }

  /**
   * The cell of a row-safe value is one clean token on one line, and unless it is quoted
   * it holds no `{`.
   */
  lemma CellToken(v: Value)
    requires RowSafe(v)
    ensures var e := EncodeValue(v);
      e != [] && Stripped(e) && Neutral(e) && NoLineBreak(e) && (e[0] == '"' || '{' !in e)
  {
    InlineToken(v);
    var e := EncodeValue(v);
    match v
    case Null =>
      assert e == "null";
    case Bool(b) =>
      assert e == "true" || e == "false";
    case Int(i) =>
      IntChars(i);
    case Str(s) =>
      StringCell(s);
  }

  lemma StringCell(s: string)
    requires NoLineBreak(s) && forall k :: 0 <= k < |s| ==> s[k] != '"'
    ensures var e := EncodeString(s);
      NoLineBreak(e) && ((e != [] && e[0] == '"') || '{' !in e)
  {
    var e := EncodeString(s);
    if NeedsQuotes(s) {
      assert Escape(s) == s;
      assert e == "\"" + s + "\"";
      assert forall k :: 0 <= k < |e| ==> e[k] == '"' || e[k] == s[k - 1];
    } else {
      assert forall k :: 0 <= k < |s| ==> !Special(s[k]);
    }
  }

  /** Names made of word characters hold no comma, brace or line break, and are stripped. */
  lemma WordName(n: string)
    requires n != [] && AllWord(n)
    ensures ',' !in n && '}' !in n && '\n' !in n && NoLineBreak(n) && Stripped(n)
  {
  }

  /** Column names joined by `,` split back into themselves. */
  lemma ColumnsBack(names: seq<string>)
    requires names != [] && forall k :: 0 <= k < |names| ==> names[k] != [] && AllWord(names[k])
    ensures ColumnNames(Join(names, ",")) == names
  {
    forall k | 0 <= k < |names|
      ensures ',' !in names[k] && Stripped(names[k])
    {
      WordName(names[k]);
    }
    assert "," == [','];
    SplitOnJoin(names, ',');
    StripAllAt(names);
    forall k | 0 <= k < |names|
      ensures StripAll(names)[k] == names[k]
    {
      StripOfStripped(names[k]);
    }
  }

  /** Column names joined by `,` in braces make an anonymous header line. */
  lemma ColumnsHeader(names: seq<string>)
    requires names != [] && forall k :: 0 <= k < |names| ==> names[k] != [] && AllWord(names[k])
    ensures MatchHeader("{" + Join(names, ",") + "}") == Some(HeaderLine([], Join(names, ",")))
    ensures '\n' !in Join(names, ",")
  {
    var cols := Join(names, ",");
    ColumnsText(names);
    AnonymousHeader(cols);
  }

  /** Word names joined by `,` give a non-empty text without `}` or line break. */
  lemma ColumnsText(names: seq<string>)
    requires names != [] && forall k :: 0 <= k < |names| ==> names[k] != [] && AllWord(names[k])
    ensures Join(names, ",") != [] && '}' !in Join(names, ",") && '\n' !in Join(names, ",")
  {
    forall k | 0 <= k < |names|
      ensures '}' !in names[k] && '\n' !in names[k]
    {
      WordName(names[k]);
    }
    JoinFirst(names, ",");
    JoinAvoids(names, ",", '}');
    JoinAvoids(names, ",", '\n');
  }

  /**
   * The header of a flat dict: `{` and the key names joined by `,` and `}`. It matches the
   * header pattern as an anonymous header, and its columns read back as the key names.
   */
  lemma FlatHeader(fields: seq<Field>) returns (names: seq<string>, cols: string)
    requires FlatFields(fields)
    ensures |names| == |fields| && forall k :: 0 <= k < |fields| ==> Name(names[k]) == fields[k].key
    ensures Header([], Keys(fields)) == Ok("{" + cols + "}")
    ensures MatchHeader("{" + cols + "}") == Some(HeaderLine([], cols))
    ensures '\n' !in cols && ColumnNames(cols) == names
  {
    names := KeyNames(Keys(fields)).value;
    cols := Join(names, ",");
    assert [] + "{" + cols + "}" == "{" + cols + "}";
    ColumnsBack(names);
    ColumnsHeader(names);
  }

  /**
   * The row of a flat dict: its cells joined by `,`. It is one clean line that is not a
   * header, and the tokenizer splits it back into the cells.
   */
  lemma FlatRow(fields: seq<Field>) returns (cells: seq<string>)
    requires FlatFields(fields)
    ensures |cells| == |fields| && forall k :: 0 <= k < |fields| ==> cells[k] == EncodeValue(fields[k].val)
    ensures Row(Keys(fields), fields) == Join(cells, ",")
    ensures var r := Join(cells, ",");
      r != [] && Stripped(r) && NoLineBreak(r) && MatchHeader(r).None? && SplitTopLevel(r) == cells
  {
    cells := Cells(Keys(fields), fields);
    forall k | 0 <= k < |fields|
      ensures cells[k] == EncodeValue(fields[k].val)
    {
      LookupAt(fields, k);
    }
    forall k | 0 <= k < |cells|
      ensures var e := cells[k];
        e != [] && Stripped(e) && Neutral(e) && NoLineBreak(e) && (e[0] == '"' || '{' !in e)
    {
      CellToken(fields[k].val);
    }
    var r := Join(cells, ",");
    JoinFirst(cells, ",");
    JoinLast(cells, ",");
    JoinNoBreak(cells, ",");
    RowNotHeader(cells);
    assert "," == [','] + [];
    SplitJoin(cells, []);
  }

  /** A row whose first cell is quoted, or holds no `{`, does not match the header pattern. */
  lemma RowNotHeader(cells: seq<string>)
    requires cells != [] && cells[0] != [] && (cells[0][0] == '"' || '{' !in cells[0])
    ensures MatchHeader(Join(cells, ",")).None?
  {
    var r := Join(cells, ",");
    JoinFirst(cells, ",");
    if cells[0][0] == '"' {
      NotHeader(r, 0);
    } else if |cells| == 1 {
      NoBraceNotHeader(r);
    } else {
      var c := cells[0];
      assert r == c + "," + Join(cells[1..], ",");
      assert forall q :: 0 <= q < |c| ==> r[q] == c[q];
      NotHeader(r, |c|);
    }
  }

  /** A row of a flat dict, read against the dict's column names, gives the dict back. */
  lemma RowReadBack(fields: seq<Field>, names: seq<string>, cells: seq<string>)
    requires FlatFields(fields)
    requires |names| == |fields| && forall k :: 0 <= k < |fields| ==> Name(names[k]) == fields[k].key
    requires |cells| == |fields| && forall k :: 0 <= k < |fields| ==> cells[k] == EncodeValue(fields[k].val)
    requires SplitTopLevel(Join(cells, ",")) == cells
    ensures RowObject(names, Join(cells, ",")) == fields
  {
    var vals := ParseAll(cells);
    forall k | 0 <= k < |fields|
      ensures vals[k] == fields[k].val
    {
      ScalarRoundTrip(fields[k].val);
    }
    var pairs := Zip(names, vals);
    assert pairs == fields;
    FromPairsDistinct(fields);
  }

  /* ---------------------------------------------------------------------------------- */
  /* Reading a table back                                                               */
  /* ---------------------------------------------------------------------------------- */

  /** Clean rows of one line each: non-empty, stripped, no line break, not a header. */
  predicate CleanRows(rows: seq<string>) {
    forall k :: 0 <= k < |rows| ==>
      rows[k] != [] && Stripped(rows[k]) && NoLineBreak(rows[k]) && MatchHeader(rows[k]).None?
  }

  /** Lines that are already non-blank and stripped pass the row filter unchanged. */
  lemma {:induction false} NonBlankClean(lines: seq<string>)
    requires forall k :: 0 <= k < |lines| ==> lines[k] != [] && Stripped(lines[k])
    ensures NonBlank(lines) == lines
    decreases |lines|
  {
    if lines != [] {
      StripOfStripped(lines[0]);
      NonBlankClean(lines[1..]);
      assert [lines[0]] + lines[1..] == lines;
    }
  }

  /** A header line followed by clean rows: the header is the only match. */
  lemma TableHeaders(cols: string, rows: seq<string>)
    requires MatchHeader("{" + cols + "}") == Some(HeaderLine([], cols)) && '\n' !in cols
    requires rows != [] && CleanRows(rows)
    ensures var h := "{" + cols + "}";
      Headers(h + "\n" + Join(rows, "\n")) == [HeaderMatch(0, |h|, [], cols)]
  {
    var h := "{" + cols + "}";
    var lines := [h] + rows;
    JoinCons(h, rows, "\n");
    assert "\n" == ['\n'];
    forall x | x in lines
      ensures '\n' !in x
    {
      if x != h {
        var k :| 0 <= k < |rows| && rows[k] == x;
      }
    }
    SplitOnJoin(lines, '\n');
    assert lines[0] == h && lines[1..] == rows;
    var m := FirstMatch(lines, 0);
    NoHeaderLines(rows, |h| + 1);
  }

  /** The body after the header is the rows, one per line. */
  lemma TableBody(h: string, rows: seq<string>)
    requires rows != [] && CleanRows(rows)
    ensures var t := h + "\n" + Join(rows, "\n");
      BodyLines(Slice(t, |h|, |t|)) == rows
  {
    var j := Join(rows, "\n");
    var t := h + "\n" + j;
    assert Slice(t, |h|, |t|) == "\n" + j + [];
    JoinFirst(rows, "\n");
    JoinLast(rows, "\n");
    StripSpaceAround("\n", j, []);
    forall r | r in rows
      ensures NoLineBreak(r)
    {
      var k :| 0 <= k < |rows| && rows[k] == r;
    }
    SplitLinesJoin(rows);
    NonBlankClean(rows);
  }

  /**
   * An anonymous header followed by clean rows decodes as the lone anonymous block:
   * the rows read against the header's columns.
   */
  lemma DecodeTable(cols: string, rows: seq<string>)
    requires MatchHeader("{" + cols + "}") == Some(HeaderLine([], cols)) && '\n' !in cols
    requires rows != [] && CleanRows(rows)
    ensures DecodeSpec("{" + cols + "}" + "\n" + Join(rows, "\n")) == BlockValue(ColumnNames(cols), rows)
  {
    var h := "{" + cols + "}";
    var t := h + "\n" + Join(rows, "\n");
    JoinLast(rows, "\n");
    assert t[0] == '{' && t[|t| - 1] == Join(rows, "\n")[|Join(rows, "\n")| - 1];
    StripOfStripped(t);
    TableHeaders(cols, rows);
    TableBody(h, rows);
    var hs := Headers(t);
    assert BodyEnd(t, hs, 0) == |t|;
  }

  /* ---------------------------------------------------------------------------------- */
  /* Round trips                                                                        */
  /* ---------------------------------------------------------------------------------- */

  /** The row of a flat dict under its own keys is clean and reads back as the dict. */
  lemma RowBack(fields: seq<Field>, names: seq<string>)
    requires FlatFields(fields)
    requires |names| == |fields| && forall k :: 0 <= k < |fields| ==> Name(names[k]) == fields[k].key
    ensures var r := Row(Keys(fields), fields);
      CleanRows([r]) && RowObject(names, r) == fields
  {
    var cells := FlatRow(fields);
    RowReadBack(fields, names, cells);
  }

  /**
   * `decode(encode(d)) == d` for a flat dict: distinct word-character keys, values that
   * are null, booleans, ints or safe strings.
   */
  lemma FlatRoundTrip(fields: seq<Field>)
    requires FlatFields(fields)
    ensures EncodeSpec(Object(fields)).Ok?
    ensures DecodeSpec(EncodeSpec(Object(fields)).value) == Object(fields)
  {
    var cols, r := FlatEncoding(fields);
    DecodeTable(cols, [r]);
  }

  /** A flat dict is written as its header line and one clean row that reads back as the dict. */
  lemma FlatEncoding(fields: seq<Field>) returns (cols: string, r: string)
    requires FlatFields(fields)
    ensures EncodeSpec(Object(fields)) == Ok("{" + cols + "}" + "\n" + Join([r], "\n"))
    ensures MatchHeader("{" + cols + "}") == Some(HeaderLine([], cols)) && '\n' !in cols
    ensures CleanRows([r]) && BlockValue(ColumnNames(cols), [r]) == Object(fields)
  {
    assert !HasComplex(fields);
    var names;
    names, cols := FlatHeader(fields);
    r := Row(Keys(fields), fields);
    RowBack(fields, names);
    SimpleObject(fields);
    assert Join([r], "\n") == r;
  }

  /** Dicts that make a table: flat, all with the keys of the first, in the same order. */
  predicate TableItems(items: seq<Value>) {
    items != [] && items[0].Object? && forall i :: 0 <= i < |items| ==>
      items[i].Object? && FlatFields(items[i].fields) && Keys(items[i].fields) == Keys(items[0].fields)
  }

  /** The encoding of a table: the first dict's header, then one clean row per dict that reads back as it. */
  lemma TableEncoding(items: seq<Value>) returns (names: seq<string>, cols: string, rows: seq<string>)
    requires TableItems(items)
    ensures EncodeSpec(List(items)) == Ok("{" + cols + "}" + "\n" + Join(rows, "\n"))
    ensures MatchHeader("{" + cols + "}") == Some(HeaderLine([], cols)) && '\n' !in cols
    ensures ColumnNames(cols) == names
    ensures |rows| == |items| && CleanRows(rows)
    ensures forall i :: 0 <= i < |items| ==> Object(RowObject(names, rows[i])) == items[i]
  {
    var keys := Keys(items[0].fields);
    names, cols := FlatHeader(items[0].fields);
    TableRowsOk(keys, items);
    rows := TableRows(keys, items).value;
    TableText(items, cols, rows);
    TableRowsRead(items, names, rows);
  }

  /** The text of a table: its header line, a newline, then its rows joined by newlines. */
  lemma TableText(items: seq<Value>, cols: string, rows: seq<string>)
    requires items != [] && items[0].Object?
    requires Header([], Keys(items[0].fields)) == Ok("{" + cols + "}")
    requires TableRows(Keys(items[0].fields), items) == Ok(rows)
    ensures EncodeSpec(List(items)) == Ok("{" + cols + "}" + "\n" + Join(rows, "\n"))
  {
    assert Prefix(NoneKey) == [];
  }

  /** Every row of a table is a clean line that reads back as its dict. */
  lemma TableRowsRead(items: seq<Value>, names: seq<string>, rows: seq<string>)
    requires TableItems(items)
    requires |names| == |items[0].fields| && forall k :: 0 <= k < |names| ==> Name(names[k]) == items[0].fields[k].key
    requires |rows| == |items| && forall i :: 0 <= i < |items| ==> rows[i] == Row(Keys(items[0].fields), items[i].fields)
    ensures CleanRows(rows)
    ensures forall i :: 0 <= i < |items| ==> Object(RowObject(names, rows[i])) == items[i]
  {
    forall i | 0 <= i < |items|
      ensures CleanRows([rows[i]]) && RowObject(names, rows[i]) == items[i].fields
    {
      RowBack(items[i].fields, names);
    }
    forall i | 0 <= i < |rows|
      ensures rows[i] != [] && Stripped(rows[i]) && NoLineBreak(rows[i]) && MatchHeader(rows[i]).None?
    {
      assert [rows[i]][0] == rows[i];
    }
  }

  /**
   * A list of dicts that share their keys comes back from `decode(encode(xs))`: as the list
   * when it has two or more items, and as its only dict when it has one.
   */
  lemma TableRoundTrip(items: seq<Value>)
    requires TableItems(items)
    ensures EncodeSpec(List(items)).Ok?
    ensures DecodeSpec(EncodeSpec(List(items)).value) == if |items| == 1 then items[0] else List(items)
  {
    var names, cols, rows := TableEncoding(items);
    DecodeTable(cols, rows);
    if |items| > 1 {
      assert BlockValue(names, rows).items == items;
    }
  }

  /** A list of inline-safe scalars is written inline and read back as a bracketed token. */
  lemma InlineListRoundTrip(items: seq<Value>)
    requires items != [] && forall k :: 0 <= k < |items| ==> InlineSafe(items[k])
    ensures EncodeSpec(List(items)).Ok?
    ensures DecodeSpec(EncodeSpec(List(items)).value) == List(items)
  {
    var t := EncodeValue(List(items));
    assert EncodeSpec(List(items)) == Ok([] + t) && [] + t == t;
    var encs := InlineJoin(items);
    assert t == "[" + Join(encs, ", ") + "]";
    StripOfStripped(t);
    assert Bracketed(t);
    ListRoundTrip(items);
  }

  /* ---------------------------------------------------------------------------------- */
  /* Shapes that do not come back                                                       */
  /* ---------------------------------------------------------------------------------- */

  /** A one-line text is its own only line. */
  lemma OneLine(t: string)
    requires '\n' !in t
    ensures SplitOn(t, '\n') == [t]
  {
    assert Join([t], "\n") == t && "\n" == ['\n'];
    SplitOnJoin([t], '\n');
  }

  /** `{}` is not a header line (the pattern needs at least one column character). */
  lemma EmptyBracesToken()
    ensures Headers("{}") == [] && DecodeSpec("{}") == Object([])
  {
    OneLine("{}");
    assert MatchHeader("{}").None?;
    assert Strip("{}") == "{}" by { StripOfStripped("{}"); }
    NoLiteral("{}");
    assert Inner("{}") == [];
    assert ParseValue("{}") == ParseToken("{}") == ParseObject("{}");
  }

  /** The empty list is written `{}`, which reads back as an empty dict, not a list. */
  lemma EmptyListComesBackAsDict()
    ensures EncodeSpec(List([])) == Ok("{}")
    ensures DecodeSpec("{}") == Object([])
  {
    EmptyListBlock(NoneKey);
    EmptyBracesToken();
  }

  /** The empty dict has no keys, so its header is `{}` and its row is empty. */
  lemma EmptyDictEncoding()
    ensures EncodeSpec(Object([])) == Ok("{}\n")
  {
    assert !HasComplex([]);
    var keys := Keys([]);
    assert keys == [];
    assert KeyNames(keys) == Ok([]);
    assert Join([], ",") == [];
    assert Header([], keys) == Ok([] + "{" + [] + "}");
    assert [] + "{" + [] + "}" == "{}";
    assert Row(keys, []) == [];
    assert "{}" + "\n" + [] == "{}\n";
  }

  /** The empty dict is written as `{}` and an empty row, and reads back as itself. */
  lemma EmptyDictRoundTrip()
    ensures EncodeSpec(Object([])) == Ok("{}\n")
    ensures DecodeSpec("{}\n") == Object([])
  {
    EmptyDictEncoding();
    StripSpaceAround([], "{}", "\n");
    assert [] + "{}" + "\n" == "{}\n";
    DecodePadded("{}\n");
    EmptyBracesToken();
  }

  /** A header line on its own is the only match. */
  lemma HeaderAlone(cols: string)
    requires MatchHeader("{" + cols + "}") == Some(HeaderLine([], cols)) && '\n' !in cols
    ensures Headers("{" + cols + "}") == [HeaderMatch(0, |"{" + cols + "}"|, [], cols)]
  {
    var t := "{" + cols + "}";
    OneLine(t);
    assert [t][1..] == [];
    var m := FirstMatch([t], 0);
  }

  /** A lone anonymous header without rows reads as the empty list. */
  lemma HeaderWithoutRows(cols: string)
    requires MatchHeader("{" + cols + "}") == Some(HeaderLine([], cols)) && '\n' !in cols
    ensures DecodeSpec("{" + cols + "}") == List([])
  {
    var t := "{" + cols + "}";
    StripOfStripped(t);
    HeaderAlone(cols);
    var hs := Headers(t);
    assert Slice(t, |t|, |t|) == [];
    StripEmpty([]);
    assert BodyLines([]) == [];
    assert BlockOf(t, hs, 0) == List([]);
    assert DecodeSpec(t) == BlockOf(t, hs, 0);
  }

  /**
   * The `name: value` line that a complex dict writes for a scalar entry is never a header,
   * so the decoder takes it as one more row of the block before it.
   */
  lemma EntryLineNotHeader(name: string, e: string)
    requires AllWord(name)
    ensures MatchHeader(name + ": " + e).None?
  {
    var line := name + ": " + e;
    assert line[|name|] == ':';
    assert forall q :: 0 <= q < |name| ==> line[q] == name[q];
    NotHeader(line, |name|);
  }

  /* ---------------------------------------------------------------------------------- */
  /* Line breaks that only the row splitter sees                                        */
  /* ---------------------------------------------------------------------------------- */

  /** The dict `{"a": "x\x0by"}`: one string with a vertical tab between two letters. */
  const TabbedDict: Value := Object([Field(Name("a"), Str("x\U{0b}y"))])

  /** Its encoding: the header `{a}`, then the string unquoted, since a vertical tab forces no quotes. */
  const TabbedText: string := "{a}\nx\U{0b}y"

  /** A vertical tab is no special character, so the string is written as it is. */
  lemma TabbedStringVerbatim()
    ensures EncodeString("x\U{0b}y") == "x\U{0b}y" && !NeedsQuotes("x\U{0b}y")
  {
    var s := "x\U{0b}y";
    assert !Special(s[0]) && !Special(s[1]) && !Special(s[2]);
    assert |Lower(s)| == 3;
  }

  lemma TabbedEncoding()
    ensures EncodeSpec(TabbedDict) == Ok(TabbedText)
  {
    var fields := [Field(Name("a"), Str("x\U{0b}y"))];
    assert !HasComplex(fields);
    SimpleObject(fields);
    assert Keys(fields) == [Name("a")];
    TabbedHeader();
    TabbedRow();
    assert "{a}" + "\n" + "x\U{0b}y" == TabbedText;
  }

  /** The header of the one key `a` is `{a}`. */
  lemma TabbedHeader()
    ensures Header([], [Name("a")]) == Ok("{a}")
  {
    var keys := [Name("a")];
    assert KeyNames(keys).value == ["a"];
    assert Join(["a"], ",") == "a";
    assert [] + "{" + "a" + "}" == "{a}";
  }

  /** The row of the dict is its string, verbatim. */
  lemma TabbedRow()
    ensures Row([Name("a")], [Field(Name("a"), Str("x\U{0b}y"))]) == "x\U{0b}y"
  {
    var keys := [Name("a")];
    var fields := [Field(Name("a"), Str("x\U{0b}y"))];
    TabbedStringVerbatim();
    assert Get(fields, Name("a")) == Str("x\U{0b}y");
    assert Cells(keys, fields) == ["x\U{0b}y"];
  }

  /** The header pattern cuts lines at `\n` only: `{a}` is the one header. */
  lemma TabbedHeaders()
    ensures Headers(TabbedText) == [HeaderMatch(0, 3, [], "a")]
  {
    var lines := ["{a}", "x\U{0b}y"];
    assert Join(lines, "\n") == TabbedText;
    assert "\n" == ['\n'];
    assert '\n' !in lines[0] && '\n' !in lines[1];
    SplitOnJoin(lines, '\n');
    AnonymousHeader("a");
    assert "{" + "a" + "}" == lines[0];
    NoBraceNotHeader(lines[1]);
    var m := FirstMatch(lines, 0);
    var m1 := FirstMatch(lines[1..], 4);
    assert lines[1..][1..] == [];
  }

  /** `splitlines()` cuts the body at the vertical tab: two rows. */
  lemma TabbedBodyLines()
    ensures BodyLines("\nx\U{0b}y") == ["x", "y"]
  {
    StripSpaceAround("\n", "x\U{0b}y", []);
    assert "\n" + "x\U{0b}y" + [] == "\nx\U{0b}y";
    SplitLinesFromPlain("x", "\U{0b}y", []);
    assert "x" + "\U{0b}y" == "x\U{0b}y";
    SplitLinesFromPlain("y", [], []);
    assert "y" + [] == "y" && [] + "y" == "y" && [] + "x" == "x";
    NonBlankClean(["x", "y"]);
  }

  /** A one-letter row under the column `a` reads as that letter. */
  lemma LetterRow(w: string)
    requires w == "x" || w == "y"
    ensures RowObject(["a"], w) == [Field(Name("a"), Str(w))]
  {
    PlainToken(w);
    assert Join([w], [','] + []) == w;
    SplitJoin([w], []);
    StripOfStripped(w);
    assert !NeedsQuotes(w) by { assert |Lower(w)| == 1; }
    VerbatimRoundTrip(w);
    FromPairsDistinct([Field(Name("a"), Str(w))]);
  }

  /**
   * `decode(encode({"a": "x\x0by"}))` is a list of two dicts, `{"a": "x"}` and `{"a": "y"}`:
   * the encoder quotes only strings holding `\n` or `\r`, while the decoder's `splitlines()`
   * also ends a row at `\v`, `\f`, `\x1c`-`\x1e`, `\x85`, `\u2028` and `\u2029`.
   */
  lemma TabbedValueSplitsRow()
    ensures EncodeSpec(TabbedDict) == Ok(TabbedText)
    ensures DecodeSpec(TabbedText)
      == List([Object([Field(Name("a"), Str("x"))]), Object([Field(Name("a"), Str("y"))])])
  {
    TabbedEncoding();
    TabbedDecodeBlock();
    TabbedBodyLines();
    TabbedRows();
  }

  /** The text is the lone anonymous block `{a}` over the body after it. */
  lemma TabbedDecodeBlock()
    ensures DecodeSpec(TabbedText) == BlockValue(ColumnNames("a"), BodyLines("\nx\U{0b}y"))
  {
    var t := TabbedText;
    assert Stripped(t) && !Bracketed(t);
    StripOfStripped(t);
    TabbedHeaders();
    var hs := Headers(t);
    assert Slice(t, 3, |t|) == "\nx\U{0b}y";
    assert DecodeSpec(t) == BlockOf(t, hs, 0);
  }

  /** The rows `x` and `y` under the column `a` make two dicts. */
  lemma TabbedRows()
    ensures BlockValue(ColumnNames("a"), ["x", "y"])
      == List([Object([Field(Name("a"), Str("x"))]), Object([Field(Name("a"), Str("y"))])])
  {
    assert Join(["a"], ",") == "a";
    ColumnsBack(["a"]);
    LetterRow("x");
    LetterRow("y");
    TwoRows(["a"], ["x", "y"], [Object([Field(Name("a"), Str("x"))]), Object([Field(Name("a"), Str("y"))])]);
  }

  /** Two rows, each reading as the dict given for it, make the list of those two dicts. */
  lemma TwoRows(keys: seq<string>, rows: seq<string>, dicts: seq<Value>)
    requires |rows| == 2 && |dicts| == 2
    requires Object(RowObject(keys, rows[0])) == dicts[0] && Object(RowObject(keys, rows[1])) == dicts[1]
    ensures BlockValue(keys, rows) == List(dicts)
  {
    var b := BlockValue(keys, rows);
    assert b.List? && |b.items| == 2;
    assert b.items[0] == dicts[0] && b.items[1] == dicts[1];
  }

  /**
   * Rows cut at `\n` only, as the header pattern cuts lines: the non-blank lines of the
   * stripped body, stripped.
   */
  function RowLines(body: string): seq<string> {
    NonBlank(SplitOn(Strip(body), '\n'))
  }

  /** Rows without `\n` come back whole from the corrected splitter, whatever other breaks they hold. */
  lemma RowLinesJoin(rows: seq<string>)
    requires rows != [] && forall k :: 0 <= k < |rows| ==> rows[k] != [] && Stripped(rows[k]) && '\n' !in rows[k]
    ensures RowLines("\n" + Join(rows, "\n")) == rows
  {
    JoinAfterBreak(rows);
    JoinNewlines(rows);
    NonBlankClean(rows);
  }

  /** The newline before a join of stripped rows is what `strip()` removes. */
  lemma JoinAfterBreak(rows: seq<string>)
    requires rows != [] && rows[0] != [] && rows[|rows| - 1] != []
    requires Stripped(rows[0]) && Stripped(rows[|rows| - 1])
    ensures Strip("\n" + Join(rows, "\n")) == Join(rows, "\n")
  {
    var j := Join(rows, "\n");
    JoinFirst(rows, "\n");
    JoinLast(rows, "\n");
    StripSpaceAround("\n", j, []);
    assert "\n" + j + [] == "\n" + j;
  }

  /** Rows without `\n`, joined by `\n`, split at `\n` back into themselves. */
  lemma JoinNewlines(rows: seq<string>)
    requires rows != [] && forall k :: 0 <= k < |rows| ==> '\n' !in rows[k]
    ensures SplitOn(Join(rows, "\n"), '\n') == rows
  {
    assert "\n" == ['\n'];
    forall r | r in rows
      ensures '\n' !in r
    {
      var k :| 0 <= k < |rows| && rows[k] == r;
    }
    SplitOnJoin(rows, '\n');
  }

  /** With rows cut at `\n` only, `{"a": "x\x0by"}` comes back as itself. */
  lemma TabbedValueKept()
    ensures BlockValue(ColumnNames("a"), RowLines(Slice(TabbedText, 3, |TabbedText|))) == TabbedDict
  {
    var s := "x\U{0b}y";
    assert Slice(TabbedText, 3, |TabbedText|) == "\n" + Join([s], "\n");
    assert Stripped(s);
    RowLinesJoin([s]);
    assert Join(["a"], ",") == "a";
    ColumnsBack(["a"]);
    TabbedRowObject();
  }

  /** The row `x\x0by` under the column `a` reads as the string itself. */
  lemma TabbedRowObject()
    ensures RowObject(["a"], "x\U{0b}y") == [Field(Name("a"), Str("x\U{0b}y"))]
  {
    var s := "x\U{0b}y";
    assert forall i :: 0 <= i < |s| ==> Plain(s[i]);
    PlainToken(s);
    assert Join([s], [','] + []) == s;
    SplitJoin([s], []);
    TabbedStringVerbatim();
    VerbatimRoundTrip(s);
    FromPairsDistinct([Field(Name("a"), Str(s))]);
  }

  /* ---------------------------------------------------------------------------------- */
  /* Examples                                                                           */
  /* ---------------------------------------------------------------------------------- */

  /** The row `"42",null` is two cells, a quoted numeral and a literal, and no header. */
  lemma ExampleCells()
    ensures SplitTopLevel("\"42\",null") == ["\"42\"", "null"]
    ensures MatchHeader("\"42\",null").None?
  {
    var cells := ["\"42\"", "null"];
    assert Join(cells, ",") == "\"42\",null";
    QuotedNeutral("42");
    assert "\"" + "42" + "\"" == "\"42\"";
    WordTokens();
    assert "," == [','] + [];
    SplitJoin(cells, []);
    RowNotHeader(cells);
  }

  /** The cells of the example row read as the string `42` and `None`. */
  lemma ExampleValues()
    ensures ParseAll(["\"42\"", "null"]) == [Str("42"), Null]
  {
    QuotedNumeral();
    LiteralWords();
  }

  /** A quoted numeral reads as a string. */
  lemma QuotedNumeral()
    ensures ParseValue("\"42\"") == Str("42")
  {
    var s := "42";
    assert forall k :: 0 <= k < |s| ==> s[k] != '\\';
    QuotedRoundTrip(s, s);
    assert Quote(s) == "\"42\"";
  }

  /** The example row is a clean row. */
  lemma ExampleRowClean()
    ensures CleanRows(["\"42\",null"])
  {
    ExampleCells();
    var row := "\"42\",null";
    assert NoLineBreak(row);
    assert Stripped(row);
  }

  /** The example text is an anonymous header over one clean row. */
  lemma ExampleTable()
    ensures DecodeSpec("{a,b}\n\"42\",null") == BlockValue(ColumnNames("a,b"), ["\"42\",null"])
  {
    var row := "\"42\",null";
    AnonymousHeader("a,b");
    ExampleRowClean();
    assert "{a,b}\n\"42\",null" == "{" + "a,b" + "}" + "\n" + Join([row], "\n");
    DecodeTable("a,b", [row]);
  }

  /** The example header's columns are `a` and `b`. */
  lemma ExampleColumnNames()
    ensures ColumnNames("a,b") == ["a", "b"]
  {
    assert Join(["a", "b"], ",") == "a,b";
    ColumnsBack(["a", "b"]);
  }

  /** The example row zipped with `a` and `b`. */
  lemma ExampleRowObject()
    ensures RowObject(["a", "b"], "\"42\",null") == [Field(Name("a"), Str("42")), Field(Name("b"), Null)]
  {
    ExampleCells();
    ExampleValues();
    var pairs := [Field(Name("a"), Str("42")), Field(Name("b"), Null)];
    assert Zip(["a", "b"], [Str("42"), Null]) == pairs;
    FromPairsDistinct(pairs);
  }

  /**
   * A quoted numeral stays a string and `null` is `None`: `{a,b}` over the row `"42",null`
   * reads as the dict with `a` the string `42` and `b` null.
   */
  lemma QuotedNumeralStaysText()
    ensures DecodeSpec("{a,b}\n\"42\",null") == Object([Field(Name("a"), Str("42")), Field(Name("b"), Null)])
  {
    ExampleTable();
    ExampleColumnNames();
    ExampleRowObject();
  }
}
