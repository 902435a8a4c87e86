/**
 * `validate_toon`: a structural check of a TOON text. After stripping, the text is read
 * line by line. A header whose name is made of `[a-z_]` opens a section and fixes its
 * column count (the raw `,`-split count of the header's columns); a blank line closes the
 * section. Every other non-blank line inside a section is a row, and a row whose
 * top-level field count differs from the section's column count raises ValueError.
 */
module ToonValidator {
  import opened Wrappers
  import opened Strings
  import opened ToonTokenizer
  import opened ToonScalar
  import opened ToonDecoder

  /* ---------------------------------------------------------------------------------- */
  /* Lines                                                                              */
  /* ---------------------------------------------------------------------------------- */

  /** `[a-z_]` */
  predicate SectionChar(c: char) {
    ('a' <= c <= 'z') || c == '_'
  }

  predicate SectionName(s: string) {
    s != [] && forall k :: 0 <= k < |s| ==> SectionChar(s[k])
  }

  /**
   * Whether a stripped line matches `([a-z_]+)\{([^}]+)\}` as a whole. A section name is
   * a header name (`[A-Za-z0-9_]*`, running to the first `{`) that is present and
   * lower-case, so the decoder's header match decides the shape.
   */
  function SectionHeader(line: string): (r: Option<HeaderLine>)
    ensures r.Some? ==> line == r.value.name + "{" + r.value.cols + "}"
    ensures r.Some? ==> SectionName(r.value.name) && r.value.cols != [] && NoCloser(r.value.cols)
  {
    match MatchHeader(line)
    case Some(h) => if SectionName(h.name) then Some(h) else None
    case None => None
  }

  /** Every line of that shape opens a section with its name and columns. */
  lemma SectionHeaderMatches(name: string, cols: string)
    requires SectionName(name) && cols != [] && NoCloser(cols)
    ensures SectionHeader(name + "{" + cols + "}") == Some(HeaderLine(name, cols))
  {
    HeaderMatches(name, cols);
  }

  /** A header with no name, or with a character outside `[a-z_]` in its name, opens no section. */
  lemma NoSectionHeader(name: string, cols: string)
    requires '{' !in name && !SectionName(name)
    ensures SectionHeader(name + "{" + cols + "}").None?
  {
    var line := name + "{" + cols + "}";
    assert forall k :: 0 <= k < |name| ==> line[k] == name[k] && line[k] != '{';
    assert line[|name|] == '{';
    assert Find(line, '{', 0) == |name|;
    assert line[..|name|] == name;
  }

  /* ---------------------------------------------------------------------------------- */
  /* The scan                                                                           */
  /* ---------------------------------------------------------------------------------- */

  /** `current_section` and `expected_cols` between two lines. */
  datatype Section = Section(name: Option<string>, expected: nat)

  const Start := Section(None, 0)

  /** The ValueError for a row: section name, 1-based row number, fields found and expected, the row's first 50 characters. */
  datatype RowMismatch = RowMismatch(section: string, row: nat, found: nat, expected: nat, content: string)

  /** The error message, as the f-string builds it. */
  function Message(e: RowMismatch): string {
    "Section '" + e.section + "': Row " + NatText(e.row) + " has " + NatText(e.found)
    + " columns, expected " + NatText(e.expected) + ". Content: " + e.content + "..."
  }

  /** The message opens with the section and the row number and closes with the row's text. */
  lemma MessageNames(e: RowMismatch)
    ensures StartsWith(Message(e), "Section '" + e.section + "': Row " + NatText(e.row))
    ensures EndsWith(Message(e), e.content + "...")
  {
    var head := "Section '" + e.section + "': Row " + NatText(e.row);
    var mid := " has " + NatText(e.found) + " columns, expected " + NatText(e.expected) + ". Content: ";
    var tail := e.content + "...";
    assert Message(e) == head + mid + tail;
    assert (head + mid + tail)[..|head|] == head;
    assert (head + mid + tail)[|head + mid|..] == tail;
  }

  /** How one line moves the scan: a blank line closes the section, a section header opens one. */
  function Advance(st: Section, line: string): Section {
    var l := Strip(line);
    if l == [] then Section(None, st.expected)
    else match SectionHeader(l)
      case Some(h) => Section(Some(h.name), |SplitOn(h.cols, ',')|)
      case None => st
  }

  /**
   * The check of line `i`: only a non-blank line that is not a section header, read while
   * a section is open, is a row. (A section name is never empty, so the source's
   * truthiness test on `current_section` is the same as its presence.)
   */
  function CheckRow(st: Section, i: nat, line: string): Option<RowMismatch> {
    var l := Strip(line);
    if l == [] || SectionHeader(l).Some? || st.name.None? then None
    else
      var found := |SplitTopLevel(l)|;
      if found != st.expected then Some(RowMismatch(st.name.value, i + 1, found, st.expected, Slice(l, 0, 50)))
      else None
  }

  /** The section in force after the first `n` lines. */
  function StateAfter(lines: seq<string>, n: nat): Section
    requires n <= |lines|
  {
    if n == 0 then Start else Advance(StateAfter(lines, n - 1), lines[n - 1])
  }

  /** The outcome of every line's check, in order. */
  function Checks(lines: seq<string>): (cs: seq<Option<RowMismatch>>)
    ensures |cs| == |lines|
    ensures forall j :: 0 <= j < |lines| ==> cs[j] == CheckRow(StateAfter(lines, j), j, lines[j])
  {
    seq(|lines|, j requires 0 <= j < |lines| => CheckRow(StateAfter(lines, j), j, lines[j]))
  }

  /** The first failed check from position `i` on. */
  function FirstFailure(cs: seq<Option<RowMismatch>>, i: nat): Option<RowMismatch>
    requires i <= |cs|
    decreases |cs| - i
  {
    if i == |cs| then None else if cs[i].Some? then cs[i] else FirstFailure(cs, i + 1)
  }

  /** What `validate_toon` returns (`True`) or raises for `text`. */
  function ValidateSpec(text: string): Result<bool, RowMismatch> {
    var t := Strip(text);
    if t == [] then Ok(true)
    else match FirstFailure(Checks(SplitLines(t)), 0)
      case None => Ok(true)
      case Some(e) => Err(e)
  }

  /** The body of the loop for line `i`: the section after the line, and the line's failure if it is a bad row. */
  method ScanLine(st: Section, i: nat, raw: string) returns (next: Section, err: Option<RowMismatch>)
    ensures next == Advance(st, raw)
    ensures err == CheckRow(st, i, raw)
  {
    var line := Strip(raw);
    next, err := st, None;
    if line == [] {
      next := Section(None, st.expected);
    } else {
      var m := SectionHeader(line);
      if m.Some? {
        next := Section(Some(m.value.name), |SplitOn(m.value.cols, ',')|);
      } else if st.name.Some? {
        var cols := SplitTopLevelCommas(line);
        if |cols| != st.expected {
          err := Some(RowMismatch(st.name.value, i + 1, |cols|, st.expected, Slice(line, 0, 50)));
        }
      }
    }
  }

  /** `validate_toon`: one pass over the lines, stopping at the first row that fails. */
  method Validate(text: string) returns (r: Result<bool, RowMismatch>)
    ensures r == ValidateSpec(text)
  {
    var t := Strip(text);
    if t == [] {
      return Ok(true);
    }
    var lines := SplitLines(t);
    ghost var cs := Checks(lines);
    var st := Start;
    var i := 0;
    while i < |lines|
      invariant i <= |lines|
      invariant StateAfter(lines, i) == st
      invariant FirstFailure(cs, 0) == FirstFailure(cs, i)
    {
      var next, err := ScanLine(st, i, lines[i]);
      if err.Some? {
        assert FirstFailure(cs, i) == err;
        return Err(err.value);
      }
      StateStep(lines, i);
      FirstFailureSkip(cs, i);
      st, i := next, i + 1;
    }
    return Ok(true);
  }

  /* ---------------------------------------------------------------------------------- */
  /* Properties                                                                         */
  /* ---------------------------------------------------------------------------------- */

  /** An empty or all-whitespace text is valid. */
  lemma BlankValid(text: string)
    requires AllSpace(text)
    ensures ValidateSpec(text) == Ok(true)
  {
    StripEmpty(text);
  }

  /** No failed check from `i` on exactly when every check from `i` on passes. */
  lemma {:induction false} FirstFailureNone(cs: seq<Option<RowMismatch>>, i: nat)
    requires i <= |cs|
    ensures FirstFailure(cs, i).None? <==> forall j :: i <= j < |cs| ==> cs[j].None?
    decreases |cs| - i
  {
    if i < |cs| {
      FirstFailureNone(cs, i + 1);
    }
  }

  /** One more line moves the scan by `Advance`. */
  lemma StateStep(lines: seq<string>, i: nat)
    requires i < |lines|
    ensures StateAfter(lines, i + 1) == Advance(StateAfter(lines, i), lines[i])
  {
  }

  /** A check that passes does not change which failure comes first. */
  lemma FirstFailureSkip(cs: seq<Option<RowMismatch>>, i: nat)
    requires i < |cs| && cs[i].None?
    ensures FirstFailure(cs, i) == FirstFailure(cs, i + 1)
  {
  }

  /** The failure reported is the first failed check at or after `i`. */
  lemma {:induction false} FirstFailureAt(cs: seq<Option<RowMismatch>>, i: nat) returns (j: nat)
    requires i <= |cs| && FirstFailure(cs, i).Some?
    ensures i <= j < |cs| && cs[j] == FirstFailure(cs, i)
    ensures forall q :: i <= q < j ==> cs[q].None?
    decreases |cs| - i
  {
    if cs[i].Some? {
      j := i;
    } else {
      j := FirstFailureAt(cs, i + 1);
    }
  }

  /**
   * A text is valid exactly when every line of the stripped text passes its check, and an
   * error names the first line that does not.
   */
  lemma ValidIff(text: string)
    ensures var lines := SplitLines(Strip(text));
      ValidateSpec(text) == Ok(true)
      <==> forall j :: 0 <= j < |lines| ==> CheckRow(StateAfter(lines, j), j, lines[j]).None?
  {
    var lines := SplitLines(Strip(text));
    FirstFailureNone(Checks(lines), 0);
    if Strip(text) == [] {
      assert lines == [];
    }
  }

  /**
   * A ValueError is raised for a line `j` that is a row of an open section: it names that
   * section, gives `j + 1` as the row, and reports the row's field count, the section's
   * column count (which differ) and the row's first 50 characters. Every earlier line passes.
   */
  lemma ErrorNamesRow(text: string) returns (j: nat)
    requires ValidateSpec(text).Err?
    ensures j < |SplitLines(Strip(text))|
    ensures var lines := SplitLines(Strip(text));
      var e := ValidateSpec(text).error;
      var l := Strip(lines[j]);
      e.row == j + 1
      && l != [] && SectionHeader(l).None? && StateAfter(lines, j).name == Some(e.section)
      && e.found == |SplitTopLevel(l)| && e.expected == StateAfter(lines, j).expected
      && e.found != e.expected && e.content == Slice(l, 0, 50)
      && forall q :: 0 <= q < j ==> CheckRow(StateAfter(lines, q), q, lines[q]).None?
  {
    var lines := SplitLines(Strip(text));
    j := FirstFailureAt(Checks(lines), 0);
  }

  /** A blank line closes the section, whatever was open. */
  lemma BlankCloses(lines: seq<string>, i: nat)
    requires i < |lines| && AllSpace(lines[i])
    ensures StateAfter(lines, i + 1).name.None?
  {
    StripEmpty(lines[i]);
  }

  /** The section in force is the one the last section header opened, provided no blank line came since. */
  lemma {:induction false} SectionInForce(lines: seq<string>, h: nat, j: nat)
    requires h < j <= |lines| && SectionHeader(Strip(lines[h])).Some?
    requires forall q :: h < q < j ==> Strip(lines[q]) != [] && SectionHeader(Strip(lines[q])).None?
    ensures var m := SectionHeader(Strip(lines[h])).value;
      StateAfter(lines, j) == Section(Some(m.name), |SplitOn(m.cols, ',')|)
    decreases j
  {
    if j > h + 1 {
      SectionInForce(lines, h, j - 1);
    }
  }

  /** The example table: a `users` header with two columns, a full row and a row missing a field. */
  const ExampleHeader := "users{name,age}"
  const ExampleText := ExampleHeader + "\n" + "Ana,30" + "\n" + "Bruno"

  /** The example text is already stripped and splits into its three lines. */
  lemma ExampleLines()
    ensures SplitLines(Strip(ExampleText)) == [ExampleHeader, "Ana,30", "Bruno"]
  {
    var lines := [ExampleHeader, "Ana,30", "Bruno"];
    assert Join(lines, "\n") == ExampleText by {
      assert lines[1..] == ["Ana,30", "Bruno"];
      assert Join(["Ana,30", "Bruno"], "\n") == "Ana,30" + "\n" + "Bruno";
    }
    assert forall r :: r in lines ==> NoLineBreak(r);
    SplitLinesJoin(lines);
    assert Stripped(ExampleText);
    StripOfStripped(ExampleText);
  }

  /** The header opens section `users` with two columns. */
  lemma ExampleSection()
    ensures Advance(Start, ExampleHeader) == Section(Some("users"), 2)
    ensures CheckRow(Start, 0, ExampleHeader).None?
  {
    ExampleHeaderLine();
    ExampleColumns();
  }

  lemma ExampleHeaderLine()
    ensures Strip(ExampleHeader) == ExampleHeader
    ensures SectionHeader(ExampleHeader) == Some(HeaderLine("users", "name,age"))
  {
    StripOfStripped(ExampleHeader);
    assert "users" + "{" + "name,age" + "}" == ExampleHeader;
    SectionHeaderMatches("users", "name,age");
  }

  lemma ExampleColumns()
    ensures |SplitOn("name,age", ',')| == 2
  {
    assert Join(["name", "age"], [',']) == "name,age";
    SplitOnJoin(["name", "age"], ',');
  }

  /** The first row has two top-level fields, the second only one; neither is a header. */
  lemma ExampleRows()
    ensures SectionHeader("Ana,30").None? && SectionHeader("Bruno").None?
    ensures |SplitTopLevel("Ana,30")| == 2 && |SplitTopLevel("Bruno")| == 1
  {
    NoBraceNotHeader("Ana,30");
    NoBraceNotHeader("Bruno");
    PlainNeutral("Ana");
    PlainNeutral("30");
    assert Join(["Ana", "30"], [','] + []) == "Ana,30";
    SplitJoin(["Ana", "30"], []);
    PlainNeutral("Bruno");
    NeutralOnePiece("Bruno");
  }

  /**
   * A row missing a field is reported: `users{name,age}`, `Ana,30`, `Bruno` fails at
   * line 3 of section `users`, with one field found, two expected, and the row as content.
   */
  lemma MissingFieldReported()
    ensures ValidateSpec(ExampleText) == Err(RowMismatch("users", 3, 1, 2, "Bruno"))
  {
    var lines := [ExampleHeader, "Ana,30", "Bruno"];
    ExampleLines();
    ExampleChecks();
    var cs := Checks(lines);
    FirstFailureSkip(cs, 0);
    FirstFailureSkip(cs, 1);
  }

  /** Line by line: the header and `Ana,30` pass, `Bruno` is one field short. */
  lemma ExampleChecks()
    ensures var cs := Checks([ExampleHeader, "Ana,30", "Bruno"]);
      cs[0].None? && cs[1].None? && cs[2] == Some(RowMismatch("users", 3, 1, 2, "Bruno"))
  {
    var lines := [ExampleHeader, "Ana,30", "Bruno"];
    ExampleSection();
    ExampleRows();
    StripOfStripped("Ana,30");
    StripOfStripped("Bruno");
    assert StateAfter(lines, 1) == Section(Some("users"), 2);
    assert StateAfter(lines, 2) == Section(Some("users"), 2);
  }
}
