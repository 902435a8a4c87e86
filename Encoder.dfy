/**
 * The block layer of the TOON encoder: `ToonEncoder._encode_list_block` and
 * `ToonEncoder.encode`. A list becomes one block (an empty header, an inline list, or a
 * table whose columns are the first item's keys); an object is either "simple" (one
 * header line and one row) or a sequence of blocks separated by a blank line.
 */
module ToonEncoder {
  import opened Wrappers
  import opened Strings
  import opened ToonValue
  import opened ToonScalar

  /** The exceptions `encode` can raise. */
  datatype EncodeError =
    | KeyNotText    // `",".join(keys)` meets a `None` key: TypeError
    | NoGet         // a later table item is not a dict, so it has no `.get`: AttributeError
    | NotContainer  // the input is neither a dict nor a list: TypeError

  /** `",".join(keys)` needs every key to be a string. */
  function KeyNames(keys: seq<Key>): (r: Result<seq<string>, EncodeError>)
    ensures r.Ok? <==> forall j :: 0 <= j < |keys| ==> keys[j].Name?
    ensures r.Ok? ==> |r.value| == |keys| && forall j :: 0 <= j < |keys| ==> r.value[j] == keys[j].name
    ensures r.Err? ==> r.error == KeyNotText
    decreases |keys|
  {
    if keys == [] then Ok([])
    else if keys[0].NoneKey? then Err(KeyNotText)
    else
      match KeyNames(keys[1..])
      case Err(e) => Err(e)
      case Ok(rest) => Ok([keys[0].name] + rest)
  }

  /** The text before a block's `{` or `[`: the name, when there is one. */
  function Prefix(name: Key): string {
    match name
    case NoneKey => []
    case Name(n) => n
  }

  /** A header line: the prefix, then the keys joined by `,` in braces. */
  function Header(prefix: string, keys: seq<Key>): Result<string, EncodeError> {
    var names :- KeyNames(keys);
    Ok(prefix + "{" + Join(names, ",") + "}")
  }

  /** The cells of one table row: `it.get(k)` for every column, `None` when the key is missing. */
  function Cells(keys: seq<Key>, fields: seq<Field>): (r: seq<string>)
    ensures |r| == |keys|
  {
    seq(|keys|, j requires 0 <= j < |keys| => EncodeValue(Get(fields, keys[j])))
  }

  function Row(keys: seq<Key>, fields: seq<Field>): string {
    Join(Cells(keys, fields), ",")
  }

  /**
   * The rows of a table, one per item. An item that is not a dict raises AttributeError,
   * but only when there are columns to look up: with none, the generator never calls `.get`.
   */
  function TableRows(keys: seq<Key>, items: seq<Value>): (r: Result<seq<string>, EncodeError>)
    ensures r.Ok? ==> |r.value| == |items|
    decreases |items|
  {
    if items == [] then Ok([])
    else
      var row :- if items[0].Object? then Ok(Row(keys, items[0].fields))
                 else if keys == [] then Ok("")
                 else Err(NoGet);
      var rest :- TableRows(keys, items[1..]);
      Ok([row] + rest)
  }

  /** `_encode_list_block(name, items)` */
  function EncodeListBlock(name: Key, items: seq<Value>): Result<string, EncodeError> {
    var prefix := Prefix(name);
    if items == [] then Ok(prefix + "{}")
    else if !items[0].Object? then Ok(prefix + EncodeValue(List(items)))
    else
      var keys := Keys(items[0].fields);
      var header :- Header(prefix, keys);
      var rows :- TableRows(keys, items);
      Ok(header + "\n" + Join(rows, "\n"))
  }

  /** A value that forces the block layout: a dict, or a list whose first item is a dict. */
  predicate IsComplex(v: Value) {
    v.Object? || (v.List? && |v.items| > 0 && v.items[0].Object?)
  }

  predicate HasComplex(fields: seq<Field>) {
    exists j :: 0 <= j < |fields| && IsComplex(fields[j].val)
  }

  /** The block for one entry of a complex dict. */
  function Block(f: Field): Result<string, EncodeError> {
    match f.val
    case List(items) => EncodeListBlock(f.key, items)
    case Object(inner) =>
      var keys := Keys(inner);
      var names :- KeyNames(keys);
      Ok(KeyText(f.key) + "{" + Join(names, ",") + "}\n" + Row(keys, inner))
    case _ => Ok(KeyText(f.key) + ": " + EncodeValue(f.val))
  }

  /** The blocks of the entries, in order; the first failing entry decides the error. */
  function Blocks(fields: seq<Field>): (r: Result<seq<string>, EncodeError>)
    ensures r.Ok? ==> |r.value| == |fields|
    decreases |fields|
  {
    if fields == [] then Ok([])
    else
      var init :- Blocks(fields[..|fields| - 1]);
      var last :- Block(fields[|fields| - 1]);
      Ok(init + [last])
  }

  /** What `encode` returns or raises for `data`. */
  function EncodeSpec(data: Value): Result<string, EncodeError> {
    match data
    case List(items) => EncodeListBlock(NoneKey, items)
    case Object(fields) =>
      if !HasComplex(fields) then
        var keys := Keys(fields);
        var header :- Header([], keys);
        Ok(header + "\n" + Row(keys, fields))
      else
        var blocks :- Blocks(fields);
        Ok(Join(blocks, "\n\n"))
    case _ => Err(NotContainer)
  }

  /** Once a prefix of the entries fails, the whole sequence fails with the same error. */
  lemma {:induction false} BlocksPrefixErr(fields: seq<Field>, n: nat)
    requires n <= |fields| && Blocks(fields[..n]).Err?
    ensures Blocks(fields) == Blocks(fields[..n])
    decreases |fields| - n
  {
    if n < |fields| {
      var next := fields[..n + 1];
      assert next[..n] == fields[..n];
      BlocksPrefixErr(fields, n + 1);
    } else {
      assert fields[..n] == fields;
    }
  }

  /** `ToonEncoder.encode`: a list is one list block; a dict is one row, or blocks when some value is complex. */
  method Encode(data: Value) returns (r: Result<string, EncodeError>)
    ensures r == EncodeSpec(data)
  {
    if data.List? {
      return EncodeListBlock(NoneKey, data.items);
    }
    if !data.Object? {
      return Err(NotContainer);
    }
    var fields := data.fields;
    var hasComplex := ScanComplex(fields);
    if !hasComplex {
      var keys := Keys(fields);
      var header :- Header([], keys);
      return Ok(header + "\n" + Row(keys, fields));
    }
    r := EncodeBlocks(fields);
  }

  /** The scan in `encode` for a value that forces the block layout; it stops at the first one. */
  method ScanComplex(fields: seq<Field>) returns (found: bool)
    ensures found <==> HasComplex(fields)
  {
    var i := 0;
    while i < |fields|
      invariant 0 <= i <= |fields|
      invariant !HasComplex(fields[..i])
    {
      var v := fields[i].val;
      if v.Object? {
        assert IsComplex(fields[i].val);
        return true;
      }
      if v.List? && |v.items| > 0 && v.items[0].Object? {
        assert IsComplex(fields[i].val);
        return true;
      }
      assert fields[..i + 1] == fields[..i] + [fields[i]];
      i := i + 1;
    }
    assert fields[..i] == fields;
    return false;
  }

  /** The block loop in `encode`: one block per entry, joined by blank lines; the first entry that fails fails it. */
  method EncodeBlocks(fields: seq<Field>) returns (r: Result<string, EncodeError>)
    ensures r.Ok? <==> Blocks(fields).Ok?
    ensures r.Ok? ==> r.value == Join(Blocks(fields).value, "\n\n")
    ensures r.Err? ==> r.error == Blocks(fields).error
  {
    var blocks: seq<string> := [];
    var i := 0;
    while i < |fields|
      invariant 0 <= i <= |fields|
      invariant Blocks(fields[..i]) == Ok(blocks)
    {
      var next := fields[..i + 1];
      assert next[..i] == fields[..i] && next[i] == fields[i];
      var block := Block(fields[i]);
      if block.Err? {
        BlocksPrefixErr(fields, i + 1);
        return Err(block.error);
      }
      blocks := blocks + [block.value];
      i := i + 1;
    }
    assert fields[..i] == fields;
    return Ok(Join(blocks, "\n\n"));
  }

  /* ---------------------------------------------------------------------------------- */
  /* Properties                                                                         */
  /* ---------------------------------------------------------------------------------- */

  /** An empty list is an empty header: `{}`, or `name{}`. */
  lemma EmptyListBlock(name: Key)
    ensures EncodeListBlock(name, []) == Ok(Prefix(name) + "{}")
    ensures EncodeSpec(List([])) == Ok("{}")
  {
    assert Prefix(NoneKey) + "{}" == "{}";
  }

  /** Anything but a dict or a list is refused with TypeError. */
  lemma EncodeRejects(data: Value)
    requires !data.List? && !data.Object?
    ensures EncodeSpec(data) == Err(NotContainer)
  {
  }

  /** A list whose first item is not a dict is written inline, exactly as `encode_value` writes it. */
  lemma InlineListBlock(name: Key, items: seq<Value>)
    requires items != [] && !items[0].Object?
    ensures EncodeListBlock(name, items) == Ok(Prefix(name) + EncodeValue(List(items)))
  {
  }

  /** A column the item lacks reads `null`; entries outside the columns are dropped. */
  lemma RowCells(keys: seq<Key>, fields: seq<Field>, extra: Field)
    requires extra.key !in keys
    ensures forall j :: 0 <= j < |keys| && keys[j] !in Keys(fields) ==> Cells(keys, fields)[j] == "null"
    ensures Row(keys, fields + [extra]) == Row(keys, fields)
  {
    forall j | 0 <= j < |keys| && keys[j] !in Keys(fields)
      ensures Cells(keys, fields)[j] == "null"
    {
      assert IndexOf(fields, keys[j]).None?;
    }
    forall j | 0 <= j < |keys|
      ensures Get(fields + [extra], keys[j]) == Get(fields, keys[j])
    {
      IndexOfExtend(fields, extra, keys[j]);
    }
    assert Cells(keys, fields + [extra]) == Cells(keys, fields);
  }

  /**
   * A table of dicts: a header from the first item's keys and then one row per item,
   * the rows separated by single newlines.
   */
  lemma TableBlock(name: Key, items: seq<Value>)
    requires items != [] && items[0].Object?
    requires forall j :: 0 <= j < |items[0].fields| ==> items[0].fields[j].key.Name?
    requires forall i :: 0 <= i < |items| ==> items[i].Object?
    ensures EncodeListBlock(name, items).Ok?
    ensures var keys := Keys(items[0].fields);
      exists rows: seq<string> ::
        |rows| == |items| &&
        (forall i :: 0 <= i < |items| ==> rows[i] == Row(keys, items[i].fields)) &&
        EncodeListBlock(name, items).value == Header(Prefix(name), keys).value + "\n" + Join(rows, "\n")
  {
    var keys := Keys(items[0].fields);
    TableRowsOk(keys, items);
  }

  lemma {:induction false} TableRowsOk(keys: seq<Key>, items: seq<Value>)
    requires forall i :: 0 <= i < |items| ==> items[i].Object?
    ensures TableRows(keys, items).Ok?
    ensures forall i :: 0 <= i < |items| ==> TableRows(keys, items).value[i] == Row(keys, items[i].fields)
    decreases |items|
  {
    if items != [] {
      TableRowsOk(keys, items[1..]);
    }
  }

  /** A later item that is not a dict raises AttributeError, provided there are columns. */
  lemma TableNeedsDicts(name: Key, items: seq<Value>, i: nat)
    requires items != [] && items[0].Object? && items[0].fields != []
    requires forall j :: 0 <= j < |items[0].fields| ==> items[0].fields[j].key.Name?
    requires i < |items| && !items[i].Object?
    ensures EncodeListBlock(name, items) == Err(NoGet)
  {
    TableRowsErr(Keys(items[0].fields), items, i);
  }

  lemma {:induction false} TableRowsErr(keys: seq<Key>, items: seq<Value>, i: nat)
    requires keys != [] && i < |items| && !items[i].Object?
    ensures TableRows(keys, items) == Err(NoGet)
    decreases i
  {
    if i > 0 && items[0].Object? {
      TableRowsErr(keys, items[1..], i - 1);
    }
  }

  /** A dict is written as one header and one row exactly when none of its values is complex. */
  lemma SimpleObject(fields: seq<Field>)
    requires !HasComplex(fields)
    requires forall j :: 0 <= j < |fields| ==> fields[j].key.Name?
    ensures EncodeSpec(Object(fields)) == Ok(Header([], Keys(fields)).value + "\n" + Row(Keys(fields), fields))
  {
  }

  /** A complex dict is its blocks, one per entry, separated by exactly one blank line. */
  lemma ComplexObject(fields: seq<Field>)
    requires HasComplex(fields) && Blocks(fields).Ok?
    ensures |Blocks(fields).value| == |fields|
    ensures EncodeSpec(Object(fields)) == Ok(Join(Blocks(fields).value, "\n\n"))
  {
  }

  /** A `None` key among the columns of a dict raises TypeError. */
  lemma NoneKeyRejected(fields: seq<Field>, j: nat)
    requires !HasComplex(fields) && j < |fields| && fields[j].key == NoneKey
    ensures EncodeSpec(Object(fields)) == Err(KeyNotText)
  {
  }

  /* ---------------------------------------------------------------------------------- */
  /* Examples                                                                           */
  /* ---------------------------------------------------------------------------------- */

  /** A one-letter lower-case word is written as it is. */
  lemma LetterVerbatim(c: char)
    requires 'a' <= c <= 'z'
    ensures EncodeString([c]) == [c]
  {
    assert !Special([c][0]);
    assert |Lower([c])| == 1;
  }

  /** A list of plain words is written inline after its name. */
  lemma TagsBlock()
    ensures Block(Field(Name("tags"), List([Str("x"), Str("y")]))) == Ok("tags[x, y]")
  {
    var items := [Str("x"), Str("y")];
    LetterVerbatim('x');
    LetterVerbatim('y');
    var encs := seq(|items|, k requires 0 <= k < |items| => EncodeValue(items[k]));
    assert encs == ["x", "y"];
    assert Join(["x", "y"], ", ") == "x, y";
    assert EncodeValue(List(items)) == "[x, y]";
    InlineListBlock(Name("tags"), items);
    assert Prefix(Name("tags")) + "[x, y]" == "tags[x, y]";
  }

  /** A nested dict is its header line and its one row. */
  lemma MetaBlock()
    ensures Block(Field(Name("meta"), Object([Field(Name("k"), Int(1))]))) == Ok("meta{k}\n1")
  {
    var inner := [Field(Name("k"), Int(1))];
    var keys := Keys(inner);
    assert keys == [Name("k")];
    var kn := KeyNames(keys);
    assert kn.Ok? && kn.value[0] == "k";
    assert kn.value == ["k"];
    assert Get(inner, Name("k")) == Int(1);
    assert Cells(keys, inner) == ["1"];
    assert Join(kn.value, ",") == "k";
    assert "meta" + "{" + "k" + "}\n" + "1" == "meta{k}\n1";
  }

  /**
   * A dict holding a list and a dict is complex: `{"tags": ["x", "y"], "meta": {"k": 1}}`
   * is written as the blocks `tags[x, y]` and `meta{k}` over `1`, with one blank line between.
   */
  lemma NestedBlocks()
    ensures var fields := [Field(Name("tags"), List([Str("x"), Str("y")])), Field(Name("meta"), Object([Field(Name("k"), Int(1))]))];
      EncodeSpec(Object(fields)) == Ok("tags[x, y]\n\nmeta{k}\n1")
  {
    var fields := [Field(Name("tags"), List([Str("x"), Str("y")])), Field(Name("meta"), Object([Field(Name("k"), Int(1))]))];
    TagsBlock();
    MetaBlock();
    TwoBlocks(fields[0], fields[1], "tags[x, y]", "meta{k}\n1");
    assert IsComplex(fields[1].val);
    assert Join(["tags[x, y]", "meta{k}\n1"], "\n\n") == "tags[x, y]\n\nmeta{k}\n1";
    ComplexObject(fields);
  }

  /** Two entries whose blocks succeed give those two blocks, in order. */
  lemma TwoBlocks(f0: Field, f1: Field, b0: string, b1: string)
    requires Block(f0) == Ok(b0) && Block(f1) == Ok(b1)
    ensures Blocks([f0, f1]).Ok? && Blocks([f0, f1]).value == [b0, b1]
  {
    var fields := [f0, f1];
    var first := fields[..1];
    assert first[..|first| - 1] == [] && first[|first| - 1] == f0;
    assert Blocks(first).Ok? && Blocks(first).value == [b0];
    assert fields[..|fields| - 1] == first;
  }
}
