/**
 * The scalar layer of the TOON codec: `ToonEncoder.encode_value`, which writes any value
 * inline (nested lists and objects included), and `ToonDecoder.parse_value`, which reads
 * one token back.
 */
module ToonScalar {
  import opened Wrappers
  import opened Strings
  import opened ToonValue
  import opened ToonTokenizer

  /* ---------------------------------------------------------------------------------- */
  /* Integers                                                                           */
  /* ---------------------------------------------------------------------------------- */

  function DigitChar(d: nat): char
    requires d < 10
  {
    ('0' as int + d) as char
  }

  predicate AllDigits(s: string) {
    forall k :: 0 <= k < |s| ==> IsDigit(s[k])
  }

  /** `str(n)` for a non-negative int: its decimal digits, without leading zeros. */
  function NatText(n: nat): (r: string)
    ensures r != [] && AllDigits(r)
    decreases n
  {
    if n < 10 then [DigitChar(n)] else NatText(n / 10) + [DigitChar(n % 10)]
  }

  /** `str(i)` for an int. */
  function IntText(i: int): string {
    if i < 0 then "-" + NatText(-i) else NatText(i)
  }

  /** The number a run of decimal digits denotes (leading zeros allowed, as `int()` allows them). */
  function DigitsValue(s: string): nat
    requires AllDigits(s)
    decreases |s|
  {
    if s == [] then 0 else DigitsValue(s[..|s| - 1]) * 10 + (s[|s| - 1] as int - '0' as int)
  }

  /** The text after an optional leading `-`. */
  function Unsigned(s: string): string {
    if s != [] && s[0] == '-' then s[1..] else s
  }

  /** `re.fullmatch(r"-?\d+", s)`, with ASCII digits. */
  predicate IsIntText(s: string) {
    var b := Unsigned(s);
    b != [] && AllDigits(b)
  }

  /** `re.fullmatch(r"-?\d+\.\d+", s)`, with ASCII digits. */
  predicate IsFloatText(s: string) {
    var b := Unsigned(s);
    var j := Find(b, '.', 0);
    1 <= j < |b| - 1 && AllDigits(b[..j]) && AllDigits(b[j + 1..])
  }

  /** `int(s)` for a text that `IsIntText` accepts. */
  function ParseInt(s: string): int
    requires IsIntText(s)
  {
    if s[0] == '-' then -(DigitsValue(s[1..]) as int) else DigitsValue(s)
  }

  lemma {:induction false} NatTextValue(n: nat)
    ensures DigitsValue(NatText(n)) == n
    decreases n
  {
    if n >= 10 {
      NatTextValue(n / 10);
      var t := NatText(n / 10) + [DigitChar(n % 10)];
      assert t[..|t| - 1] == NatText(n / 10);
    }
  }

  /** `int(str(i)) == i`, and the text is one `int()` is applied to. */
  lemma IntTextRoundTrip(i: int)
    ensures IsIntText(IntText(i)) && ParseInt(IntText(i)) == i
  {
    if i < 0 {
      NatTextValue(-i);
      assert ("-" + NatText(-i))[1..] == NatText(-i);
    } else {
      NatTextValue(i);
    }
  }

  /* ---------------------------------------------------------------------------------- */
  /* Strings                                                                            */
  /* ---------------------------------------------------------------------------------- */

  /** `re.match(r"^-?\d", s)`: a digit, possibly after a minus sign, opens the text. */
  predicate DigitLeading(s: string) {
    s != [] && (IsDigit(s[0]) || (s[0] == '-' && |s| >= 2 && IsDigit(s[1])))
  }

  /** The characters that force quoting. */
  predicate Special(c: char) {
    c == ',' || c == '[' || c == ']' || c == '{' || c == '}' || c == '\n' || c == '\r' || c == '"'
  }

  predicate HasSpecial(s: string) {
    exists k :: 0 <= k < |s| && Special(s[k])
  }

  /** The lower-cased text reads as a literal of the format. */
  predicate IsKeyword(s: string) {
    var l := Lower(s);
    l == "true" || l == "false" || l == "null" || l == "none"
  }

  /** The string would not read back as itself unquoted. */
  predicate NeedsQuotes(s: string) {
    DigitLeading(s) || HasSpecial(s) || IsKeyword(s)
  }

  function Quote(s: string): (r: string)
    ensures |r| == |s| + 2 && r[0] == '"' && r[|r| - 1] == '"' && Inner(r) == s
  {
    "\"" + s + "\""
  }

  /** `s.replace('"', '\\"')` */
  function Escape(s: string): (r: string)
    ensures (forall k :: 0 <= k < |s| ==> s[k] != '"') ==> r == s
    decreases |s|
  {
    if s == [] then []
    else (if s[0] == '"' then "\\\"" else [s[0]]) + Escape(s[1..])
  }

  /** `s.replace('\\"', '"')`: occurrences are replaced left to right, without overlap. */
  function Unescape(s: string): (r: string)
    ensures (forall k :: 0 <= k < |s| ==> s[k] != '\\') ==> r == s
    decreases |s|
  {
    if s == [] then []
    else if |s| >= 2 && s[0] == '\\' && s[1] == '"' then "\"" + Unescape(s[2..])
    else [s[0]] + Unescape(s[1..])
  }

  /**
   * Unescaping undoes escaping for every string, backslashes included: an original
   * backslash is never followed by a bare quote once quotes are escaped.
   */
  lemma {:induction false} UnescapeEscape(s: string)
    ensures Unescape(Escape(s)) == s
    decreases |s|
  {
    if s != [] {
      var rest := Escape(s[1..]);
      UnescapeEscape(s[1..]);
      if s[0] == '"' {
        assert Escape(s) == "\\\"" + rest;
        assert Escape(s)[2..] == rest;
      } else {
        assert Escape(s) == [s[0]] + rest;
        assert Escape(s)[1..] == rest;
        if s[0] == '\\' && rest != [] {
          EscapeHead(s[1..]);
        }
      }
      assert [s[0]] + s[1..] == s;
    }
  }

  /** An escaped text never begins with a bare quote. */
  lemma EscapeHead(s: string)
    requires Escape(s) != []
    ensures Escape(s)[0] != '"'
  {
  }

  /** `encode_value` on a string: quoted when needed, with `"` escaped only for special characters. */
  function EncodeString(s: string): string {
    if DigitLeading(s) then Quote(s)
    else if HasSpecial(s) then Quote(Escape(s))
    else if IsKeyword(s) then Quote(s)
    else s
  }

  /** A string is quoted exactly when it needs quotes; otherwise it is written verbatim. */
  lemma EncodeStringQuoting(s: string)
    ensures NeedsQuotes(s) <==> (|EncodeString(s)| >= 2 && EncodeString(s)[0] == '"' && EncodeString(s)[|EncodeString(s)| - 1] == '"')
    ensures !NeedsQuotes(s) ==> EncodeString(s) == s
    ensures DigitLeading(s) ==> Inner(EncodeString(s)) == s
    ensures !DigitLeading(s) && HasSpecial(s) ==> EncodeString(s) == "\"" + Escape(s) + "\""
    ensures !DigitLeading(s) && !HasSpecial(s) && IsKeyword(s) ==> EncodeString(s) == "\"" + s + "\""
  {
    if !NeedsQuotes(s) && |s| >= 2 {
      assert !Special(s[0]);
    }
  }

  /** The quoting rule on examples: a numeral-looking or literal-looking string is quoted, a plain word is not. */
  lemma QuotingExamples()
    ensures EncodeString("42") == "\"42\""
    ensures EncodeString("hello") == "hello"
    ensures EncodeString("true") == "\"true\""
  {
    NumeralQuoted();
    PlainWordVerbatim();
    KeywordQuoted();
  }

  lemma NumeralQuoted()
    ensures EncodeString("42") == "\"42\""
  {
    var s := "42";
    assert DigitLeading(s);
    assert Quote(s) == "\"42\"";
  }

  lemma KeywordQuoted()
    ensures EncodeString("true") == "\"true\""
  {
    var s := "true";
    assert !DigitLeading(s);
    assert forall k :: 0 <= k < |s| ==> !Special(s[k]);
    assert Lower(s) == s;
    assert Quote(s) == "\"true\"";
  }

  lemma PlainWordVerbatim()
    ensures EncodeString("hello") == "hello"
  {
    var s := "hello";
    assert Lower(s) == s;
    assert forall k :: 0 <= k < |s| ==> !Special(s[k]);
  }

  /** A `"` is escaped only when no earlier rule applies: after a leading digit it is left bare. */
  lemma EscapingExamples()
    ensures EncodeString("1\"") == "\"1\"\""
    ensures EncodeString("a\"b") == "\"a\\\"b\""
  {
    EscapedQuote();
  }

  lemma EscapedQuote()
    ensures EncodeString("a\"b") == "\"a\\\"b\""
  {
    var s := "a\"b";
    assert !DigitLeading(s);
    assert Special(s[1]);
    assert HasSpecial(s);
    assert Escape(s[2..]) == "b";
    assert Escape(s[1..]) == "\\\"" + "b";
    assert Escape(s) == "a\\\"b";
  }

  /* ---------------------------------------------------------------------------------- */
  /* Values                                                                             */
  /* ---------------------------------------------------------------------------------- */

  /** A key as an f-string writes it: `None` for the missing name. */
  function KeyText(k: Key): string {
    match k
    case NoneKey => "None"
    case Name(n) => n
  }

  /** `ToonEncoder.encode_value`: any value on one logical line, lists and objects inline. */
  function EncodeValue(v: Value): string
    decreases v
  {
    match v
    case Null => "null"
    case Bool(b) => if b then "true" else "false"
    case Int(i) => IntText(i)
    case Float(t) => t
    case Str(s) => EncodeString(s)
    case List(items) =>
      "[" + Join(seq(|items|, k requires 0 <= k < |items| => EncodeValue(items[k])), ", ") + "]"
    case Object(fields) =>
      "{" + Join(seq(|fields|, k requires 0 <= k < |fields| => EncodeField(fields[k])), ", ") + "}"
  }

  /** One `k: v` entry of an inline object. */
  function EncodeField(f: Field): string
    decreases f
  {
    KeyText(f.key) + ": " + EncodeValue(f.val)
  }

  /** `ToonDecoder.parse_value`: one (possibly padded) token to a value. */
  function ParseValue(token: string): Value
    decreases |token|, 2
  {
    ParseToken(Strip(token))
  }

  /** The literals, matched case-insensitively: `null`/`none`, `true`, `false`. */
  function Literal(tok: string): Option<Value> {
    var low := Lower(tok);
    if low == "null" || low == "none" then Some(Null)
    else if low == "true" then Some(Bool(true))
    else if low == "false" then Some(Bool(false))
    else None
  }

  /** `parse_value` once the token is stripped. */
  function ParseToken(tok: string): Value
    decreases |tok|, 1
  {
    if tok == [] then Null
    else if Literal(tok).Some? then Literal(tok).value
    else if tok[0] == '"' && tok[|tok| - 1] == '"' then Str(Unescape(Inner(tok)))
    else if tok[0] == '[' && tok[|tok| - 1] == ']' then ParseList(tok)
    else if tok[0] == '{' && tok[|tok| - 1] == '}' then ParseObject(tok)
    else ParseWord(tok)
  }

  /** A bracketed token: its inside split at top-level commas, each piece parsed. */
  function ParseList(tok: string): Value
    requires tok != []
    decreases |tok|, 0
  {
    var inner := Strip(Inner(tok));
    if inner == [] then List([])
    else
      var ps := SplitTopLevel(inner);
      SplitTopLevelStripped(inner);
      List(seq(|ps|, k requires 0 <= k < |ps| => ParseValue(ps[k])))
  }

  /** A braced token: each top-level piece holding a `:` is an entry, later keys overwriting earlier ones. */
  function ParseObject(tok: string): Value
    requires tok != []
    decreases |tok|, 0
  {
    var inner := Strip(Inner(tok));
    if inner == [] then Object([])
    else
      var ps := SplitTopLevel(inner);
      SplitTopLevelStripped(inner);
      Object(FromPairs(Present(seq(|ps|, k requires 0 <= k < |ps| => ParseEntry(ps[k])))))
  }

  /** A bare word: an int, a float, or else the text itself. */
  function ParseWord(tok: string): Value {
    if IsIntText(tok) then Int(ParseInt(tok))
    else if IsFloatText(tok) then Float(tok)
    else Str(tok)
  }

  /** One piece of an inline object: `key: value` when it holds a `:`, nothing otherwise. */
  function ParseEntry(p: string): Option<Field>
    decreases |p|, 0
  {
    var j := Find(p, ':', 0);
    if j == |p| then None
    else Some(Field(Name(StripChar(Strip(p[..j]), '"')), ParseValue(Strip(p[j + 1..]))))
  }

  /** The entries that are there, in order. */
  function Present(entries: seq<Option<Field>>): (r: seq<Field>)
    ensures |r| <= |entries|
  {
    if entries == [] then []
    else (if entries[0].Some? then [entries[0].value] else []) + Present(entries[1..])
  }

  /* ---------------------------------------------------------------------------------- */
  /* Round trips                                                                        */
  /* ---------------------------------------------------------------------------------- */

  /** A string that reads back as itself: non-empty, no surrounding whitespace, no backslash. */
  predicate TextSafe(s: string) {
    s != [] && Stripped(s) && forall k :: 0 <= k < |s| ==> s[k] != '\\'
  }

  /** The scalars whose encoding parses back to them. */
  predicate IsScalar(v: Value) {
    v.Null? || v.Bool? || v.Int? || (v.Str? && TextSafe(v.s))
  }

  /** A token that does not open with a letter is no literal. */
  lemma NoLiteral(tok: string)
    requires tok != [] && !('a' <= tok[0] <= 'z') && !('A' <= tok[0] <= 'Z')
    ensures Literal(tok).None?
  {
    assert Lower(tok)[0] == tok[0];
  }

  lemma QuotedRoundTrip(body: string, s: string)
    requires Unescape(body) == s
    ensures ParseValue(Quote(body)) == Str(s)
  {
    var tok := Quote(body);
    StripOfStripped(tok);
    NoLiteral(tok);
  }

  lemma VerbatimRoundTrip(s: string)
    requires TextSafe(s) && !NeedsQuotes(s)
    ensures ParseValue(s) == Str(s)
  {
    StripOfStripped(s);
    assert !Special(s[0]);
    assert !Special(s[|s| - 1]);
    var b := Unsigned(s);
    if s[0] == '-' && |s| >= 2 {
      assert b[0] == s[1];
    }
    assert ParseToken(s) == ParseWord(s);
  }

  lemma IntRoundTrip(i: int)
    ensures ParseValue(IntText(i)) == Int(i)
  {
    var tok := IntText(i);
    IntTextRoundTrip(i);
    assert tok[0] == '-' || IsDigit(tok[0]);
    assert IsDigit(tok[|tok| - 1]);
    StripOfStripped(tok);
    NoLiteral(tok);
  }

  /** A lower-case word reads as the literal it names. */
  lemma LiteralWord(w: string)
    requires w == "null" || w == "true" || w == "false"
    ensures ParseValue(w) == if w == "null" then Null else Bool(w == "true")
  {
    assert Lower(w) == w;
    StripOfStripped(w);
  }

  /** The literal words read as the values they name. */
  lemma LiteralWords()
    ensures ParseValue("null") == Null
    ensures ParseValue("true") == Bool(true) && ParseValue("false") == Bool(false)
  {
    LiteralWord("null");
    LiteralWord("true");
    LiteralWord("false");
  }

  /** `parse_value(encode_value(v)) == v` for null, booleans, ints and safe strings. */
  lemma ScalarRoundTrip(v: Value)
    requires IsScalar(v)
    ensures ParseValue(EncodeValue(v)) == v
  {
    match v
    case Null => LiteralWords();
    case Bool(b) => LiteralWords();
    case Int(i) => IntRoundTrip(i);
    case Str(s) =>
      if DigitLeading(s) || (!HasSpecial(s) && IsKeyword(s)) {
        QuotedRoundTrip(s, s);
      } else if HasSpecial(s) {
        UnescapeEscape(s);
        QuotedRoundTrip(Escape(s), s);
      } else {
        VerbatimRoundTrip(s);
      }
  }

  /** A scalar that can sit in an inline list: a safe one, and a string without `"`. */
  predicate InlineSafe(v: Value) {
    IsScalar(v) && (v.Str? ==> forall k :: 0 <= k < |v.s| ==> v.s[k] != '"')
  }

  /** A text of plain characters, not padded with whitespace, is a single clean token. */
  lemma PlainToken(t: string)
    requires t != [] && !IsSpace(t[0]) && !IsSpace(t[|t| - 1])
    requires forall k :: 0 <= k < |t| ==> Plain(t[k])
    ensures Stripped(t) && Neutral(t)
  {
    PlainNeutral(t);
  }

  lemma WordTokens()
    ensures Stripped("null") && Neutral("null")
    ensures Stripped("true") && Neutral("true")
    ensures Stripped("false") && Neutral("false")
  {
    PlainToken("null");
    PlainToken("true");
    PlainToken("false");
  }

  lemma IntToken(i: int)
    ensures IntText(i) != [] && Stripped(IntText(i)) && Neutral(IntText(i))
  {
    var t := IntText(i);
    if i < 0 {
      assert t[1..] == NatText(-i);
      assert forall k :: 1 <= k < |t| ==> t[k] == t[1..][k - 1];
    }
    assert forall k :: 0 <= k < |t| ==> t[k] == '-' || IsDigit(t[k]);
    PlainToken(t);
  }

  lemma StringToken(s: string)
    requires TextSafe(s) && forall k :: 0 <= k < |s| ==> s[k] != '"'
    ensures EncodeString(s) != [] && Stripped(EncodeString(s)) && Neutral(EncodeString(s))
  {
    if NeedsQuotes(s) {
      QuotedString(s);
      QuotedNeutral(s);
    } else {
      assert EncodeString(s) == s;
      assert forall k :: 0 <= k < |s| ==> !Special(s[k]);
      PlainToken(s);
    }
  }

  /** A string that needs quotes and holds no `"` is written between quotes as it is. */
  lemma QuotedString(s: string)
    requires NeedsQuotes(s) && forall k :: 0 <= k < |s| ==> s[k] != '"'
    ensures EncodeString(s) == "\"" + s + "\""
  {
  }

  /** The encoding of an inline-safe scalar is a single stripped, non-empty, neutral token. */
  lemma InlineToken(v: Value)
    requires InlineSafe(v)
    ensures EncodeValue(v) != [] && Stripped(EncodeValue(v)) && Neutral(EncodeValue(v))
  {
    match v
    case Null => WordTokens();
    case Bool(b) => WordTokens();
    case Int(i) => IntToken(i);
    case Str(s) => StringToken(s);
  }

  /** A bracketed, stripped, non-empty inside is read piece by piece. */
  lemma ParseBracketed(body: string)
    requires body != [] && Stripped(body)
    ensures var v := ParseValue("[" + body + "]"); var ps := SplitTopLevel(body);
      v.List? && |v.items| == |ps| && forall k :: 0 <= k < |ps| ==> v.items[k] == ParseValue(ps[k])
  {
    var tok := "[" + body + "]";
    assert Inner(tok) == body;
    BracketToken(tok);
    StripOfStripped(body);
  }

  /** A stripped token between brackets is read as a list. */
  lemma BracketToken(tok: string)
    requires |tok| >= 2 && tok[0] == '[' && tok[|tok| - 1] == ']'
    ensures ParseValue(tok) == ParseList(tok)
  {
    StripOfStripped(tok);
    BracketNoLiteral(tok);
    BracketParse(tok);
  }

  /** Past the literals, a bracketed token takes the list branch. */
  lemma BracketParse(tok: string)
    requires |tok| >= 2 && tok[0] == '[' && tok[|tok| - 1] == ']' && Literal(tok).None?
    ensures ParseToken(tok) == ParseList(tok)
  {
  }

  /** A token that opens with `[` is no literal. */
  lemma BracketNoLiteral(tok: string)
    requires |tok| >= 2 && tok[0] == '['
    ensures Literal(tok).None?
  {
    NoLiteral(tok);
  }

  /** `[]` reads as the empty list. */
  lemma EmptyBrackets()
    ensures ParseValue("[]") == List([])
  {
    StripOfStripped("[]");
    NoLiteral("[]");
    assert ParseValue("[]") == ParseToken("[]") == ParseList("[]");
    assert Inner("[]") == [];
  }

  /** The encodings of inline-safe scalars, joined by `, `, split back into themselves. */
  lemma InlineJoin(items: seq<Value>) returns (encs: seq<string>)
    requires |items| >= 1 && forall k :: 0 <= k < |items| ==> InlineSafe(items[k])
    ensures encs == seq(|items|, k requires 0 <= k < |items| => EncodeValue(items[k]))
    ensures Join(encs, ", ") != [] && Stripped(Join(encs, ", "))
    ensures SplitTopLevel(Join(encs, ", ")) == encs
  {
    encs := seq(|items|, k requires 0 <= k < |items| => EncodeValue(items[k]));
    forall k | 0 <= k < |items|
      ensures encs[k] != [] && Stripped(encs[k]) && Neutral(encs[k])
    {
      InlineToken(items[k]);
    }
    JoinFirst(encs, ", ");
    JoinLast(encs, ", ");
    assert ", " == [','] + " ";
    SplitJoin(encs, " ");
  }

  /** `parse_value(encode_value(xs)) == xs` for a list of inline-safe scalars. */
  lemma ListRoundTrip(items: seq<Value>)
    requires forall k :: 0 <= k < |items| ==> InlineSafe(items[k])
    ensures ParseValue(EncodeValue(List(items))) == List(items)
  {
    if items == [] {
      assert EncodeValue(List(items)) == "[" + [] + "]" == "[]";
      EmptyBrackets();
    } else {
      var encs := InlineJoin(items);
      BracketedRoundTrip(items, encs);
    }
  }

  lemma BracketedRoundTrip(items: seq<Value>, encs: seq<string>)
    requires |items| >= 1 && forall k :: 0 <= k < |items| ==> InlineSafe(items[k])
    requires encs == seq(|items|, k requires 0 <= k < |items| => EncodeValue(items[k]))
    requires Join(encs, ", ") != [] && Stripped(Join(encs, ", "))
    requires SplitTopLevel(Join(encs, ", ")) == encs
    ensures ParseValue("[" + Join(encs, ", ") + "]") == List(items)
  {
    ParseBracketed(Join(encs, ", "));
    var parsed := ParseValue("[" + Join(encs, ", ") + "]").items;
    forall k | 0 <= k < |items|
      ensures parsed[k] == items[k]
    {
      ScalarRoundTrip(items[k]);
    }
    assert parsed == items;
  }

  /** An empty token, or one of only whitespace, reads as `None`. */
  lemma ParseBlank(token: string)
    requires AllSpace(token)
    ensures ParseValue(token) == Null
  {
    StripEmpty(token);
  }

  /** Surrounding whitespace never changes what a token reads as. */
  lemma ParsePadded(token: string)
    ensures ParseValue(token) == ParseValue(Strip(token))
  {
    StripIdempotent(token);
  }
}
