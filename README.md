# KaggleIngest core in Dafny

A Dafny model of the pure core of the KaggleIngest backend. The project proves properties of each part:

- **The TOON codec.** TOON (Token-Oriented Object Notation) is the compact, line-oriented text format the service writes its notebook and dataset summaries in. The model covers:
  - the scalar encoder and token parser (`encode_value`, `parse_value`);
  - the top-level comma tokenizer;
  - the block encoder (`encode`, `_encode_list_block`);
  - the header-driven decoder (`decode`);
  - the structural validator (`validate_toon`).
- **`extract_resource`.** It reads a Kaggle URL as a dataset `owner/name` or a competition slug.
- **The CORS origin list.** This is `_parse_cors_origins`, the development defaults, and the choice between them made from the `CORS_ORIGINS` and `ENV` settings.
- **`clean_notebook_content`.** It drops blank notebook cells, collapses runs of newlines in markdown, truncates inline base64 images in code, and strips every kept cell.

Layout, one module per file:

| file | module | models |
|---|---|---|
| `Wrappers.dfy` | `Wrappers` | `Option` and `Result` (an exception is an `Err`) |
| `Strings.dfy` | `Strings` | the Python `str` operations used: `isspace`, `strip`, `split`, `join`, `splitlines`, `lower`, `in` |
| `ToonValue.dfy` | `ToonValue` | the value type; dicts as insertion-ordered entry lists with `d[k] = v` and `dict(pairs)` |
| `Tokenizer.dfy` | `ToonTokenizer` | `_split_top_level_commas` |
| `Scalar.dfy` | `ToonScalar` | `encode_value`, `parse_value` |
| `Encoder.dfy` | `ToonEncoder` | `_encode_list_block`, `encode` |
| `Decoder.dfy` | `ToonDecoder` | the header pattern, `decode` |
| `Validator.dfy` | `ToonValidator` | `validate_toon` |
| `RoundTrip.dfy` | `ToonRoundTrip` | `decode(encode(x))` for the shapes the format is meant to carry |
| `Resource.dfy` | `KaggleResource` | `extract_resource` |
| `Cors.dfy` | `CorsConfig` | `_parse_cors_origins`, `DEFAULT_CORS_ORIGINS`, the `CORS_ORIGINS` selection |
| `Cleaner.dfy` | `NotebookCleaner` | `clean_notebook_content` and its two regular expressions |

**Values and errors.**
- The codec works on a closed value type: `Null | Bool | Int | Float | Str | List | Object`.
- An object is a list of entries in insertion order, as a Python `dict` keeps them. A key is a string or `None`.
- The decoder can produce a `None` key: an anonymous header among several is keyed by `m.group(1)`, which is `None` there.
- Exceptions are `Result` errors:
  - the `TypeError` for a top-level value that is neither dict nor list;
  - the `TypeError` for a `None` among the keys `",".join` writes;
  - the `AttributeError` for `.get` on a table item that is not a dict;
  - the `ValueError` of `validate_toon`;
  - the `URLParseError` of `extract_resource`.

**Form of the model.**
- Where the source works step by step, the model is a method with a loop, proved against a function:
  - the tokenizer's character scan;
  - the `has_complex_values` scan and the `blocks` list in `encode`;
  - the `result` dict that `decode` fills block by block;
  - the line loop of `validate_toon`;
  - the two cell loops of `clean_notebook_content`.
- The recursive and comprehension-shaped parts are functions.
- The `encode_to_toon` and `decode_from_toon` wrappers only forward, so they are `ToonEncoder.Encode` and `ToonDecoder.Decode` themselves.

**Behaviours of the code that the proofs pin down:**
- **Quote escaping.** `encode_value` escapes `"` only in its special-character branch (toon_encoder.py:62-63). A digit-leading or literal-looking string is quoted as it is, without escaping (toon_encoder.py:59-60, 65-66; `EscapingExamples`).
- **One-item and empty tables.** `decode` returns the only row of a lone anonymous block as a bare dict (toon_encoder.py:257-258), so a one-item list of dicts comes back as that dict (`TableRoundTrip`). `_encode_list_block` writes the empty list as `{}` (toon_encoder.py:75-76), which decodes to an empty dict (`EmptyListComesBackAsDict`).
- **Tokenizer's final piece.** `_split_top_level_commas` yields a final piece only when text remains after the last cut (toon_encoder.py:176-177), so a trailing top-level comma gives no empty final piece (`TrailingComma`).

## Model

| member | source | states |
|---|---|---|
| ToonScalar.EncodeValue | backend/core/toon_encoder.py:32-70 | the model of `encode_value`: `null`, `true`/`false`, `str` of an int, an inline `[...]` list, an inline `{k: v}` dict, and strings by `EncodeString`; its behaviour is stated by `ScalarRoundTrip`, `ListRoundTrip`, `InlineToken` and `IntTextRoundTrip` |
| ToonScalar.EncodeString | backend/core/toon_encoder.py:56-67 | the model of the string branch of `encode_value`; its behaviour is stated by `EncodeStringQuoting`, `QuotingExamples` and `EscapingExamples` |
| ToonScalar.ParseValue | backend/core/toon_encoder.py:180-225 | the model of `parse_value`: the token is stripped first, then read by `ParseToken`; its behaviour is stated by `ParsePadded`, `ParseBlank` and `ScalarRoundTrip` |
| ToonScalar.ParseToken | backend/core/toon_encoder.py:183-225 | the model of the branches of `parse_value` on a stripped token, in source order: empty, literal, quoted, bracketed, braced, int, float, bare word; its behaviour is stated by `LiteralWords`, `NoLiteral`, `QuotedRoundTrip`, `ParseBracketed`, `EmptyBrackets`, `IntRoundTrip` and `VerbatimRoundTrip` |
| ToonScalar.EncodeStringQuoting | backend/core/toon_encoder.py:56-67 | a string is written between quotes exactly when it starts with an optional `-` and a digit, holds one of `, [ ] { } \n \r "`, or lower-cases to `true`/`false`/`null`/`none`; otherwise it is written verbatim; a digit-leading string is quoted unchanged |
| ToonScalar.QuotingExamples | backend/core/toon_encoder.py:56-67 | `42` and `true` are quoted, `hello` is not |
| ToonScalar.EscapingExamples | backend/core/toon_encoder.py:59-63 | `"` is escaped as `\"` only by the special-character branch: a digit-leading string with a quote is left unescaped |
| ToonScalar.Escape | backend/core/toon_encoder.py:63 | a string without `"` is left unchanged by the escaping |
| ToonScalar.Unescape | backend/core/toon_encoder.py:196 | a string without a backslash is left unchanged by the unescaping |
| ToonScalar.UnescapeEscape | backend/core/toon_encoder.py:195-196 | unescaping `\"` undoes the escaping of line 63 for every string, backslashes included |
| ToonScalar.NatText | backend/core/toon_encoder.py:46-47 | `str` of a natural number is a non-empty run of decimal digits |
| ToonScalar.IntTextRoundTrip | backend/core/toon_encoder.py:220-221 | the text `str(i)` writes for an int matches `-?\d+` and `int()` of it is `i` |
| ToonScalar.NatTextValue | backend/core/toon_encoder.py:46-47 | the digits written for a natural number denote that number |
| ToonScalar.IntRoundTrip | backend/core/toon_encoder.py:220-221 | an int's text parses back to that int |
| ToonScalar.LiteralWords | backend/core/toon_encoder.py:186-192 | `null`, `true` and `false` parse as `None`, `True` and `False` |
| ToonScalar.NoLiteral | backend/core/toon_encoder.py:186-192 | a token that does not open with a letter is no literal |
| ToonScalar.QuotedRoundTrip | backend/core/toon_encoder.py:195-196 | a quoted token parses to its inside with `\"` unescaped |
| ToonScalar.VerbatimRoundTrip | backend/core/toon_encoder.py:219-225 | a safe string that needs no quotes parses back to itself as a bare word |
| ToonScalar.ScalarRoundTrip | backend/core/toon_encoder.py:42-67 | `parse_value(encode_value(v)) == v` for null, booleans, ints and non-empty stripped strings without a backslash |
| ToonScalar.ListRoundTrip | backend/core/toon_encoder.py:48-49 | an inline list of such scalars, strings without `"`, parses back to the list |
| ToonScalar.InlineJoin | backend/core/toon_encoder.py:49 | the encodings of those scalars joined by `, ` split back into the encodings |
| ToonScalar.BracketedRoundTrip | backend/core/toon_encoder.py:199-205 | the bracketed join of those encodings parses to the list |
| ToonScalar.ParseBracketed | backend/core/toon_encoder.py:199-205 | a bracketed non-empty inside is a list with one item per top-level piece, each piece parsed |
| ToonScalar.EmptyBrackets | backend/core/toon_encoder.py:199-202 | `[]` parses as the empty list |
| ToonScalar.ParseBlank | backend/core/toon_encoder.py:182-184 | an empty or all-whitespace token is `None` |
| ToonScalar.ParsePadded | backend/core/toon_encoder.py:182 | surrounding whitespace never changes what a token parses to |
| ToonScalar.InlineToken | backend/core/toon_encoder.py:42-67 | the encoding of an inline-safe scalar is one non-empty, stripped token with no top-level comma |
| ToonTokenizer.SplitTopLevelCommas | backend/core/toon_encoder.py:149-177 | the character scan, with its quote flag, escape flag and depth, returns exactly `SplitTopLevel(text)`; what that cuts is stated by `QuotedNeutral` (quotes), `EscapedNeutral` (escapes), `BracketedNeutral` (brackets), `CloserNeutral` (stray closers), `PlainNeutral`, `TrailingComma` and `SplitJoin` |
| ToonTokenizer.SplitTopLevelStripped | backend/core/toon_encoder.py:173-177 | every piece is stripped and no longer than the text |
| ToonTokenizer.NeutralOnePiece | backend/core/toon_encoder.py:156-177 | a text with no top-level comma is one stripped piece, and the empty text gives no piece |
| ToonTokenizer.TrailingComma | backend/core/toon_encoder.py:176-177 | a trailing top-level comma produces no final empty piece |
| ToonTokenizer.SplitJoin | backend/core/toon_encoder.py:172-177 | stripped pieces without top-level commas, joined by `,` and optional spaces, split back into themselves |
| ToonTokenizer.EscapedComma | backend/core/toon_encoder.py:157-162 | an escaped comma is not a cut |
| ToonTokenizer.EscapedNeutral | backend/core/toon_encoder.py:157-162 | a backslash makes the next character inert, whatever it is |
| ToonTokenizer.CloserNeutral | backend/core/toon_encoder.py:169-171 | a `]` or `}` with nothing open is ignored: the scanner is left exactly as it was and nothing is cut |
| ToonTokenizer.OpenRun | backend/core/toon_encoder.py:166-174 | inside one open bracket, plain characters and commas leave the depth at one and are never cuts |
| ToonTokenizer.BracketedNeutral | backend/core/toon_encoder.py:166-174 | commas inside `[...]` or `{...}` are not cuts: the bracketed text is one unbroken run that closes back to depth zero |
| ToonTokenizer.BracketedComma | backend/core/toon_encoder.py:166-177 | an example: `[a,b],c` splits into `[a,b]` and `c` |
| ToonTokenizer.StrayCloser | backend/core/toon_encoder.py:169-177 | an example of `CloserNeutral`: `],x` splits into `]` and `x`, the stray closer not hiding the comma after it |
| ToonTokenizer.QuotedNeutral | backend/core/toon_encoder.py:163-165 | a quoted text without inner quote or backslash is never cut, whatever it holds |
| ToonTokenizer.PlainNeutral | backend/core/toon_encoder.py:166-172 | text without quotes, backslashes, brackets, braces or commas is never cut |
| ToonTokenizer.RunConcat | backend/core/toon_encoder.py:156-174 | the scan over two texts is the scan over the first, then over the second from the state reached |
| ToonValue.Put | backend/core/toon_encoder.py:277 | `d[k] = v` keeps the key order, appends a new key at the end, keeps keys distinct and makes `k` look up `v` |
| ToonValue.PutOther | backend/core/toon_encoder.py:277 | `d[k] = v` leaves every other key's value alone |
| ToonValue.FromPairs | backend/core/toon_encoder.py:259 | `dict(pairs)` has distinct keys, at most as many entries as pairs, and exactly the keys of the pairs |
| ToonValue.FromPairsLast | backend/core/toon_encoder.py:259 | in `dict(pairs)` a key holds the value of its last pair |
| ToonValue.FromPairsDistinct | backend/core/toon_encoder.py:259 | pairs with distinct keys make the dict of those entries as they are |
| ToonValue.Zip | backend/core/toon_encoder.py:259 | `zip(keys, values)` pairs as many columns and values as the shorter list has |
| ToonEncoder.KeyNames | backend/core/toon_encoder.py:118 | `",".join(keys)` succeeds exactly when every key is a string, giving the names in order, and raises `TypeError` otherwise |
| ToonEncoder.Encode | backend/core/toon_encoder.py:90-140 | a list, a flat dict and a dict with complex values are each encoded to exactly `EncodeSpec(data)`, which the lemmas below describe; anything else raises TypeError |
| ToonEncoder.ScanComplex | backend/core/toon_encoder.py:106-113 | the scan reports a complex value exactly when some value is a dict or a non-empty list that starts with a dict |
| ToonEncoder.EncodeBlocks | backend/core/toon_encoder.py:123-138 | the block loop succeeds exactly when every entry's block does, then gives those blocks joined by blank lines; otherwise it raises the first entry's error |
| ToonEncoder.EncodeRejects | backend/core/toon_encoder.py:140 | a top-level value that is neither a list nor a dict raises `TypeError` |
| ToonEncoder.EmptyListBlock | backend/core/toon_encoder.py:75-76 | an empty list is `{}` or `name{}` |
| ToonEncoder.InlineListBlock | backend/core/toon_encoder.py:79-81 | a list whose first item is not a dict is written inline after its name, as `encode_value` writes it |
| ToonEncoder.TableBlock | backend/core/toon_encoder.py:83-88 | a list of dicts is a header of the first item's keys, then one row per item, one newline apart |
| ToonEncoder.TableRowsOk | backend/core/toon_encoder.py:85-87 | every item that is a dict gives its row under the fixed columns |
| ToonEncoder.RowCells | backend/core/toon_encoder.py:86 | a column the item lacks is written `null`; an entry outside the columns is dropped |
| ToonEncoder.TableNeedsDicts | backend/core/toon_encoder.py:85-87 | a later item that is not a dict raises `AttributeError` when there are columns |
| ToonEncoder.TableRowsErr | backend/core/toon_encoder.py:85-87 | with columns, the rows fail once any item is not a dict |
| ToonEncoder.SimpleObject | backend/core/toon_encoder.py:116-120 | a dict with no complex value is its `{keys}` header and one row |
| ToonEncoder.NoneKeyRejected | backend/core/toon_encoder.py:117-118 | a `None` key in a simple dict raises `TypeError` |
| ToonEncoder.ComplexObject | backend/core/toon_encoder.py:123-138 | a complex dict is one block per entry, separated by exactly one blank line |
| ToonEncoder.BlocksPrefixErr | backend/core/toon_encoder.py:123-138 | the first entry whose block fails decides the error |
| ToonEncoder.TagsBlock | backend/core/toon_encoder.py:125-127 | a list entry of plain words is written `tags[x, y]` |
| ToonEncoder.MetaBlock | backend/core/toon_encoder.py:129-133 | a dict entry is written as its `name{keys}` header over its row |
| ToonEncoder.NestedBlocks | backend/core/toon_encoder.py:123-138 | `{"tags": ["x", "y"], "meta": {"k": 1}}` is written `tags[x, y]`, a blank line, then `meta{k}` over `1` |
| ToonDecoder.MatchHeader | backend/core/toon_encoder.py:244 | a match of `([A-Za-z0-9_]+)?\{([^}]+)\}` is the whole line: the name, `{`, non-empty columns without `}`, and `}` |
| ToonDecoder.HeaderMatches | backend/core/toon_encoder.py:244 | every line of that shape matches, with its two groups read back exactly |
| ToonDecoder.AnonymousHeader | backend/core/toon_encoder.py:244 | columns in braces with nothing before them make an anonymous header |
| ToonDecoder.NotHeader | backend/core/toon_encoder.py:244 | a line with a non-name character before any `{` is not a header |
| ToonDecoder.NoBraceNotHeader | backend/core/toon_encoder.py:244 | a line without `{` is not a header |
| ToonDecoder.HeaderSpans | backend/core/toon_encoder.py:244-245 | each match spans a whole header line of the text, ending at the end of the text or at a `\n` |
| ToonDecoder.NoHeaderLines | backend/core/toon_encoder.py:245-248 | lines none of which is a header give no match |
| ToonDecoder.NonBlank | backend/core/toon_encoder.py:255 | the kept lines are non-empty and stripped, and at most as many as the lines |
| ToonDecoder.Assignments | backend/core/toon_encoder.py:266-284 | assignment `i` puts the block of header `i` under that header's name, `None` for an anonymous header |
| ToonDecoder.DecodeBlocks | backend/core/toon_encoder.py:266-286 | the loop that fills `result` gives exactly the dict built from the assignments in header order |
| ToonDecoder.AssignmentsStep | backend/core/toon_encoder.py:276-284 | one more header puts its block under its key |
| ToonDecoder.Decode | backend/core/toon_encoder.py:228-286 | `decode` returns exactly `DecodeSpec(text)`: a bracketed text is a list token; with no header it is `parse_value` of the text; a lone anonymous header is one block; otherwise a dict of blocks |
| ToonDecoder.DecodeBlank | backend/core/toon_encoder.py:238-248 | an empty or all-whitespace text decodes to `None` |
| ToonDecoder.DecodePadded | backend/core/toon_encoder.py:238 | whitespace around the text never changes the result |
| ToonDecoder.SingleBlockShape | backend/core/toon_encoder.py:251-263 | a lone anonymous header gives a dict for exactly one data line, and otherwise a list with one dict per line |
| ToonDecoder.MultiKeys | backend/core/toon_encoder.py:266-286 | the multi-block result has distinct keys, exactly the header names |
| ToonDecoder.MultiLastWins | backend/core/toon_encoder.py:277-284 | a name repeated among the headers holds the block of its last header |
| ToonValidator.SectionHeader | backend/core/toon_encoder.py:364 | a section header is a whole line `name{cols}` with `name` in `[a-z_]+` and columns without `}` |
| ToonValidator.SectionHeaderMatches | backend/core/toon_encoder.py:364 | every line of that shape opens a section with its name and columns |
| ToonValidator.NoSectionHeader | backend/core/toon_encoder.py:364 | a header with no name, or a name outside `[a-z_]`, opens no section |
| ToonValidator.ScanLine | backend/core/toon_encoder.py:370-389 | one loop step: a blank line closes the section, a header opens one with the raw `,`-split column count, a row of an open section fails when its field count differs |
| ToonValidator.Validate | backend/core/toon_encoder.py:344-391 | `validate_toon` returns `True` or raises the first row mismatch, exactly as `ValidateSpec` |
| ToonValidator.BlankValid | backend/core/toon_encoder.py:359-361 | an empty or all-whitespace text is valid |
| ToonValidator.ValidIff | backend/core/toon_encoder.py:370-391 | a text is valid exactly when every line of the stripped text passes its check |
| ToonValidator.ErrorNamesRow | backend/core/toon_encoder.py:383-389 | an error names the open section, the 1-based line number, the field count, the different expected count and the row's first 50 characters; every earlier line passes |
| ToonValidator.BlankCloses | backend/core/toon_encoder.py:372-374 | a blank line closes the section, so later lines go unchecked until a header |
| ToonValidator.SectionInForce | backend/core/toon_encoder.py:376-381 | the section in force is the one the last header opened, provided no blank line came since |
| ToonValidator.FirstFailureAt | backend/core/toon_encoder.py:383-389 | the failure reported is the first failed check |
| ToonValidator.MissingFieldReported | backend/core/toon_encoder.py:383-389 | `users{name,age}`, `Ana,30`, `Bruno` fails at line 3 of `users`, with 1 field found and 2 expected |
| ToonValidator.MessageNames | backend/core/toon_encoder.py:389 | a column-count error message names the section and the 1-based row number, and ends with the row's first 50 characters and `...` |
| ToonRoundTrip.FlatRoundTrip | backend/core/toon_encoder.py:116-120 | `decode(encode(d)) == d` for a non-empty flat dict: distinct word keys; values that are null, booleans, ints or safe strings without `"` and without any character `splitlines()` breaks at (`\n`, `\r`, `\v`, `\f`, `\x1c`-`\x1e`, `\x85`, `\u2028`, `\u2029`); `TabbedValueSplitsRow` shows why the last six are excluded too |
| ToonRoundTrip.FlatEncoding | backend/core/toon_encoder.py:116-120 | such a dict is written as an anonymous header and one clean row that reads back as the dict |
| ToonRoundTrip.TableEncoding | backend/core/toon_encoder.py:83-88 | a list of such dicts sharing keys is the first dict's header and one clean row per dict, each reading back as its dict |
| ToonRoundTrip.TableRoundTrip | backend/core/toon_encoder.py:83-88 | such a list comes back from `decode(encode(xs))` as the list when it has two or more items, and as its only dict when it has one; the same characters are excluded from the strings |
| ToonRoundTrip.InlineListRoundTrip | backend/core/toon_encoder.py:79-81 | a non-empty list of inline-safe scalars comes back from `decode(encode(xs))` |
| ToonRoundTrip.EmptyListComesBackAsDict | backend/core/toon_encoder.py:75-76 | the empty list is written `{}`, which decodes to the empty dict |
| ToonRoundTrip.EmptyDictEncoding | backend/core/toon_encoder.py:116-120 | the empty dict is written as `{}` and an empty row |
| ToonRoundTrip.EmptyDictRoundTrip | backend/core/toon_encoder.py:116-120 | the empty dict's encoding decodes to the empty dict |
| ToonRoundTrip.EmptyBracesToken | backend/core/toon_encoder.py:208-211 | `{}` is no header line and parses as the empty dict |
| ToonRoundTrip.DecodeTable | backend/core/toon_encoder.py:251-263 | an anonymous header over clean rows decodes as one block, its rows read against its columns |
| ToonRoundTrip.HeaderWithoutRows | backend/core/toon_encoder.py:255-263 | a lone anonymous header with no data line decodes to the empty list |
| ToonRoundTrip.TabbedValueSplitsRow | backend/core/toon_encoder.py:255 | `{"a": "x\x0by"}` is written `{a}`, newline, `x\x0by` unquoted, and decodes as the two dicts `{"a": "x"}` and `{"a": "y"}`, because `splitlines()` ends a row at the vertical tab |
| ToonRoundTrip.TabbedEncoding | backend/core/toon_encoder.py:56-67 | a vertical tab forces no quotes: the dict is written as its header and the string verbatim |
| ToonRoundTrip.TabbedHeaders | backend/core/toon_encoder.py:244-245 | the header pattern cuts lines at `\n` only, so `{a}` is the one header of that text |
| ToonRoundTrip.TabbedBodyLines | backend/core/toon_encoder.py:254-255 | the body after the header splits into the rows `x` and `y` |
| ToonRoundTrip.RowLinesJoin | backend/core/toon_encoder.py:255 | corrected row splitter: rows without `\n`, non-empty and stripped, joined by newlines after the header come back as themselves, whatever other line breaks they hold |
| ToonRoundTrip.TabbedValueKept | backend/core/toon_encoder.py:255-258 | with the corrected splitter, `{"a": "x\x0by"}` decodes back to itself |
| ToonRoundTrip.HeaderAlone | backend/core/toon_encoder.py:244-245 | a header line on its own is the only match |
| ToonRoundTrip.TableHeaders | backend/core/toon_encoder.py:244-245 | a header line over clean rows is the only match |
| ToonRoundTrip.TableBody | backend/core/toon_encoder.py:254-255 | the body after the header is the rows, one per line |
| ToonRoundTrip.ColumnsBack | backend/core/toon_encoder.py:253 | word names joined by `,` split back into the column names |
| ToonRoundTrip.RowNotHeader | backend/core/toon_encoder.py:244 | a row whose first cell is quoted or holds no `{` is no header |
| ToonRoundTrip.RowReadBack | backend/core/toon_encoder.py:259 | a flat dict's row, read against its column names, gives the dict back |
| ToonRoundTrip.EntryLineNotHeader | backend/core/toon_encoder.py:136 | the `name: value` line a complex dict writes is never a header, so `decode` takes it as a row of the block before it |
| ToonRoundTrip.QuotedNumeralStaysText | backend/core/toon_encoder.py:251-259 | `{a,b}` over `"42",null` decodes to the dict with `a` the string `42` and `b` null |
| KaggleResource.Extract | backend/core/utils.py:8-28 | the model of `extract_resource`: the empty-input error, then cleaning, then `Classify`; its behaviour is stated by `ExtractErrors`, `ExtractMessage`, `ExtractPlain` and the URL lemmas below |
| KaggleResource.Classify | backend/core/utils.py:15-28 | the model of the three marker tests and the final error; its behaviour is stated by `ClassifyShape`, `ClassifyDataset`, `ClassifyCompetition`, `ClassifyShort` and `DatasetId` |
| KaggleResource.Clean | backend/core/utils.py:13 | the cleaned URL has no `?`, no `#` and no trailing `/` |
| KaggleResource.ClassifyShape | backend/core/utils.py:15-28 | a dataset exactly when `/datasets/` occurs with a `/` after its last occurrence, its id holding one `/`; a competition id has no `/`; the error exactly when no marker applies, naming the URL |
| KaggleResource.ExtractErrors | backend/core/utils.py:10-28 | a missing, non-string or empty URL is the first error; any other failure names the cleaned URL |
| KaggleResource.ExtractPlain | backend/core/utils.py:13-28 | once cleaning leaves a URL as it is, the markers alone decide |
| KaggleResource.DatasetId | backend/core/utils.py:16-18 | the id built from the first two parts holds exactly one `/` |
| KaggleResource.SurroundingSpaceIgnored | backend/core/utils.py:13 | whitespace around the URL does not matter |
| KaggleResource.QueryIgnored | backend/core/utils.py:13 | a query string does not matter |
| KaggleResource.FragmentIgnored | backend/core/utils.py:13 | a fragment does not matter |
| KaggleResource.TrailingSlashIgnored | backend/core/utils.py:13 | a trailing slash does not matter |
| KaggleResource.ClassifyDataset | backend/core/utils.py:15-18 | a URL whose last piece after `/datasets/` is `owner/name`, followed by nothing or by further `/` segments, is the dataset `owner/name`, before any competition check |
| KaggleResource.ClassifyCompetition | backend/core/utils.py:20-22 | without a dataset id, a URL whose last piece after `/competitions/` is `slug`, followed by nothing or by further `/` segments, is the competition `slug` |
| KaggleResource.ClassifyShort | backend/core/utils.py:24-26 | with neither earlier marker, a URL whose last piece after `/c/` is `slug`, followed by nothing or by further `/` segments, is the competition `slug` |
| KaggleResource.DatasetUrl | backend/core/utils.py:15-18 | `<site>/datasets/<owner>/<name>` is the dataset `owner/name` |
| KaggleResource.CompetitionUrl | backend/core/utils.py:20-22 | `<site>/competitions/<slug>` is the competition `slug` |
| KaggleResource.ShortCompetitionUrl | backend/core/utils.py:24-26 | `<site>/c/<slug>` is the competition `slug` |
| KaggleResource.OtherUrl | backend/core/utils.py:28 | `<site>/<segment>` is rejected with the cleaned URL |
| KaggleResource.CompetitionPageUrl | backend/core/utils.py:20-22 | `<site>/competitions/<slug>/<page>` is the competition `slug`: only the first segment after the marker is the id |
| KaggleResource.DatasetPageUrl | backend/core/utils.py:15-18 | `<site>/datasets/<owner>/<name>/<more>` is the dataset `owner/name`: the two segments after the marker are the id |
| KaggleResource.ShortPageUrl | backend/core/utils.py:24-26 | `<site>/c/<slug>/<page>` is the competition `slug` |
| KaggleResource.ExtractMessage | backend/core/utils.py:10-28 | the message is `URL must be a non-empty string` for a missing or empty URL, and `Invalid Kaggle URL format: ` followed by the cleaned URL otherwise |
| KaggleResource.TitanicCompetition | backend/tests/test_core.py:31-35 | `https://www.kaggle.com/competitions/titanic` is the competition `titanic` |
| KaggleResource.TitanicShort | backend/tests/test_core.py:44-48 | `https://www.kaggle.com/c/titanic` is the competition `titanic` |
| KaggleResource.TitanicOverview | backend/core/utils.py:20-22 | `https://www.kaggle.com/competitions/titanic/overview` is the competition `titanic` |
| KaggleResource.OwnerDataset | backend/tests/test_core.py:51-55 | `https://www.kaggle.com/datasets/owner/dataset-name` is the dataset `owner/dataset-name` |
| KaggleResource.RejectedUrls | backend/tests/test_core.py:58-74 | `https://www.kaggle.com/invalid`, `""` and `None` are rejected |
| CorsConfig.ParseOrigins | backend/config.py:14-30 | the model of `_parse_cors_origins`; its behaviour is stated by `ParseEmpty`, `ParseWellFormed`, `ParseMembers`, `ParseOrder` and `ParseIdempotent` |
| CorsConfig.SelectOrigins | backend/config.py:43-53 | the model of the `CORS_ORIGINS` selection; its behaviour is stated by `SelectionRule` and `SelectionWellFormed` |
| CorsConfig.ParseEmpty | backend/config.py:23-24 | an empty list allows no origin |
| CorsConfig.ParseWellFormed | backend/config.py:27-30 | every parsed origin is non-empty and stripped, and none appears twice |
| CorsConfig.ParseMembers | backend/config.py:27-30 | an origin is allowed exactly when it is a non-blank comma-separated piece of the list, stripped |
| CorsConfig.ParseOrder | backend/config.py:29-30 | the origins keep the order of their first appearance |
| CorsConfig.ParseIdempotent | backend/config.py:27-30 | parsing the comma-join of the origins gives the same origins |
| CorsConfig.KeptMembers | backend/config.py:27 | a kept piece is the stripped form of an input piece, and every non-blank piece is kept |
| CorsConfig.DedupeMembers | backend/config.py:30 | de-duplication keeps exactly the elements of its input |
| CorsConfig.DedupeDistinct | backend/config.py:30 | de-duplication leaves no repeat |
| CorsConfig.DedupeOfDistinct | backend/config.py:30 | a list without repeats is left as it is |
| CorsConfig.DedupeOrder | backend/config.py:30 | elements come out in the order of their first occurrence |
| CorsConfig.DefaultsWellFormed | backend/config.py:34-40 | the five defaults are origins without repeats |
| CorsConfig.SelectionRule | backend/config.py:43-53 | unset or empty in production gives no origin; a set list is parsed; unset outside production gives the defaults |
| CorsConfig.SelectionWellFormed | backend/config.py:43-53 | whatever is selected is a list of distinct origins |
| NotebookCleaner.Collapse | backend/core/parser.py:256-257 | the model of `EXCESS_NEWLINES_RE.sub('\n\n', cell)` with the pattern `\n{3,}` of line 34; its behaviour is stated by `CollapseNoTriple`, `CollapseQuiet` and `RunCollapsed` |
| NotebookCleaner.Truncate | backend/core/parser.py:265-266 | the model of `BASE64_IMAGE_RE.sub(...)` with the pattern of line 37; its behaviour is stated by `ImageTruncated`, `TruncateAtMatch` and `TruncateQuiet` |
| NotebookCleaner.CleanCell | backend/core/parser.py:255-266 | the model of cleaning one kept cell: collapse then strip for markdown, truncate then strip for code; its behaviour is stated by `CleanCellNotBlank`, `MarkdownIdempotent`, `MarkdownNotTruncated` and `CodeNotCollapsed` |
| NotebookCleaner.Cleaned | backend/core/parser.py:251-267 | the model of the list each cell loop builds: blank cells skipped, the others cleaned, in order; its behaviour is stated by `CleanedOne`, `CleanedConcat`, `CleanedLength`, `CleanedNoBlank` and `CleanedCells` |
| NotebookCleaner.CleanNotebookContent | backend/core/parser.py:235-272 | the result holds the cleaned markdown cells and the cleaned code cells |
| NotebookCleaner.CleanMarkdownCells | backend/core/parser.py:251-258 | the markdown loop gives every cell that is not blank, collapsed and stripped, in order |
| NotebookCleaner.CleanCodeCells | backend/core/parser.py:260-267 | the code loop gives every cell that is not blank, with images truncated and stripped, in order |
| NotebookCleaner.CleanedOne | backend/core/parser.py:253-258 | a blank cell is dropped and any other is cleaned |
| NotebookCleaner.CleanedConcat | backend/core/parser.py:253-258 | cleaning works cell by cell: the cleaned concatenation is the concatenation of the cleaned parts |
| NotebookCleaner.CleanedLength | backend/core/parser.py:252-267 | no output list is longer than its input |
| NotebookCleaner.CleanedNoBlank | backend/core/parser.py:252-267 | without blank cells nothing is dropped: output cell `i` is input cell `i`, cleaned |
| NotebookCleaner.CleanedCells | backend/core/parser.py:255-267 | every output cell is non-empty and stripped |
| NotebookCleaner.CleanCellNotBlank | backend/core/parser.py:255-258 | a cell that is not blank is not blank once cleaned |
| NotebookCleaner.CollapseNoTriple | backend/core/parser.py:34 | no three newlines in a row are left after collapsing |
| NotebookCleaner.CollapseQuiet | backend/core/parser.py:34 | a text without three newlines in a row is left as it is |
| NotebookCleaner.RunCollapsed | backend/core/parser.py:34 | a run of three or more newlines becomes exactly two, and the text on each side is collapsed on its own |
| NotebookCleaner.MarkdownNoTriple | backend/core/parser.py:257-258 | a cleaned markdown cell never holds three newlines in a row |
| NotebookCleaner.MarkdownIdempotent | backend/core/parser.py:257-258 | cleaning a markdown cell twice is cleaning it once |
| NotebookCleaner.CleanedMarkdownIdempotent | backend/core/parser.py:252-258 | cleaning the markdown cells twice is cleaning them once |
| NotebookCleaner.MarkdownNotTruncated | backend/core/parser.py:251-258 | a markdown cell is never truncated: without three newlines in a row it is only stripped, image data and all |
| NotebookCleaner.ImageTruncated | backend/core/parser.py:37 | `data:image/<t>;base64,` and a run of at least 100 payload characters, taken whole, become the prefix and `<TRUNCATED_BASE64_DATA>` |
| NotebookCleaner.TruncateAtMatch | backend/core/parser.py:266 | a match at the head is replaced and the scan goes on after it |
| NotebookCleaner.TruncateQuiet | backend/core/parser.py:266 | a text in which no match begins is left as it is |
| NotebookCleaner.CodeNotCollapsed | backend/core/parser.py:260-267 | a code cell is never collapsed: without an image match it is only stripped, newline runs and all |

## Left out

- Floats in the codec: a `Float` holds its decimal text as it stands. `str(float)` (exponents, `inf`, `nan`) and `float()` parsing are not modelled, and the round trips do not cover floats.
- The `encode_value` fallback for other Python types (toon_encoder.py line 70) cannot be reached with the closed value type.
- Header detection in `decode` works on one line at a time. The pattern's `[^}]+` at line 244 could also match across a `\n` inside the columns; such a match is not modelled.
- `\d` in the patterns is read as the ASCII digits `0`-`9`, and `lower()` only folds ASCII letters; the comparisons it feeds are with ASCII words.
- `json_to_toon` and `toon_to_json` wrap Python's `json` module, and the `__main__` block is argument parsing and file I/O; both are outside the model.
- `encode_to_toon` and `decode_from_toon` only forward to `encode` and `decode`, which are modelled as `ToonEncoder.Encode` and `ToonDecoder.Decode`.
- ToonScalar.IntText, ToonScalar.ParseInt: integers are unbounded. CPython's limit of 4300 digits on int-to-text and text-to-int conversion (a `ValueError` from `str(v)` at toon_encoder.py:47 and from `int(tok)` at toon_encoder.py:221) is not modelled, so `ScalarRoundTrip` and `IntRoundTrip` also cover ints the source rejects.
- KaggleResource.CompetitionPageUrl: the slug `datasets` is excluded only to keep the proof small. For `<site>/competitions/datasets/<page>` the source gives the same result, the competition `datasets`: a single piece follows the last `/datasets/`, so the dataset test at utils.py:16-17 falls through.
- KaggleResource.ShortPageUrl: the slug `datasets` is excluded only to keep the proof small; the source again gives the competition `datasets`. The slug `competitions` changes the result: `<site>/c/competitions/<page>` meets the `/competitions/` test at utils.py:20-22 first and is the competition `<page>`.
- KaggleResource.DatasetPageUrl: the name `datasets` changes the result. The dataset test reads the piece after the last `/datasets/`, which is the single segment `<more>`, so it falls through. `<site>/datasets/<owner>/datasets/<more>` is then rejected at utils.py:28, or, when the owner is `competitions` or `c`, it is the competition `datasets`.
- `extract_resource`: an argument that is not a string is modelled as `None`, since both raise the same error; the error's Python type is reduced to its message.
- The CORS selection reads the `CORS_ORIGINS` and `ENV` environment variables; they are parameters here. The warning printed in production is left out.
- The rest of `backend/core/parser.py` (notebook and CSV parsing), `backend/core/utils.py` (`format_time`, `count_tokens`) and `backend/config.py` (other environment settings) is file I/O or library calls and is not part of this model.

## Findings

| source | as written | input that shows it | evidently intended | confidence | as-written member | corrected member |
|---|---|---|---|---|---|---|
| backend/core/toon_encoder.py:255 | rows of a block are cut with `splitlines()`, which also ends a line at `\v`, `\f`, `\x1c`-`\x1e`, `\x85`, `\u2028` and `\u2029`, while `encode_value` quotes only strings holding `\n` or `\r` (line 62) and the header pattern cuts lines at `\n` only (line 244) | `{"a": "x\x0by"}` is written `{a}\nx\x0by` and decodes as `[{"a": "x"}, {"a": "y"}]` | rows cut at `\n` only, as headers are, so the dict comes back as itself | not executed | ToonRoundTrip.TabbedValueSplitsRow | ToonRoundTrip.RowLinesJoin |
