# npgsql-age core, modelled in Dafny

This project models the text and byte handling at the heart of the npgsql-age
client library for the Apache AGE graph extension of PostgreSQL:

- **Column-declaration synthesis** (`CypherHelpers.GenerateAsPart` of Npgsql.Age).
  A Cypher query is wrapped in `cypher(...)`, and PostgreSQL needs a column list
  `(name agtype, ...)` for it. The synthesiser works as follows:
  - It finds the last `RETURN` clause of the query and refuses a clause that
    holds a write keyword.
  - It splits the clause at the commas outside `{}`, `[]` and `()`
    (`SplitReturnValues`).
  - It names each piece. An object or array literal gets its alias or `result`.
    A number gets `num`, an `AS` alias gets the alias, a function call gets the
    function's name, and otherwise the name comes from the member accessor, the
    indexer key or the backtick-quoted text.
  - It sanitises each name to word characters and de-duplicates repeats with a
    counter dictionary.
  - It quotes names with upper-case letters, and pieces that use an indexer.
  - `EscapeCypher` doubles every backslash that is not followed by a quote.
- **The older synthesiser of the ApacheAGE client.** It takes the text after the
  first `RETURN` up to the end of that line, splits it at every comma, and
  declares each trimmed piece verbatim.
- **Command assembly in both clients**:
  - the fixed graph-management SQL, with the graph name as parameter `$1`;
  - the `cypher('graph', $$ body $$[, $1]) as (...)` query;
  - the JSON and dictionary overloads, which bind one agtype parameter.
- **The binary agtype envelope** (`AgtypeConverter`): a version byte `1`
  followed by the UTF-8 bytes of the text. It is written through a
  buffer-and-cursor `PgWriter` and read back through a `PgReader`.
- **`Vertex` identity**: equality, `==`, `!=` and the hash code look at the Id
  alone. `ToString` renders the agtype literal with its `::vertex` footer.

The model has these modules:
- Shared helpers:
  - `Wrappers` holds `Option` and `Result`.
  - `TextChars` holds the .NET white-space set, `Trim`, `Join` and decimal
    rendering.
  - `Utf8` is a UTF-8 codec per RFC 3629. It replaces ill-formed input with
    U+FFFD as .NET's decoder does, and it proves `Decode(Encode(s)) == s`.
- `CypherPatterns` hand-codes each fixed regular expression of the synthesiser
  as a matcher, with the engine's greedy, lazy and backtracking choices written
  out.
- `CypherHelpers` and `CypherHelperProperties` cover the synthesiser:
  - `SplitReturnValues` and `GenerateAsPart` are methods that build their
    results step by step, as the source does.
  - Each method is proved equal to a specification function (`SplitPieces`,
    `Declaration`).
  - The properties are proved about those functions.
- `AgeValues`, `AgtypeConverter` and `VertexType` cover the value types, the
  converter and the vertex.
- `Commands` models `NpgsqlCommand` as a class whose text and parameter list are
  updated in place. `CommandRecord` is its value.
- `AgeExtensions` and `LegacyAgeExtensions` hold the builders of the two
  clients. Each builder is a method proved equal to a specification function
  over `CommandRecord`.

Three choices of the code are kept as they are:
- **Version byte.** The converter writes and requires a leading version byte
  `1`. An envelope of bare UTF-8 text is refused as an unsupported version
  whenever its first byte is not 1.
- **String literals.** `RETURN` is searched for in the query with line
  breaks replaced by spaces. String literals are not masked, so a `return`
  inside a string literal can be taken as the clause.
- **`AS` alias.** The `\s+AS\s+` test looks anywhere in the piece, nested
  brackets included.

## Model

| member | source | states |
|---|---|---|
| CypherHelpers.EscapeCypher | src/Npgsql.Age/Internal/CypherHelpers.cs:143-149 | a query without backslashes is unchanged; escaping never shortens the text, keeps its first character, and removing all backslashes gives the same text before and after (only backslashes are added); EscapeCypherByPosition states the rule position by position |
| CypherHelperProperties.EscapeCypherByPosition | src/Npgsql.Age/Internal/CypherHelpers.cs:146 | the escaped query is the query with each position replaced in order: a backslash directly before a single quote stays single, every other backslash is doubled, and every other character is kept |
| CypherHelperProperties.EscapeCypherRoundTrip | src/Npgsql.Age/Internal/CypherHelpers.cs:143-149 | reading a doubled backslash as one gives the original query back: escaping loses nothing |
| CypherHelpers.SplitReturnValues | src/Npgsql.Age/Internal/CypherHelpers.cs:152-191 | the list the loop with its three depth counters builds is SplitPieces: the trimmed segments between top-level commas, the last one only when non-empty |
| CypherHelperProperties.SegmentsJoin | src/Npgsql.Age/Internal/CypherHelpers.cs:160-182 | the segments joined with commas give the clause back: nothing is lost or reordered |
| CypherHelperProperties.SegmentCount | src/Npgsql.Age/Internal/CypherHelpers.cs:162-166 | there is one segment per comma read at depth zero, plus one |
| CypherHelperProperties.NoTopLevelCommaIsOnePiece | src/Npgsql.Age/Internal/CypherHelpers.cs:160-182 | a clause whose commas are all nested is a single segment |
| CypherHelperProperties.PiecesAreTrimmed | src/Npgsql.Age/Internal/CypherHelpers.cs:164-188 | every piece is trimmed |
| CypherHelperProperties.NonEmptyHasPiece | src/Npgsql.Age/Internal/CypherHelpers.cs:185-188 | a non-empty clause yields at least one piece |
| CypherHelperProperties.NonEmptyHasSegment | src/Npgsql.Age/Internal/CypherHelpers.cs:160-188 | reading a non-empty clause completes a segment or leaves a non-empty current one |
| CypherPatterns.ClauseEnd | src/Npgsql.Age/Internal/CypherHelpers.cs:14 | the lazy group ends at the first position where the look-ahead (RETURN, LIMIT, SKIP, ORDER or the end, after white space) holds |
| CypherPatterns.ReturnMatchAt | src/Npgsql.Age/Internal/CypherHelpers.cs:14 | a match at i has the keyword at i, only white space before its group, a group ending where the look-ahead holds and nowhere earlier |
| CypherPatterns.ReturnMatchExactly | src/Npgsql.Age/Internal/CypherHelpers.cs:14 | a match starts at i exactly when `RETURN` in any case is followed by white space and one more character; its group starts after the whole white-space run, or at the last character when the run reaches the end |
| CypherPatterns.ReturnMatches | src/Npgsql.Age/Internal/CypherHelpers.cs:12-16 | every match of the left-to-right scan lies after the scan start and inside the text |
| CypherPatterns.LastReturnClause | src/Npgsql.Age/Internal/CypherHelpers.cs:24 | the last match's group is a non-empty span of the text |
| CypherHelperProperties.ScanFindsMatch | src/Npgsql.Age/Internal/CypherHelpers.cs:12-16 | each element of the scan is the match starting at some position of the text |
| CypherHelperProperties.EmptyScanMeansNoMatch | src/Npgsql.Age/Internal/CypherHelpers.cs:12-21 | when the scan finds nothing, no match starts anywhere: the `(result agtype)` fallback is taken only then |
| CypherHelperProperties.ScanEndsAfterLast | src/Npgsql.Age/Internal/CypherHelpers.cs:12-16 | resuming the scan after its last match finds nothing more |
| CypherHelperProperties.ClauseIsLastMatch | src/Npgsql.Age/Internal/CypherHelpers.cs:23-24 | the chosen clause is a match, ends where the look-ahead holds, and no match starts at or after its end |
| CypherHelperProperties.ClauseIsAMatch | src/Npgsql.Age/Internal/CypherHelpers.cs:23-24 | the chosen clause is the group of a match at some position |
| CypherHelperProperties.NoMatchAfterClause | src/Npgsql.Age/Internal/CypherHelpers.cs:23-24 | no match starts at or after the end of the chosen clause: it is the last |
| CypherHelperProperties.NormalizedHasNoLineBreaks | src/Npgsql.Age/Internal/CypherHelpers.cs:13 | the normalised query has no line feed or carriage return and the same length |
| CypherPatterns.WriteKeywordFrom | src/Npgsql.Age/Internal/CypherHelpers.cs:27-33 | true exactly when CREATE, MATCH, SET, WITH, REMOVE or DELETE occurs as a whole word from the start position on |
| CypherHelperProperties.FoundClauseHasColumns | src/Npgsql.Age/Internal/CypherHelpers.cs:38-39 | a clause that is found splits into at least one piece |
| CypherHelpers.GenerateAsPart | src/Npgsql.Age/Internal/CypherHelpers.cs:9-141 | the method builds exactly Declaration(cypher), the declaration the properties below are proved about |
| CypherHelpers.DeclareColumns | src/Npgsql.Age/Internal/CypherHelpers.cs:42-139 | the loop over the pieces, threading one dictionary, builds Declare(pieces) |
| CypherHelpers.DeclareColumn | src/Npgsql.Age/Internal/CypherHelpers.cs:48-137 | one run of the Select lambda yields Column(value, dictionary): the declaration and the updated dictionary |
| CypherHelpers.NamePiece | src/Npgsql.Age/Internal/CypherHelpers.cs:68-110 | the number, alias, call, accessor, indexer and backtick steps yield ColumnName of the trimmed piece, whose rules NumbersAreNamedNum, AliasRule, CallRule, MemberRule, IndexerRule and PlainRule state |
| CypherHelpers.StripAccessor | src/Npgsql.Age/Internal/CypherHelpers.cs:86-106 | the call, member-access and indexer steps yield AccessorName; what each branch names is stated by CallRule, MemberRule and IndexerRule |
| CypherHelperProperties.AliasRule | src/Npgsql.Age/Internal/CypherHelpers.cs:77-84 | a non-numeric piece with an `AS` alias is named by the text after the last separator of Regex.Split's scan, with no backtick trimming, and that name holds no further separator |
| CypherHelperProperties.CallRule | src/Npgsql.Age/Internal/CypherHelpers.cs:87-109 | without an alias, a function call is named by the first maximal run of word characters, which is never empty; trimming backticks changes nothing |
| CypherHelperProperties.CallHasName | src/Npgsql.Age/Internal/CypherHelpers.cs:88-90 | a piece that matches the call pattern has a non-empty first word |
| CypherHelperProperties.MemberRule | src/Npgsql.Age/Internal/CypherHelpers.cs:93-109 | without an alias or a call, a piece with '.' is named by the text after its last '.', backticks trimmed |
| CypherHelperProperties.IndexerRule | src/Npgsql.Age/Internal/CypherHelpers.cs:98-109 | without an alias, a call or a '.', a piece with '[' is named by the key of its leftmost `['key']`, or by itself when there is none, backticks trimmed |
| CypherHelperProperties.PlainRule | src/Npgsql.Age/Internal/CypherHelpers.cs:108-109 | any other non-numeric piece is named by itself with backticks trimmed |
| CypherHelperProperties.SeparatorInSuffix | src/Npgsql.Age/Internal/CypherHelpers.cs:78-83 | a separator in the text after some position is a separator of the whole piece |
| CypherHelpers.FinishColumn | src/Npgsql.Age/Internal/CypherHelpers.cs:112-136 | sanitising, de-duplicating and quoting yield NamedColumn |
| CypherHelpers.Sanitize | src/Npgsql.Age/Internal/CypherHelpers.cs:113 | same length, only word characters, each character kept when it is one and replaced by `_` otherwise |
| CypherHelperProperties.SanitizeIdempotent | src/Npgsql.Age/Internal/CypherHelpers.cs:113 | sanitising a sanitised name changes nothing |
| CypherPatterns.AliasWordAtMeans | src/Npgsql.Age/Internal/CypherHelpers.cs:56-60 | `AS\s+(\w+)` matches at p exactly when AS is followed by white space and a word character, and the group is the maximal word run after the whole white-space run |
| CypherPatterns.AliasMatchIsMaximal | src/Npgsql.Age/Internal/CypherHelpers.cs:58 | a match at p is unique: its white space and its word run are both as long as they can be |
| CypherPatterns.ObjectAliasIsLeftmost | src/Npgsql.Age/Internal/CypherHelpers.cs:56-65 | the alias is none exactly when no position matches, and otherwise the group of the leftmost match |
| CypherPatterns.AliasSeparatorAtMeans | src/Npgsql.Age/Internal/CypherHelpers.cs:78-79 | `\s+AS\s+` matches at p exactly when white space, AS and white space follow p, and the match ends after the whole trailing white-space run |
| CypherPatterns.SeparatorMatchIsMaximal | src/Npgsql.Age/Internal/CypherHelpers.cs:78 | a separator match at p is unique: AS follows the whole leading white space and the trailing run is greedy |
| CypherPatterns.LastSeparatorOfScan | src/Npgsql.Age/Internal/CypherHelpers.cs:81-83 | the split scan finds nothing exactly when no separator starts in the piece; otherwise it ends at the end of a separator after which none starts |
| CypherPatterns.FirstWordIsFirstRun | src/Npgsql.Age/Internal/CypherHelpers.cs:90 | the first `\w+` match is empty exactly when the piece has no word character, and otherwise is the first run of word characters, whole |
| CypherPatterns.CloseParenOnLineMeans | src/Npgsql.Age/Internal/CypherHelpers.cs:88 | `.*\)` completes exactly when a ')' follows with no line feed before it |
| CypherPatterns.CallFromMeans | src/Npgsql.Age/Internal/CypherHelpers.cs:88 | the call pattern matches exactly when a word character, '(' and a later ')' on the same line occur together at some position |
| CypherPatterns.AfterLast | src/Npgsql.Age/Internal/CypherHelpers.cs:96 | the last part after splitting at '.' is a suffix of the piece without '.', preceded by '.' when the piece has one |
| CypherPatterns.QuoteBracketCloseIsFirst | src/Npgsql.Age/Internal/CypherHelpers.cs:101 | the lazy key of `['key']` stops at the first `']` after its start with no line feed before it, and there is none only when every later `']` has a line feed before it |
| CypherPatterns.BracketKeyIsLeftmost | src/Npgsql.Age/Internal/CypherHelpers.cs:101-105 | the key is none exactly when no position matches `\['(.*?)'\]`, and otherwise the group of the leftmost match |
| CypherPatterns.DigitsAreNumeric | src/Npgsql.Age/Internal/CypherHelpers.cs:69-72 | a non-empty run of decimal digits parses as a number |
| CypherHelperProperties.NumbersAreNamedNum | src/Npgsql.Age/Internal/CypherHelpers.cs:69-75 | every numeric piece is named `num` |
| CypherHelperProperties.NumHasNoAlias | src/Npgsql.Age/Internal/CypherHelpers.cs:78-84 | `num` has no alias separator |
| CypherHelperProperties.NumHasNoCall | src/Npgsql.Age/Internal/CypherHelpers.cs:88 | `num` is not a function call |
| CypherHelperProperties.NumHasNoBacktick | src/Npgsql.Age/Internal/CypherHelpers.cs:109 | trimming backticks leaves `num` unchanged |
| TextChars.TrimIsSlice | src/Npgsql.Age/Internal/CypherHelpers.cs:50 | the trimmed piece is a slice of the piece with only white space before and after it, and it neither starts nor ends with white space, so all of it and no more is removed |
| TextChars.TrimCharIsSlice | src/Npgsql.Age/Internal/CypherHelpers.cs:109 | the name is a slice of the text with only backticks before and after it, and it neither starts nor ends with a backtick |
| TextChars.TrimCharAbsent | src/Npgsql.Age/Internal/CypherHelpers.cs:109 | trimming a character that does not occur changes nothing |
| TextChars.HasUpperMeans | src/Npgsql.Age/Internal/CypherHelpers.cs:131 | a name has an upper-case letter exactly when some character of it is one |
| CypherHelperProperties.ColumnOfCounted | src/Npgsql.Age/Internal/CypherHelpers.cs:50-136 | a piece that is not an object or array literal is named by ColumnName and goes through NamedColumn |
| CypherHelperProperties.ColumnOfLiteral | src/Npgsql.Age/Internal/CypherHelpers.cs:53-66 | an object or array literal is declared by its alias or `result` and leaves the dictionary alone |
| CypherHelperProperties.ColumnRecords | src/Npgsql.Age/Internal/CypherHelpers.cs:115-124 | a named piece records its sanitised base name; a literal records nothing |
| CypherHelperProperties.PlainNamedColumn | src/Npgsql.Age/Internal/CypherHelpers.cs:126-134 | without '[' in the piece the de-duplicated name is quoted exactly when it has an upper-case letter; the `$` test never fires, as a sanitised name has no `$` |
| CypherHelperProperties.WordTextHasNoDollar | src/Npgsql.Age/Internal/CypherHelpers.cs:131 | text made of word characters does not start with `$` |
| CypherHelperProperties.DeclareSnoc | src/Npgsql.Age/Internal/CypherHelpers.cs:45-139 | declaring one more piece appends its column and passes on its dictionary |
| CypherHelperProperties.DeclarePrefix | src/Npgsql.Age/Internal/CypherHelpers.cs:42-139 | piece i is declared with the dictionary the earlier pieces left |
| CypherHelperProperties.DeclareStep | src/Npgsql.Age/Internal/CypherHelpers.cs:42-124 | the dictionary after one more piece is the one after the earlier pieces updated by that piece |
| CypherHelperProperties.CounterTracksOccurrences | src/Npgsql.Age/Internal/CypherHelpers.cs:115-124 | the dictionary holds exactly the base names seen, each mapped to its number of occurrences minus one |
| CypherHelperProperties.DeduplicatedByOccurrences | src/Npgsql.Age/Internal/CypherHelpers.cs:115-124 | the name a base gets is itself when it has not occurred before, else the base followed by the count of earlier occurrences |
| CypherHelperProperties.CountedPieceDeclaration | src/Npgsql.Age/Internal/CypherHelpers.cs:50-136 | a named piece is declared by NamedColumn with the dictionary of the earlier pieces |
| CypherHelperProperties.RepeatGetsItsCount | src/Npgsql.Age/Internal/CypherHelpers.cs:115-136 | the n-th repeat of a base name (without '[') is declared as that name with suffix n, the first as the name itself, quoted when it has an upper-case letter |
| CypherHelperProperties.BracketPieceIgnoresRepeats | src/Npgsql.Age/Internal/CypherHelpers.cs:127-130 | a piece with '[' is declared as its quoted, unsanitised name, with no repeat suffix |
| CypherHelperProperties.LiteralPieceDeclaration | src/Npgsql.Age/Internal/CypherHelpers.cs:53-66 | an object or array literal piece is declared by its alias or as `result` |
| CypherHelperProperties.LiteralPieceUncounted | src/Npgsql.Age/Internal/CypherHelpers.cs:53-66 | an object or array literal piece leaves the dictionary unchanged |
| CypherHelperProperties.ColumnEndsWithAgtype | src/Npgsql.Age/Internal/CypherHelpers.cs:136 | every column declaration ends with ` agtype` |
| CypherHelperProperties.EveryColumnIsAgtype | src/Npgsql.Age/Internal/CypherHelpers.cs:45-139 | every declaration in the list ends with ` agtype` |
| CypherHelperProperties.SuffixCanCollide | src/Npgsql.Age/Internal/CypherHelpers.cs:115-124 | a repeated name and a piece already named with suffix 1 are declared alike: the de-duplication can itself produce duplicates |
| Utf8.DecodeOneEncodeChar | src/Npgsql.Age/Internal/AgtypeConverter.cs:45 | decoding the bytes of one encoded character gives the character and consumes exactly its bytes |
| Utf8.DecodeEncode | src/Npgsql.Age/Internal/AgtypeConverter.cs:45 | UTF-8 decoding of the encoded text gives the text back |
| Utf8.ByteCountBounds | src/Npgsql.Age/Internal/AgtypeConverter.cs:25 | the byte count lies between the character count and four times it |
| Utf8.AsciiEncodesByteForByte | src/Npgsql.Age/Internal/AgtypeConverter.cs:62 | ASCII text is encoded one byte per character, each byte the character's code |
| AgtypeConverter.CanConvert | src/Npgsql.Age/Internal/AgtypeConverter.cs:12-19 | both formats are accepted, with no buffer requirements |
| AgtypeConverter.GetSize | src/Npgsql.Age/Internal/AgtypeConverter.cs:21-26 | the size is the UTF-8 byte count plus one, between the length plus one and four times the length plus one |
| AgtypeConverter.EncodingShape | src/Npgsql.Age/Internal/AgtypeConverter.cs:56-64 | the written bytes start with version 1, are followed by the UTF-8 text, and number exactly GetSize |
| AgtypeConverter.EnvelopeRoundTrip | src/Npgsql.Age/Internal/AgtypeConverter.cs:34-64 | reading what WriteCore produces gives the same agtype text |
| AgtypeConverter.OtherVersionsRefused | src/Npgsql.Age/Internal/AgtypeConverter.cs:38-41 | a field whose first byte is not 1 is refused with that version |
| AgtypeConverter.PgWriter.constructor | src/Npgsql.Age/Internal/AgtypeConverter.cs:56 | a fresh writer has nothing written and the requested room |
| AgtypeConverter.PgWriter.WriteByte | src/Npgsql.Age/Internal/AgtypeConverter.cs:59 | the byte is appended and the room shrinks by one |
| AgtypeConverter.PgWriter.WriteBytes | src/Npgsql.Age/Internal/AgtypeConverter.cs:63 | the bytes are appended in order and the room shrinks by their number |
| AgtypeConverter.PgReader.constructor | src/Npgsql.Age/Internal/AgtypeConverter.cs:34 | a reader over a field has the whole field unread |
| AgtypeConverter.PgReader.ReadByte | src/Npgsql.Age/Internal/AgtypeConverter.cs:37 | on an exhausted field it fails and moves nothing, else it returns the next byte and consumes it |
| AgtypeConverter.PgReader.ReadBytes | src/Npgsql.Age/Internal/AgtypeConverter.cs:44 | returns the next count bytes and consumes them |
| AgtypeConverter.WriteCore | src/Npgsql.Age/Internal/AgtypeConverter.cs:56-64 | appends EncodeAgtype(value) to what was written, in a buffer with room for GetSize bytes |
| AgtypeConverter.ReadCore | src/Npgsql.Age/Internal/AgtypeConverter.cs:34-48 | the result is DecodeAgtype of the unread field (end of field, unsupported version, or the decoded text) and a success consumes the whole field |
| AgtypeConverter.WriteThenRead | src/Npgsql.Age/Internal/AgtypeConverter.cs:34-64 | a value written into a buffer of GetSize bytes and read back is the same value |
| VertexType.NotEqualToNullOrOthers | src/Npgsql.Age/Types/Vertex.cs:41-42 | null and objects of other types are never equal to a vertex |
| VertexType.EqualityIsById | src/Npgsql.Age/Types/Vertex.cs:39-47 | two vertices are equal exactly when their Ids are |
| VertexType.LabelAndPropertiesIgnored | src/Npgsql.Age/Types/Vertex.cs:44-46 | changing the label or the properties keeps a vertex equal to what it was |
| VertexType.EqIsEquivalence | src/Npgsql.Age/Types/Vertex.cs:54-57 | `==` is reflexive, symmetric and transitive |
| VertexType.EqualVerticesHashAlike | src/Npgsql.Age/Types/Vertex.cs:49-52 | equal vertices have equal hash codes, whatever the hash of an Id is |
| VertexType.OperatorsAgree | src/Npgsql.Age/Types/Vertex.cs:54-62 | `!=` is the negation of `==`, and `==` agrees with Equals on a boxed vertex |
| VertexType.ToStringShape | src/Npgsql.Age/Types/Vertex.cs:30-37 | the rendering starts with the `id` field and ends with the `::vertex` footer |
| VertexType.IdReadBack | src/Npgsql.Age/Types/Vertex.cs:33-34 | the digit run after the `id` field parses back to the vertex's Id |
| TextChars.ParseNatToString | src/Npgsql.Age/Types/Vertex.cs:34 | the decimal rendering of an Id is all digits and parses back to it |
| Commands.Command.constructor | src/Npgsql.Age/NpgsqlAgeExtensions.cs:124 | a new command has the given text and no parameters |
| Commands.Command.SetCommandText | src/ApacheAGE/NpgsqlAgeExtensions.cs:66 | the text is replaced and the parameters kept |
| Commands.Command.Add | src/Npgsql.Age/NpgsqlAgeExtensions.cs:48 | the parameter is appended and the text kept |
| Commands.Command.AddWithValue | src/Npgsql.Age/NpgsqlAgeExtensions.cs:125 | a parameter with that name and value and no data type name is appended |
| Commands.Command.SetDataTypeName | src/Npgsql.Age/NpgsqlAgeExtensions.cs:126 | only the data type name of the indexed parameter changes |
| AgeExtensions.CreateGraphCommand | src/Npgsql.Age/NpgsqlAgeExtensions.cs:41-50 | the command is `create_graph($1)` with the graph name as its one unnamed parameter |
| AgeExtensions.DropGraphCommand | src/Npgsql.Age/NpgsqlAgeExtensions.cs:52-61 | the command is `drop_graph($1, true)` with the graph name as its one unnamed parameter |
| AgeExtensions.GraphExistsCommand | src/Npgsql.Age/NpgsqlAgeExtensions.cs:63-75 | the command is the `EXISTS` query on `ag_graph` with the graph name as its one unnamed parameter |
| AgeExtensions.GraphNameOnlyAsParameter | src/Npgsql.Age/NpgsqlAgeExtensions.cs:41-75 | the graph commands' text does not depend on the graph name, which is the value of the single parameter; drop cascades |
| AgeExtensions.CreateCypherCommand | src/Npgsql.Age/NpgsqlAgeExtensions.cs:77-86 | the command is the cypher query over the escaped body with the declaration of the unescaped query, and no parameters |
| AgeExtensions.CreateCypherCommandWithJson | src/Npgsql.Age/NpgsqlAgeExtensions.cs:115-128 | the command is the query with `$1` and exactly one unnamed parameter holding the JSON as agtype, typed `ag_catalog.agtype` |
| AgeExtensions.CreateCypherCommandWithDictionary | src/Npgsql.Age/NpgsqlAgeExtensions.cs:96-105 | the command is the JSON overload's command for the serialised dictionary |
| AgeExtensions.ParameterInsertedAfterBody | src/Npgsql.Age/NpgsqlAgeExtensions.cs:122-123 | the JSON query is the plain query with `, $1` inserted right after the closing `$$` |
| AgeExtensions.BodyIsEscapedQuery | src/Npgsql.Age/NpgsqlAgeExtensions.cs:83-84 | the body is the escaped query (the query itself when it has no backslash) and the text ends with the declaration |
| AgeExtensions.QuoteFrom | src/Npgsql.Age/NpgsqlAgeExtensions.cs:84 | the position found is the first single quote at or after the start, or the end |
| AgeExtensions.GraphNameReadBack | src/Npgsql.Age/NpgsqlAgeExtensions.cs:83-84 | the quoted graph name reads back as the graph name exactly when it holds no single quote: it is not escaped |
| LegacyAgeExtensions.FirstMatchFrom | src/ApacheAGE/NpgsqlAgeExtensions.cs:102 | the match found is the leftmost `RETURN` followed by white space, and none is found only when there is none |
| LegacyAgeExtensions.LineEnd | src/ApacheAGE/NpgsqlAgeExtensions.cs:102 | `.*` stops at the first line feed or the end |
| LegacyAgeExtensions.GenerateAsPart | src/ApacheAGE/NpgsqlAgeExtensions.cs:99-114 | the legacy declaration is always a parenthesised list ending with ` agtype)`; its columns are given by NoMatchMeansResultColumn and ColumnsOfCapture |
| LegacyAgeExtensions.NoMatchMeansResultColumn | src/ApacheAGE/NpgsqlAgeExtensions.cs:102-106 | there is no capture exactly when no `RETURN` followed by white space occurs, and then the declaration is `(result agtype)` |
| LegacyAgeExtensions.CaptureIsRestOfFirstLine | src/ApacheAGE/NpgsqlAgeExtensions.cs:102 | the capture belongs to the first match: it starts after that match's white space, runs to the end of its line, holds no line feed and does not start with white space |
| LegacyAgeExtensions.SplitOn | src/ApacheAGE/NpgsqlAgeExtensions.cs:109 | splitting yields at least one piece |
| LegacyAgeExtensions.SplitJoin | src/ApacheAGE/NpgsqlAgeExtensions.cs:109 | the pieces joined with commas give the capture back |
| LegacyAgeExtensions.SplitCount | src/ApacheAGE/NpgsqlAgeExtensions.cs:109 | there is one piece more than commas, and no piece holds a comma |
| LegacyAgeExtensions.ColumnsOfCapture | src/ApacheAGE/NpgsqlAgeExtensions.cs:109-113 | the declaration lists one column per comma plus one, each the trimmed piece verbatim followed by ` agtype` |
| LegacyAgeExtensions.BalanceWithout | src/ApacheAGE/NpgsqlAgeExtensions.cs:109 | a depth counter stays at zero over text without its two characters |
| LegacyAgeExtensions.SplitsAgreeWithoutNesting | src/ApacheAGE/NpgsqlAgeExtensions.cs:109 | on text without braces, brackets or parentheses the newer splitter cuts at exactly the same commas |
| LegacyAgeExtensions.DataSourceGraphCommand | src/ApacheAGE/NpgsqlAgeExtensions.cs:33-35 | a data-source command has the given SQL and one parameter named `name` holding the graph name |
| LegacyAgeExtensions.ConnectionGraphCommand | src/ApacheAGE/NpgsqlAgeExtensions.cs:65-68 | a connection command built by setting the text and adding the parameter is the same command |
| LegacyAgeExtensions.DataSourceCreateGraphCommand | src/ApacheAGE/NpgsqlAgeExtensions.cs:31-36 | `create_graph($1)` with the parameter `name` |
| LegacyAgeExtensions.DataSourceDropGraphCommand | src/ApacheAGE/NpgsqlAgeExtensions.cs:38-43 | `drop_graph($1)` with the parameter `name` |
| LegacyAgeExtensions.DataSourceGraphExistsCommand | src/ApacheAGE/NpgsqlAgeExtensions.cs:45-50 | the `ag_graph` lookup with the parameter `name` |
| LegacyAgeExtensions.ConnectionCreateGraphCommand | src/ApacheAGE/NpgsqlAgeExtensions.cs:63-69 | the same command as the data-source variant |
| LegacyAgeExtensions.ConnectionDropGraphCommand | src/ApacheAGE/NpgsqlAgeExtensions.cs:71-77 | the same command as the data-source variant |
| LegacyAgeExtensions.ConnectionGraphExistsCommand | src/ApacheAGE/NpgsqlAgeExtensions.cs:79-85 | the same command as the data-source variant |
| LegacyAgeExtensions.DataSourceCreateCypherCommand | src/ApacheAGE/NpgsqlAgeExtensions.cs:52-58 | the cypher query over the unescaped query with the legacy declaration, and no parameters |
| LegacyAgeExtensions.ConnectionCreateCypherCommand | src/ApacheAGE/NpgsqlAgeExtensions.cs:87-94 | the same command as the data-source variant |
| LegacyAgeExtensions.GraphCommandsShape | src/ApacheAGE/NpgsqlAgeExtensions.cs:31-50 | the graph commands' text does not depend on the graph name; one parameter named `name` holds it; drop has no cascade argument |
| LegacyAgeExtensions.QueryNotEscaped | src/ApacheAGE/NpgsqlAgeExtensions.cs:55 | the query goes into the cypher call verbatim |

## Left out

- `UseAge` in both clients is left out. It registers type resolvers and
  connection initialisers with the driver, and `AgtypeResolverFactory` and
  `ConnectionInitializer` are not part of this model.
- The driver's objects (`NpgsqlConnection`, `NpgsqlDataSource` and the real
  `PgReader`/`PgWriter`) are not modelled, and commands are not executed.
  - A command is reduced to its text and parameter list.
  - The reader and writer are a byte array with a cursor.
- Unicode is approximated in three places:
  - `char.IsUpper`, the regex class `\w` and `RegexOptions.IgnoreCase` are
    modelled on ASCII letters, digits and `_`.
  - Non-ASCII letters are treated as non-word characters.
  - Characters outside the Basic Multilingual Plane are single code points,
    not UTF-16 surrogate pairs.
  - A .NET string can hold a lone UTF-16 surrogate, which
    `Encoding.UTF8.GetBytes` replaces with U+FFFD, so the converter's round
    trip fails on such text. A Dafny `char` cannot hold a lone surrogate, so
    the model does not show that failure.
- `int.TryParse`/`double.TryParse` are modelled as the invariant culture's
  grammar: an optional sign, digits with an optional fraction and exponent,
  `Infinity` or `NaN`. Culture-specific forms, thousands separators and
  surrounding white space (already trimmed) are not modelled.
- `JsonSerializer.Serialize` (for the parameter dictionary and for vertex
  properties) and the hash code of a `GraphId` are supplied as function
  parameters; their output is not modelled.
- The exception thrown when the version byte is not 1 is the
  `UnsupportedVersion` error. Reading past the end of a field, which the
  driver reports as an exception, is the `EndOfField` error.
- `GraphId` is an unbounded natural number rather than a 64-bit unsigned one.
- `null` values of `Label`, `Properties` or the query are not modelled.
- Literal outputs for particular queries (for example `RETURN n.name, n.age`
  giving `(name agtype, age agtype)`) are not proved: evaluating the naming
  cascade on concrete text exceeds the verifier's resource budget. Each
  rule is proved for all pieces instead: NumbersAreNamedNum, AliasRule,
  CallRule, MemberRule, IndexerRule and PlainRule.
- `AgtypeConverter.ReadCore` returns an error value where the source throws.
- `AgtypeConverter.WriteCore` demands room for `GetSize` bytes. The driver
  guarantees that room after calling `GetSize`, and the model does not
  model buffer flushing.
