/**
 * The Cypher helpers of Npgsql.Age: escaping of the query body and the
 * synthesis of the column declaration `(name agtype, ...)` that PostgreSQL
 * needs before it runs cypher(...). GenerateAsPart and SplitReturnValues are
 * methods, as in the source they build their results step by step; each is
 * proved equal to a specification function (Declaration, SplitPieces) whose
 * properties are proved in CypherHelperProperties.
 */
module CypherHelpers {
  import opened TextChars
  import opened Wrappers
  import opened CypherPatterns

  // ---------------------------------------------------------------------------
  // EscapeCypher

  /** The text with every backslash removed. */
  function WithoutBackslashes(s: string): string {
    if s == [] then [] else (if s[0] == '\\' then [] else [s[0]]) + WithoutBackslashes(s[1..])
  }

  /** Regex.Replace(cypher, @"\\(?!')", @"\\"): every backslash not followed by a quote is doubled. */
  function EscapeCypher(cypher: string): (r: string)
    ensures '\\' !in cypher ==> r == cypher
    ensures |cypher| <= |r|
    ensures cypher != [] ==> r != [] && r[0] == cypher[0]
    ensures WithoutBackslashes(r) == WithoutBackslashes(cypher)
  {
    if cypher == [] then []
    else if cypher[0] == '\\' && !(|cypher| > 1 && cypher[1] == '\'') then
      ['\\', '\\'] + EscapeCypher(cypher[1..])
    else
      [cypher[0]] + EscapeCypher(cypher[1..])
  }

  // ---------------------------------------------------------------------------
  // SplitReturnValues

  /** The count of `open` minus the count of `close` in s: a depth counter after reading s. */
  function Balance(s: string, open: char, close: char): int {
    if s == [] then 0
    else Balance(s[..|s| - 1], open, close)
         + (if s[|s| - 1] == open then 1 else if s[|s| - 1] == close then -1 else 0)
  }

  /** After reading s, the brace, bracket and parenthesis counters are all zero. */
  predicate AtTopLevel(s: string) {
    Balance(s, '{', '}') == 0 && Balance(s, '[', ']') == 0 && Balance(s, '(', ')') == 0
  }

  /** A comma read while all three counters are zero: SplitReturnValues cuts there. */
  predicate CutsAt(p: string, c: char) {
    c == ',' && AtTopLevel(p)
  }

  /** The text read since the last cut: the `current` list after reading s. */
  function LastSegment(s: string): string {
    if s == [] then []
    else
      var p := s[..|s| - 1];
      var c := s[|s| - 1];
      if CutsAt(p, c) then [] else LastSegment(p) + [c]
  }

  /** The untrimmed segments completed by a cut, in order. */
  function CompletedSegments(s: string): seq<string> {
    if s == [] then []
    else
      var p := s[..|s| - 1];
      var c := s[|s| - 1];
      if CutsAt(p, c) then CompletedSegments(p) + [LastSegment(p)] else CompletedSegments(p)
  }

  /** s cut at every comma read while all three counters are zero. */
  function Segments(s: string): seq<string> {
    CompletedSegments(s) + [LastSegment(s)]
  }

  function TrimEach(ss: seq<string>): (r: seq<string>)
    ensures |r| == |ss|
    ensures forall k :: 0 <= k < |ss| ==> r[k] == Trim(ss[k])
  {
    if ss == [] then [] else TrimEach(ss[..|ss| - 1]) + [Trim(ss[|ss| - 1])]
  }

  /** What SplitReturnValues returns: the trimmed segments, the last one only when it is not empty. */
  function SplitPieces(s: string): seq<string> {
    var last := LastSegment(s);
    TrimEach(CompletedSegments(s)) + (if last != [] then [Trim(last)] else [])
  }

  lemma BalanceSnoc(p: string, c: char, open: char, close: char)
    ensures Balance(p + [c], open, close)
            == Balance(p, open, close) + (if c == open then 1 else if c == close then -1 else 0)
  {
    assert (p + [c])[..|p|] == p;
  }

  lemma SegmentsSnoc(p: string, c: char)
    ensures LastSegment(p + [c]) == if CutsAt(p, c) then [] else LastSegment(p) + [c]
    ensures CompletedSegments(p + [c])
            == if CutsAt(p, c) then CompletedSegments(p) + [LastSegment(p)] else CompletedSegments(p)
  {
    assert (p + [c])[..|p|] == p;
  }

  lemma TrimEachSnoc(ss: seq<string>, s: string)
    ensures TrimEach(ss + [s]) == TrimEach(ss) + [Trim(s)]
  {
    assert (ss + [s])[..|ss|] == ss;
  }

  /** Splits the clause at commas outside {}, [] and (), trimming each piece. */
  method SplitReturnValues(returnPart: string) returns (result: seq<string>)
    ensures result == SplitPieces(returnPart)
  {
    result := [];
    var current: seq<char> := [];
    var braceCount, bracketCount, parenthesesCount := 0, 0, 0;
    for i := 0 to |returnPart|
      invariant braceCount == Balance(returnPart[..i], '{', '}')
      invariant bracketCount == Balance(returnPart[..i], '[', ']')
      invariant parenthesesCount == Balance(returnPart[..i], '(', ')')
      invariant current == LastSegment(returnPart[..i])
      invariant result == TrimEach(CompletedSegments(returnPart[..i]))
    {
      var c := returnPart[i];
      ghost var p := returnPart[..i];
      assert returnPart[..i + 1] == p + [c];
      SegmentsSnoc(p, c);
      BalanceSnoc(p, c, '{', '}');
      BalanceSnoc(p, c, '[', ']');
      BalanceSnoc(p, c, '(', ')');
      if c == ',' && braceCount == 0 && bracketCount == 0 && parenthesesCount == 0 {
        TrimEachSnoc(CompletedSegments(p), current);
        result := result + [Trim(current)];
        current := [];
      } else {
        if c == '{' { braceCount := braceCount + 1; }
        if c == '}' { braceCount := braceCount - 1; }
        if c == '[' { bracketCount := bracketCount + 1; }
        if c == ']' { bracketCount := bracketCount - 1; }
        if c == '(' { parenthesesCount := parenthesesCount + 1; }
        if c == ')' { parenthesesCount := parenthesesCount - 1; }
        current := current + [c];
      }
    }
    assert returnPart[..|returnPart|] == returnPart;
    if |current| > 0 {
      result := result + [Trim(current)];
    }
  }

  // ---------------------------------------------------------------------------
  // Naming one column

  /** A piece starting with '{' or '[' is an object or array literal. */
  predicate IsLiteralPiece(t: string) {
    StartsWith(t, "{") || StartsWith(t, "[")
  }

  /** The call, member-access and indexer steps: the function's name, the last property, or the bracketed key. */
  function AccessorName(t: string): string {
    if HasFunctionCall(t) then FirstWord(t)
    else if '.' in t then AfterLast(t, '.')
    else if '[' in t then (match BracketKey(t) case Some(k) => k case None => t)
    else t
  }

  /** The name of a piece once numbers are set aside: the alias, else the accessor name without backticks. */
  function NameOf(t: string): string {
    if HasAliasSeparator(t) then AfterLastAliasSeparator(t)
    else TrimChar(AccessorName(t), '`')
  }

  /** The name a trimmed, non-literal piece yields before sanitising. */
  function ColumnName(t: string): string {
    NameOf(if IsNumeric(t) then "num" else t)
  }

  /** Regex.Replace(name, @"[^\w]", "_"). */
  function Sanitize(name: string): (r: string)
    ensures |r| == |name|
    ensures forall k :: 0 <= k < |r| ==> IsWordChar(r[k])
    ensures forall k :: 0 <= k < |r| ==> r[k] == if IsWordChar(name[k]) then name[k] else '_'
  {
    if name == [] then []
    else [if IsWordChar(name[0]) then name[0] else '_'] + Sanitize(name[1..])
  }

  function Quote(s: string): string {
    "\"" + s + "\""
  }

  /** The name after de-duplication: the base itself, or the base followed by its new repeat count. */
  function Deduplicated(base: string, columnNames: map<string, nat>): string {
    if base in columnNames then base + NatToString(columnNames[base] + 1) else base
  }

  /** The dictionary after recording one more occurrence of the base. */
  function Recorded(base: string, columnNames: map<string, nat>): map<string, nat> {
    columnNames[base := if base in columnNames then columnNames[base] + 1 else 0]
  }

  /** An object or array literal is declared under its `AS` alias, or as `result`. */
  function LiteralColumn(trimmed: string): string {
    match ObjectAlias(trimmed)
    case Some(alias) => alias + " agtype"
    case None => "result agtype"
  }

  /** The declaration of a piece named `name`, and the dictionary with its base name recorded. */
  function NamedColumn(value: string, name: string, columnNames: map<string, nat>): (string, map<string, nat>) {
    var base := Sanitize(name);
    var unique := Deduplicated(base, columnNames);
    var declared :=
      if '[' in value then Quote(name)
      else if HasUpper(unique) || StartsWith(unique, "$") then Quote(unique)
      else unique;
    (declared + " agtype", Recorded(base, columnNames))
  }

  /** The declaration of one piece and the updated dictionary (the body of the Select lambda). */
  function Column(value: string, columnNames: map<string, nat>): (string, map<string, nat>) {
    var trimmed := Trim(value);
    if IsLiteralPiece(trimmed) then (LiteralColumn(trimmed), columnNames)
    else NamedColumn(value, ColumnName(trimmed), columnNames)
  }

  /** The declarations of the pieces in order and the final dictionary, starting from an empty one. */
  function Declare(values: seq<string>): (r: (seq<string>, map<string, nat>))
    ensures |r.0| == |values|
  {
    if values == [] then ([], map[])
    else
      var prev := Declare(values[..|values| - 1]);
      var next := Column(values[|values| - 1], prev.1);
      (prev.0 + [next.0], next.1)
  }

  // ---------------------------------------------------------------------------
  // GenerateAsPart

  const ResultColumn: string := "(result agtype)"

  /** cypher.Replace("\n", " ").Replace("\r", " "). */
  function Normalize(cypher: string): string {
    ReplaceChar(ReplaceChar(cypher, '\n', ' '), '\r', ' ')
  }

  /** The clause group 1 of the last RETURN match captures, in the normalised text. */
  function ReturnClause(cypher: string): Option<string> {
    var text := Normalize(cypher);
    match LastReturnClause(text)
    case None => None
    case Some(m) => Some(text[m.start..m.end])
  }

  /** The call, member-access and indexer steps of the Select lambda. */
  method StripAccessor(value: string) returns (name: string)
    ensures name == AccessorName(value)
  {
    name := value;
    if HasFunctionCall(name) {
      name := FirstWord(name);
    } else if '.' in name {
      name := AfterLast(name, '.');
    } else if '[' in name {
      var keyMatch := BracketKey(name);
      if keyMatch.Some? {
        name := keyMatch.value;
      }
    }
  }

  /** The number, alias, call, accessor and backtick steps that turn a trimmed piece into a name. */
  method NamePiece(value: string) returns (trimmedValue: string)
    ensures trimmedValue == ColumnName(value)
  {
    trimmedValue := value;
    if IsNumeric(trimmedValue) {
      trimmedValue := "num";
    }
    if HasAliasSeparator(trimmedValue) {
      trimmedValue := AfterLastAliasSeparator(trimmedValue);
    } else {
      trimmedValue := StripAccessor(trimmedValue);
      trimmedValue := TrimChar(trimmedValue, '`');
    }
  }

  /** The body of the Select lambda: names one piece, updating the per-call dictionary. */
  method DeclareColumn(value: string, columnNames: map<string, nat>)
    returns (column: string, columnNames': map<string, nat>)
    ensures (column, columnNames') == Column(value, columnNames)
  {
    columnNames' := columnNames;
    var trimmedValue := Trim(value);
    if StartsWith(trimmedValue, "{") || StartsWith(trimmedValue, "[") {
      var aliasMatch := ObjectAlias(trimmedValue);
      if aliasMatch.Some? {
        return aliasMatch.value + " agtype", columnNames';
      }
      return "result agtype", columnNames';
    }
    trimmedValue := NamePiece(trimmedValue);
    column, columnNames' := FinishColumn(value, trimmedValue, columnNames');
  }

  /** Sanitising, de-duplication against the dictionary, and quoting of a named piece. */
  method FinishColumn(value: string, trimmedValue: string, columnNames: map<string, nat>)
    returns (column: string, columnNames': map<string, nat>)
    ensures (column, columnNames') == NamedColumn(value, trimmedValue, columnNames)
  {
    columnNames' := columnNames;
    var sanitizedValue := Sanitize(trimmedValue);
    if sanitizedValue in columnNames' {
      columnNames' := columnNames'[sanitizedValue := columnNames'[sanitizedValue] + 1];
      sanitizedValue := sanitizedValue + NatToString(columnNames'[sanitizedValue]);
    } else {
      columnNames' := columnNames'[sanitizedValue := 0];
    }
    if '[' in value {
      sanitizedValue := Quote(trimmedValue);
    } else if HasUpper(sanitizedValue) || StartsWith(sanitizedValue, "$") {
      sanitizedValue := Quote(sanitizedValue);
    }
    column := sanitizedValue + " agtype";
  }

  /** returnValues.Select(...) over one dictionary that lives for the whole call. */
  method DeclareColumns(returnValues: seq<string>) returns (columns: seq<string>)
    ensures columns == Declare(returnValues).0
  {
    var columnNames: map<string, nat> := map[];
    columns := [];
    for i := 0 to |returnValues|
      invariant (columns, columnNames) == Declare(returnValues[..i])
    {
      assert returnValues[..i + 1][..i] == returnValues[..i];
      var column;
      column, columnNames := DeclareColumn(returnValues[i], columnNames);
      columns := columns + [column];
    }
    assert returnValues[..|returnValues|] == returnValues;
  }

  /** The declaration GenerateAsPart returns. */
  function Declaration(cypher: string): string {
    match ReturnClause(cypher)
    case None => ResultColumn
    case Some(clause) =>
      if HasWriteKeyword(clause) then ResultColumn
      else "(" + JoinWith(Declare(SplitPieces(clause)).0, ", ") + ")"
  }

  method GenerateAsPart(cypher: string) returns (asPart: string)
    ensures asPart == Declaration(cypher)
  {
    var text := Normalize(cypher);
    var matches := ReturnMatches(text, 0);
    if |matches| == 0 {
      return ResultColumn;
    }
    var match_ := matches[|matches| - 1];
    var clause := text[match_.start..match_.end];
    if HasWriteKeyword(clause) {
      return ResultColumn;
    }
    var returnValues := SplitReturnValues(clause);
    var columns := DeclareColumns(returnValues);
    asPart := "(" + JoinWith(columns, ", ") + ")";
  }
}
