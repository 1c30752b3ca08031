/**
 * The older ApacheAGE client: its CypherHelpers.GenerateAsPart, which takes
 * the rest of the line after the first `RETURN`, splits it at every comma and
 * declares each trimmed piece verbatim, and its data-source and connection
 * command builders, which put the query into cypher(...) without escaping and
 * pass the graph name as a parameter called "name".
 */
module LegacyAgeExtensions {
  import opened Wrappers
  import opened TextChars
  import opened Commands
  import CypherPatterns
  import CypherHelpers

  // ---------------------------------------------------------------------------
  // GenerateAsPart

  /** Regex `RETURN\s+(.*)` with IgnoreCase can start at i: the keyword, then at least one white-space character. */
  predicate MatchAt(t: string, i: nat) {
    KeywordAt(t, i, "return") && i + 6 < |t| && IsSpace(t[i + 6])
  }

  /** Regex.Match scans left to right: the first position at or after `from` where a match starts. */
  function FirstMatchFrom(t: string, from: nat): (r: Option<nat>)
    ensures r.Some? ==> from <= r.value && MatchAt(t, r.value)
    ensures r.Some? ==> forall i :: from <= i < r.value ==> !MatchAt(t, i)
    ensures r.None? ==> forall i :: from <= i ==> !MatchAt(t, i)
    decreases |t| - from
  {
    if from >= |t| then None
    else if MatchAt(t, from) then Some(from)
    else FirstMatchFrom(t, from + 1)
  }

  /** Where `.*` stops: the first line feed at or after i, or the end of the text. */
  function LineEnd(t: string, i: nat): (j: nat)
    requires i <= |t|
    ensures i <= j <= |t|
    ensures j == |t| || t[j] == '\n'
    ensures forall k :: i <= k < j ==> t[k] != '\n'
    decreases |t| - i
  {
    if i == |t| || t[i] == '\n' then i else LineEnd(t, i + 1)
  }

  /**
   * Group 1 of the first match. Greedy \s+ takes the whole white-space run
   * (line feeds included); `.*` may be empty, so it never has to give any back.
   */
  function Capture(cypher: string): Option<string> {
    match FirstMatchFrom(cypher, 0)
    case None => None
    case Some(i) =>
      var s := CypherPatterns.SkipSpaces(cypher, i + 6);
      Some(cypher[s..LineEnd(cypher, s)])
  }

  /** String.Split(separator): every occurrence cuts, empty pieces included. */
  function SplitOn(s: string, separator: char): (r: seq<string>)
    ensures |r| >= 1
  {
    if s == [] then [""]
    else
      var pieces := SplitOn(s[..|s| - 1], separator);
      var c := s[|s| - 1];
      if c == separator then pieces + [""]
      else pieces[..|pieces| - 1] + [pieces[|pieces| - 1] + [c]]
  }

  /** The number of occurrences of c in s. */
  function CountOf(s: string, c: char): nat {
    if s == [] then 0 else CountOf(s[..|s| - 1], c) + (if s[|s| - 1] == c then 1 else 0)
  }

  /** Each piece trimmed, followed by " agtype". */
  function Columns(values: seq<string>): seq<string> {
    seq(|values|, k requires 0 <= k < |values| => Trim(values[k]) + " agtype")
  }

  /** The declaration: always a parenthesised list whose last column is typed agtype. */
  function GenerateAsPart(cypher: string): (r: string)
    ensures StartsWith(r, "(") && EndsWith(r, " agtype)")
  {
    match Capture(cypher)
    case None => "(result agtype)"
    case Some(returnPart) =>
      var values := SplitOn(returnPart, ',');
      ParenthesisedColumns(values);
      "(" + JoinWith(Columns(values), ", ") + ")"
  }

  lemma ParenthesisedColumns(values: seq<string>)
    requires |values| >= 1
    ensures var r := "(" + JoinWith(Columns(values), ", ") + ")";
            StartsWith(r, "(") && EndsWith(r, " agtype)")
  {
    var columns := Columns(values);
    var last := columns[|columns| - 1];
    assert EndsWith(last, " agtype") by {
      var t := Trim(values[|values| - 1]);
      assert last == t + " agtype";
      assert (t + " agtype")[|t|..] == " agtype";
    }
    JoinEndsWithLast(columns, ", ");
    Parenthesised(JoinWith(columns, ", "), last);
  }

  lemma JoinEndsWithLast(parts: seq<string>, sep: string)
    requires |parts| >= 1
    ensures EndsWith(JoinWith(parts, sep), parts[|parts| - 1])
  {
    if |parts| > 1 {
      var front := JoinWith(parts[..|parts| - 1], sep) + sep;
      assert JoinWith(parts, sep) == front + parts[|parts| - 1];
      assert (front + parts[|parts| - 1])[|front|..] == parts[|parts| - 1];
    }
  }

  lemma Parenthesised(joined: string, last: string)
    requires EndsWith(joined, last) && EndsWith(last, " agtype")
    ensures StartsWith("(" + joined + ")", "(") && EndsWith("(" + joined + ")", " agtype)")
  {
    var r := "(" + joined + ")";
    assert joined[|joined| - 7..] == " agtype" by {
      assert joined[|joined| - |last|..][|last| - 7..] == last[|last| - 7..];
    }
    assert r[|r| - 8..] == joined[|joined| - 7..] + ")";
  }

  // ---------------------------------------------------------------------------
  // Properties of GenerateAsPart

  /** Without a `RETURN` followed by white space, the declaration is the single result column. */
  lemma NoMatchMeansResultColumn(cypher: string)
    ensures Capture(cypher).None? <==> forall i :: !MatchAt(cypher, i)
    ensures Capture(cypher).None? ==> GenerateAsPart(cypher) == "(result agtype)"
  {
    var r := FirstMatchFrom(cypher, 0);
    if r.Some? {
      assert MatchAt(cypher, r.value);
    }
  }

  /**
   * The capture belongs to the first match: it starts after the white space
   * that follows the earliest `RETURN`, does not begin with white space, and
   * stops at the end of that line.
   */
  lemma CaptureIsRestOfFirstLine(cypher: string, i: nat)
    requires MatchAt(cypher, i) && forall j :: 0 <= j < i ==> !MatchAt(cypher, j)
    ensures Capture(cypher).Some?
    ensures var s := CypherPatterns.SkipSpaces(cypher, i + 6);
            var e := s + |Capture(cypher).value|;
            e <= |cypher| && cypher[s..e] == Capture(cypher).value && (e == |cypher| || cypher[e] == '\n')
    ensures '\n' !in Capture(cypher).value
    ensures Capture(cypher).value == [] || !IsSpace(Capture(cypher).value[0])
  {
    var r := FirstMatchFrom(cypher, 0);
    assert r.Some?;
    assert r.value == i;
    var s := CypherPatterns.SkipSpaces(cypher, i + 6);
    var e := LineEnd(cypher, s);
    var cap := cypher[s..e];
    assert Capture(cypher) == Some(cap);
    forall k | 0 <= k < |cap|
      ensures cap[k] != '\n'
    {
      assert cap[k] == cypher[s + k];
    }
    if cap != [] {
      assert cap[0] == cypher[s];
    }
  }

  /** Splitting loses nothing: the pieces joined with the separator give the text back. */
  lemma {:induction false} SplitJoin(s: string, separator: char)
    ensures JoinWith(SplitOn(s, separator), [separator]) == s
  {
    if s != [] {
      var p := s[..|s| - 1];
      var c := s[|s| - 1];
      SplitJoin(p, separator);
      var pieces := SplitOn(p, separator);
      assert s == p + [c];
      if c == separator {
        assert SplitOn(s, separator) == pieces + [""];
        assert (pieces + [""])[..|pieces|] == pieces;
      } else {
        var init := pieces[..|pieces| - 1];
        var last := pieces[|pieces| - 1];
        assert SplitOn(s, separator) == init + [last + [c]];
        JoinLast(init, last, [separator]);
        JoinLast(init, last + [c], [separator]);
      }
    }
  }

  /** How JoinWith treats the last part, whether or not it is the only one. */
  lemma JoinLast(init: seq<string>, last: string, sep: string)
    ensures JoinWith(init + [last], sep) == if init == [] then last else JoinWith(init, sep) + sep + last
  {
    assert (init + [last])[..|init|] == init;
  }

  /** No piece contains the separator, and there is one piece more than separators. */
  lemma {:induction false} SplitCount(s: string, separator: char)
    ensures |SplitOn(s, separator)| == CountOf(s, separator) + 1
    ensures forall k :: 0 <= k < |SplitOn(s, separator)| ==> separator !in SplitOn(s, separator)[k]
  {
    if s != [] {
      var p := s[..|s| - 1];
      SplitCount(p, separator);
    }
  }

  /**
   * One column per comma-separated piece of the capture, nesting ignored:
   * the piece trimmed and declared verbatim, with no renaming or quoting.
   */
  lemma ColumnsOfCapture(cypher: string, returnPart: string)
    requires Capture(cypher) == Some(returnPart)
    ensures var columns := Columns(SplitOn(returnPart, ','));
            GenerateAsPart(cypher) == "(" + JoinWith(columns, ", ") + ")"
            && |columns| == CountOf(returnPart, ',') + 1
            && forall k :: 0 <= k < |columns| ==> columns[k] == Trim(SplitOn(returnPart, ',')[k]) + " agtype"
  {
    SplitCount(returnPart, ',');
  }

  /** Balance counts nothing in a text holding neither of its two characters. */
  lemma {:induction false} BalanceWithout(s: string, open: char, close: char)
    requires open !in s && close !in s
    ensures CypherHelpers.Balance(s, open, close) == 0
  {
    if s != [] {
      BalanceWithout(s[..|s| - 1], open, close);
    }
  }

  predicate NoNesting(s: string) {
    forall c :: c in "{}[]()" ==> c !in s
  }

  /**
   * Compared with the newer splitter: on a text without braces, brackets or
   * parentheses both cut at exactly the same commas.
   */
  lemma {:induction false} SplitsAgreeWithoutNesting(s: string)
    requires NoNesting(s)
    ensures CypherHelpers.Segments(s) == SplitOn(s, ',')
  {
    if s != [] {
      var p := s[..|s| - 1];
      var c := s[|s| - 1];
      assert s == p + [c];
      assert NoNesting(p) by {
        forall d | d in "{}[]()" ensures d !in p {
          assert d !in s;
        }
      }
      SplitsAgreeWithoutNesting(p);
      assert '{' in "{}[]()" && '}' in "{}[]()" && '[' in "{}[]()" && ']' in "{}[]()" && '(' in "{}[]()" && ')' in "{}[]()";
      BalanceWithout(p, '{', '}');
      BalanceWithout(p, '[', ']');
      BalanceWithout(p, '(', ')');
      assert CypherHelpers.AtTopLevel(p);
      CypherHelpers.SegmentsSnoc(p, c);
    }
  }

  // ---------------------------------------------------------------------------
  // Command builders

  const CreateGraphSql: string := "SELECT * FROM ag_catalog.create_graph($1);"
  const DropGraphSql: string := "SELECT * FROM ag_catalog.drop_graph($1);"
  const GraphExistsSql: string := "SELECT * FROM ag_catalog.ag_graph WHERE name = $1;"

  /** Parameters.AddWithValue("name", graphName). */
  function NameParameter(graphName: string): Parameter {
    Parameter("name", TextValue(graphName), None)
  }

  function GraphCommand(sql: string, graphName: string): CommandRecord {
    CommandRecord(sql, [NameParameter(graphName)])
  }

  /** The query both cypher builders interpolate, given the declaration: the query goes in unescaped. */
  function CypherQuery(graph: string, cypher: string, asPart: string): string {
    "SELECT * FROM cypher('" + graph + "', $$ " + cypher + " $$) as " + asPart + ";"
  }

  /** dataSource.CreateCommand(sql), then AddWithValue("name", graphName). */
  method DataSourceGraphCommand(sql: string, graphName: string) returns (command: CommandRecord)
    ensures command == GraphCommand(sql, graphName)
  {
    var c := new Command(sql);
    c.AddWithValue("name", TextValue(graphName));
    command := c.Snapshot();
  }

  /** connection.CreateCommand(), then CommandText = sql, then AddWithValue("name", graphName). */
  method ConnectionGraphCommand(sql: string, graphName: string) returns (command: CommandRecord)
    ensures command == GraphCommand(sql, graphName)
  {
    var c := new Command("");
    c.SetCommandText(sql);
    c.AddWithValue("name", TextValue(graphName));
    command := c.Snapshot();
  }

  method DataSourceCreateGraphCommand(graphName: string) returns (command: CommandRecord)
    ensures command == GraphCommand(CreateGraphSql, graphName)
  {
    command := DataSourceGraphCommand(CreateGraphSql, graphName);
  }

  method DataSourceDropGraphCommand(graphName: string) returns (command: CommandRecord)
    ensures command == GraphCommand(DropGraphSql, graphName)
  {
    command := DataSourceGraphCommand(DropGraphSql, graphName);
  }

  method DataSourceGraphExistsCommand(graphName: string) returns (command: CommandRecord)
    ensures command == GraphCommand(GraphExistsSql, graphName)
  {
    command := DataSourceGraphCommand(GraphExistsSql, graphName);
  }

  method ConnectionCreateGraphCommand(graphName: string) returns (command: CommandRecord)
    ensures command == GraphCommand(CreateGraphSql, graphName)
  {
    command := ConnectionGraphCommand(CreateGraphSql, graphName);
  }

  method ConnectionDropGraphCommand(graphName: string) returns (command: CommandRecord)
    ensures command == GraphCommand(DropGraphSql, graphName)
  {
    command := ConnectionGraphCommand(DropGraphSql, graphName);
  }

  method ConnectionGraphExistsCommand(graphName: string) returns (command: CommandRecord)
    ensures command == GraphCommand(GraphExistsSql, graphName)
  {
    command := ConnectionGraphCommand(GraphExistsSql, graphName);
  }

  /** dataSource.CreateCommand(query) with the interpolated query and no parameters. */
  method DataSourceCreateCypherCommand(graph: string, cypher: string) returns (command: CommandRecord)
    ensures command == CommandRecord(CypherQuery(graph, cypher, GenerateAsPart(cypher)), [])
  {
    var asPart := GenerateAsPart(cypher);
    var query := "SELECT * FROM cypher('" + graph + "', $$ " + cypher + " $$) as " + asPart + ";";
    var c := new Command(query);
    command := c.Snapshot();
  }

  /** connection.CreateCommand(), then CommandText = the interpolated query. */
  method ConnectionCreateCypherCommand(graph: string, cypher: string) returns (command: CommandRecord)
    ensures command == CommandRecord(CypherQuery(graph, cypher, GenerateAsPart(cypher)), [])
  {
    var asPart := GenerateAsPart(cypher);
    var query := "SELECT * FROM cypher('" + graph + "', $$ " + cypher + " $$) as " + asPart + ";";
    var c := new Command("");
    c.SetCommandText(query);
    command := c.Snapshot();
  }

  /**
   * The graph commands carry exactly one parameter, named "name", holding the
   * graph name; their text does not depend on it, and drop_graph is called
   * without the cascade argument.
   */
  lemma GraphCommandsShape(sql: string, graphName: string, other: string)
    ensures GraphCommand(sql, graphName).text == GraphCommand(sql, other).text == sql
    ensures var ps := GraphCommand(sql, graphName).parameters;
            |ps| == 1 && ps[0].name == "name" && ps[0].value == TextValue(graphName)
    ensures EndsWith(DropGraphSql, "drop_graph($1);")
  {
  }

  /** The query goes into the cypher call verbatim, between "$$ " and " $$". */
  lemma QueryNotEscaped(graph: string, cypher: string, asPart: string)
    ensures var text := CypherQuery(graph, cypher, asPart);
            var start := |"SELECT * FROM cypher('"| + |graph| + |"', $$ "|;
            start + |cypher| <= |text| && text[start..start + |cypher|] == cypher
  {
    var head := "SELECT * FROM cypher('" + graph + "', $$ ";
    var tail := " $$) as " + asPart + ";";
    var text := CypherQuery(graph, cypher, asPart);
    assert text == head + cypher + tail;
    assert text[|head|..|head| + |cypher|] == cypher;
  }
}
