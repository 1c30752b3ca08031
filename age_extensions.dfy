/**
 * The command builders of Npgsql.Age (NpgsqlConnectionAgeExtensions): the
 * fixed graph-management SQL with the graph name as positional parameter $1,
 * and the cypher(...) call whose body is the escaped query and whose column
 * list is the declaration GenerateAsPart synthesises from the query as given.
 */
module AgeExtensions {
  import opened Wrappers
  import opened TextChars
  import opened AgeValues
  import opened Commands
  import CypherHelpers

  const CreateGraphSql: string := "SELECT * FROM ag_catalog.create_graph($1);"
  const DropGraphSql: string := "SELECT * FROM ag_catalog.drop_graph($1, true);"
  const GraphExistsSql: string := "SELECT EXISTS (SELECT 1 FROM ag_catalog.ag_graph WHERE name = $1);"
  const AgtypeTypeName: string := "ag_catalog.agtype"

  /** The text of a cypher command up to the graph name. */
  const CypherPrefix: string := "SELECT * FROM ag_catalog.cypher('"

  /** new NpgsqlParameter { Value = graphName }: unnamed, bound to $1. */
  function GraphNameParameter(graphName: string): Parameter {
    Parameter("", TextValue(graphName), None)
  }

  /** A graph-management command: fixed SQL and the graph name as its one parameter. */
  function GraphCommand(sql: string, graphName: string): CommandRecord {
    CommandRecord(sql, [GraphNameParameter(graphName)])
  }

  /** The interpolated query of CreateCypherCommand(graphName, cypher), given the declaration. */
  function CypherQuery(graphName: string, cypher: string, asPart: string): string {
    CypherPrefix + graphName + "', $$ " + CypherHelpers.EscapeCypher(cypher) + " $$) as " + asPart + ";"
  }

  /** The interpolated query of the JSON overload: the same with the argument $1 after the body. */
  function CypherQueryWithParameter(graphName: string, cypher: string, asPart: string): string {
    CypherPrefix + graphName + "', $$ " + CypherHelpers.EscapeCypher(cypher) + " $$, $1) as " + asPart + ";"
  }

  /** The command CreateCypherCommand(graphName, cypher) builds. */
  function CypherCommand(graphName: string, cypher: string): CommandRecord {
    CommandRecord(CypherQuery(graphName, cypher, CypherHelpers.Declaration(cypher)), [])
  }

  /** The command the JSON overload builds: one unnamed agtype parameter holding the JSON text. */
  function JsonCypherCommand(graphName: string, cypher: string, parametersJson: string): CommandRecord {
    CommandRecord(CypherQueryWithParameter(graphName, cypher, CypherHelpers.Declaration(cypher)),
                  [Parameter("", AgtypeValue(Agtype(parametersJson)), Some(AgtypeTypeName))])
  }

  method CreateGraphCommand(graphName: string) returns (command: CommandRecord)
    ensures command == GraphCommand(CreateGraphSql, graphName)
  {
    var c := new Command(CreateGraphSql);
    c.Add(Parameter("", TextValue(graphName), None));
    command := c.Snapshot();
  }

  method DropGraphCommand(graphName: string) returns (command: CommandRecord)
    ensures command == GraphCommand(DropGraphSql, graphName)
  {
    var c := new Command(DropGraphSql);
    c.Add(Parameter("", TextValue(graphName), None));
    command := c.Snapshot();
  }

  method GraphExistsCommand(graphName: string) returns (command: CommandRecord)
    ensures command == GraphCommand(GraphExistsSql, graphName)
  {
    var c := new Command(GraphExistsSql);
    c.Add(Parameter("", TextValue(graphName), None));
    command := c.Snapshot();
  }

  /** CreateCypherCommand(graphName, cypher): no parameters. */
  method CreateCypherCommand(graphName: string, cypher: string) returns (command: CommandRecord)
    ensures command == CypherCommand(graphName, cypher)
  {
    var asPart := CypherHelpers.GenerateAsPart(cypher);
    var query := CypherPrefix + graphName + "', $$ " + CypherHelpers.EscapeCypher(cypher) + " $$) as " + asPart + ";";
    var c := new Command(query);
    command := c.Snapshot();
  }

  /** CreateCypherCommand(graphName, cypher, parametersJson). */
  method CreateCypherCommandWithJson(graphName: string, cypher: string, parametersJson: string)
    returns (command: CommandRecord)
    ensures command == JsonCypherCommand(graphName, cypher, parametersJson)
  {
    var asPart := CypherHelpers.GenerateAsPart(cypher);
    var query := CypherPrefix + graphName + "', $$ " + CypherHelpers.EscapeCypher(cypher) + " $$, $1) as " + asPart + ";";
    var c := new Command(query);
    c.AddWithValue("", AgtypeValue(Agtype(parametersJson)));
    c.SetDataTypeName(0, AgtypeTypeName);
    command := c.Snapshot();
  }

  /**
   * CreateCypherCommand(graphName, cypher, parameters): the dictionary is
   * serialised to JSON (JsonSerializer.Serialize, supplied as `serialize`)
   * and handed to the JSON overload.
   */
  method CreateCypherCommandWithDictionary<P>(graphName: string, cypher: string, parameters: map<string, P>,
                                              serialize: map<string, P> -> string)
    returns (command: CommandRecord)
    ensures command == JsonCypherCommand(graphName, cypher, serialize(parameters))
  {
    var parametersJson := serialize(parameters);
    command := CreateCypherCommandWithJson(graphName, cypher, parametersJson);
  }

  // ---------------------------------------------------------------------------
  // Properties

  /**
   * The graph-management commands have fixed text: the graph name is never
   * part of it, only the value of the single parameter; drop cascades.
   */
  lemma GraphNameOnlyAsParameter(graphName: string, other: string)
    ensures GraphCommand(CreateGraphSql, graphName).text == GraphCommand(CreateGraphSql, other).text
    ensures GraphCommand(DropGraphSql, graphName).text == GraphCommand(DropGraphSql, other).text
    ensures GraphCommand(GraphExistsSql, graphName).text == GraphCommand(GraphExistsSql, other).text
    ensures var ps := GraphCommand(CreateGraphSql, graphName).parameters;
            |ps| == 1 && ps[0].value == TextValue(graphName) && ps[0].name == ""
    ensures EndsWith(DropGraphSql, "($1, true);")
  {
  }

  /** The length of the JSON query up to the end of the closing $$ of the body. */
  function BodyEnd(graphName: string, cypher: string): nat {
    |CypherPrefix| + |graphName| + |"', $$ "| + |CypherHelpers.EscapeCypher(cypher)| + |" $$"|
  }

  /** The JSON query is the plain query with ", $1" inserted right after the closing $$. */
  lemma ParameterInsertedAfterBody(graphName: string, cypher: string, asPart: string)
    ensures var plain := CypherQuery(graphName, cypher, asPart);
            var k := BodyEnd(graphName, cypher);
            k <= |plain| && CypherQueryWithParameter(graphName, cypher, asPart) == plain[..k] + ", $1" + plain[k..]
  {
    var head := CypherPrefix + graphName + "', $$ " + CypherHelpers.EscapeCypher(cypher) + " $$";
    var tail := ") as " + asPart + ";";
    var plain := CypherQuery(graphName, cypher, asPart);
    assert plain == head + tail;
    assert CypherQueryWithParameter(graphName, cypher, asPart) == head + ", $1" + tail;
    assert |head| == BodyEnd(graphName, cypher);
    assert plain[..|head|] == head;
    assert plain[|head|..] == tail;
  }

  /**
   * The body of the cypher call is the escaped query, which is the query
   * itself when it has no backslash; the declaration closing the text is
   * the one computed from the query as given.
   */
  lemma BodyIsEscapedQuery(graphName: string, cypher: string, asPart: string)
    ensures var text := CypherQuery(graphName, cypher, asPart);
            var start := |CypherPrefix| + |graphName| + |"', $$ "|;
            var body := CypherHelpers.EscapeCypher(cypher);
            start + |body| <= |text| && text[start..start + |body|] == body
            && ('\\' !in cypher ==> text[start..start + |body|] == cypher)
            && EndsWith(text, " $$) as " + asPart + ";")
  {
    var head := CypherPrefix + graphName + "', $$ ";
    var body := CypherHelpers.EscapeCypher(cypher);
    var tail := " $$) as " + asPart + ";";
    assert CypherQuery(graphName, cypher, asPart) == head + body + tail;
    assert |head| == |CypherPrefix| + |graphName| + |"', $$ "|;
    assert '\\' !in cypher ==> body == cypher;
    MiddleOfThree(head, body, tail);
  }

  /** In a text made of three parts, the second starts right after the first, and the text ends with the third. */
  lemma MiddleOfThree(a: string, b: string, c: string)
    ensures |a| + |b| <= |a + b + c| && (a + b + c)[|a|..|a| + |b|] == b
    ensures EndsWith(a + b + c, c)
  {
    assert (a + b + c)[|a| + |b|..] == c;
  }

  /** The first single quote at or after position i, or |s|. */
  function QuoteFrom(s: string, i: nat): (j: nat)
    requires i <= |s|
    ensures i <= j <= |s|
    ensures j == |s| || s[j] == '\''
    ensures forall k :: i <= k < j ==> s[k] != '\''
    decreases |s| - i
  {
    if i == |s| || s[i] == '\'' then i else QuoteFrom(s, i + 1)
  }

  /** The graph name as PostgreSQL reads it: from the opening quote to the next quote. */
  function QuotedGraphName(text: string): string {
    if StartsWith(text, CypherPrefix) then text[|CypherPrefix|..QuoteFrom(text, |CypherPrefix|)] else ""
  }

  /**
   * The graph name is interpolated without escaping: the server reads it back
   * exactly when it holds no single quote.
   */
  lemma GraphNameReadBack(graphName: string, cypher: string, asPart: string)
    ensures QuotedGraphName(CypherQuery(graphName, cypher, asPart)) == graphName <==> '\'' !in graphName
  {
    var text := CypherQuery(graphName, cypher, asPart);
    var rest := "', $$ " + CypherHelpers.EscapeCypher(cypher) + " $$) as " + asPart + ";";
    assert text == CypherPrefix + graphName + rest;
    var p := |CypherPrefix|;
    assert text[..p] == CypherPrefix;
    assert text[p + |graphName|] == '\'';
    forall k | 0 <= k < |graphName|
      ensures text[p + k] == graphName[k]
    {
    }
    var q := QuoteFrom(text, p);
    if '\'' !in graphName {
      assert q == p + |graphName|;
      assert text[p..q] == graphName;
    } else {
      var k :| 0 <= k < |graphName| && graphName[k] == '\'';
      assert q <= p + k;
      assert |QuotedGraphName(text)| < |graphName|;
    }
  }
}
