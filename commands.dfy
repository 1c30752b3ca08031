/**
 * The driver's NpgsqlCommand, reduced to what the command builders touch:
 * the command text and the parameter collection. A command is a class whose
 * fields the builders update in place; CommandRecord is its value, the
 * (text, parameters) pair the specification functions describe.
 */
module Commands {
  import opened Wrappers
  import opened AgeValues

  /** The value of a parameter: a plain string, or an Agtype value. */
  datatype ParameterValue = TextValue(text: string) | AgtypeValue(agtype: Agtype)

  /** NpgsqlParameter: its name ("" for a positional parameter), value and DataTypeName, if set. */
  datatype Parameter = Parameter(name: string, value: ParameterValue, dataTypeName: Option<string>)

  /** What a command amounts to: its text and its parameters, in order. */
  datatype CommandRecord = CommandRecord(text: string, parameters: seq<Parameter>)

  /** NpgsqlCommand: CommandText and Parameters, both changed in place. */
  class Command {
    var commandText: string
    var parameters: seq<Parameter>

    function Snapshot(): CommandRecord
      reads this
    {
      CommandRecord(commandText, parameters)
    }

    /** A new command with the given text and no parameters. */
    constructor (text: string)
      ensures Snapshot() == CommandRecord(text, [])
    {
      commandText := text;
      parameters := [];
    }

    /** The CommandText setter. */
    method SetCommandText(text: string)
      modifies this
      ensures Snapshot() == CommandRecord(text, old(parameters))
    {
      commandText := text;
    }

    /** Parameters.Add: the parameter goes to the end of the collection. */
    method Add(parameter: Parameter)
      modifies this
      ensures Snapshot() == CommandRecord(old(commandText), old(parameters) + [parameter])
    {
      parameters := parameters + [parameter];
    }

    /** Parameters.AddWithValue(name, value); the positional overload passes the name "". */
    method AddWithValue(name: string, value: ParameterValue)
      modifies this
      ensures Snapshot() == CommandRecord(old(commandText), old(parameters) + [Parameter(name, value, None)])
    {
      Add(Parameter(name, value, None));
    }

    /** Parameters[index].DataTypeName = typeName; the indexer demands an existing parameter. */
    method SetDataTypeName(index: nat, typeName: string)
      requires index < |parameters|
      modifies this
      ensures Snapshot()
              == CommandRecord(old(commandText),
                               old(parameters)[index := old(parameters)[index].(dataTypeName := Some(typeName))])
    {
      parameters := parameters[index := parameters[index].(dataTypeName := Some(typeName))];
    }
  }
}
