/** The parsed bibliography as the BibTeX parser hands it over: values, entries and
    the top-level records of a file. */
module BibDom {
  import opened Wrappers
  import opened JavaStrings

  /** One element of a person list: a person with a possibly null first and last
      name, or any other object the parser put in the list. */
  datatype PersonItem = Person(first: JString, last: JString) | NotAPerson

  /** A field value. `OtherValue` stands for every other kind of value and carries
      the text of its toString(). */
  datatype Value =
    | Str(content: string)
    | Concatenated(left: Value, right: Value)
    | Persons(items: seq<PersonItem>)
    | MacroReference(key: string)
    | OtherValue(text: string)

  /** A field: its name and its value. */
  type Field = (string, Value)

  /** A bibliography entry. The fields are listed in the order in which the entry's
      field table yields them. */
  datatype Entry = Entry(entryType: string, entryKey: string, fields: seq<Field>)

  /** A top-level record of the parsed file: a macro definition (@string), an entry,
      or anything else (preamble, comment). */
  datatype Record =
    | MacroDefinition(key: string, value: Value)
    | EntryRecord(entry: Entry)
    | OtherRecord

  /** getFieldValue: the value of the field called `name`, or null. */
  function GetField(fields: seq<Field>, name: string): Option<Value>
    decreases |fields|
  {
    if fields == [] then None
    else if fields[0].0 == name then Some(fields[0].1)
    else GetField(fields[1..], name)
  }

  /** getFieldValue is null exactly when no field has the name, and otherwise gives
      the value of the first field with that name. */
  lemma {:induction false} GetFieldFinds(fields: seq<Field>, name: string)
    ensures GetField(fields, name).None? <==> forall i :: 0 <= i < |fields| ==> fields[i].0 != name
    ensures GetField(fields, name).Some? ==>
              exists i :: 0 <= i < |fields| && fields[i] == (name, GetField(fields, name).value)
                          && forall j :: 0 <= j < i ==> fields[j].0 != name
    decreases |fields|
  {
    if fields != [] && fields[0].0 != name {
      GetFieldFinds(fields[1..], name);
      if GetField(fields[1..], name).Some? {
        var i :| 0 <= i < |fields[1..]| && fields[1..][i] == (name, GetField(fields[1..], name).value)
                 && forall j :: 0 <= j < i ==> fields[1..][j].0 != name;
        assert fields[i + 1] == fields[1..][i];
        forall j | 0 <= j < i + 1 ensures fields[j].0 != name {
          if j > 0 { assert fields[j] == fields[1..][j - 1]; }
        }
      }
      forall i | 0 < i < |fields| ensures fields[i] == fields[1..][i - 1] { }
    }
    if fields != [] && fields[0].0 == name {
      assert fields[0] == (name, GetField(fields, name).value);
    }
  }

  /** Field names are unique, as the keys of the entry's field table are. */
  ghost predicate DistinctNames(fields: seq<Field>)
  {
    forall i, j :: 0 <= i < j < |fields| ==> fields[i].0 != fields[j].0
  }

  /** With unique names, looking a field up by its name gives its own value. */
  lemma {:induction false} GetFieldOwnValue(fields: seq<Field>, f: Field)
    requires DistinctNames(fields)
    requires f in fields
    ensures GetField(fields, f.0) == Some(f.1)
    decreases |fields|
  {
    if fields[0] != f {
      var j :| 0 <= j < |fields| && fields[j] == f;
      assert fields[0].0 != fields[j].0;
      assert fields[1..][j - 1] == f;
      GetFieldOwnValue(fields[1..], f);
    }
  }
}
