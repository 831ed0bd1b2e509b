/** The BibTeX source shown on each detail page (Main.bibtex). */
module Serialiser {
  import opened Wrappers
  import opened JavaStrings
  import opened BibDom
  import opened Normalization

  /** The first line: "@type{key," and a newline. */
  function Header(e: Entry): string
  {
    "@" + e.entryType + "{" + e.entryKey + ",\n"
  }

  /** Fields whose name starts with "date" or "url" are not written. */
  predicate Written(name: string)
  {
    !StartsWith(name, "date") && !StartsWith(name, "url")
  }

  /** The line for the field called `name`: its value is looked up by that name and
      normalised; a null value is written as "null". */
  function FieldLine(e: Entry, name: string, macros: Macros): string
  {
    "    " + name + "={" + JavaText(NormalizeField(GetField(e.fields, name), macros)) + "}, \n"
  }

  /** The fields that get a line, in field order. */
  function WrittenFields(fs: seq<Field>): seq<Field>
    decreases |fs|
  {
    if fs == [] then []
    else
      var rest := WrittenFields(fs[..|fs| - 1]);
      if Written(fs[|fs| - 1].0) then rest + [fs[|fs| - 1]] else rest
  }

  /** A field gets a line exactly when its name is neither a date nor a url name. */
  lemma {:induction false} WrittenFieldsMembers(fs: seq<Field>)
    ensures forall f :: f in WrittenFields(fs) <==> f in fs && Written(f.0)
    decreases |fs|
  {
    if fs != [] {
      WrittenFieldsMembers(fs[..|fs| - 1]);
      assert forall f :: f in fs <==> f in fs[..|fs| - 1] || f == fs[|fs| - 1] by {
        assert fs == fs[..|fs| - 1] + [fs[|fs| - 1]];
      }
    }
  }

  /** The lines for the fields `fs`, one after another. */
  function Lines(e: Entry, fs: seq<Field>, macros: Macros): string
    decreases |fs|
  {
    if fs == [] then ""
    else Lines(e, fs[..|fs| - 1], macros) + FieldLine(e, fs[|fs| - 1].0, macros)
  }

  /** The whole serialisation: header, the written fields' lines, closing brace. */
  function BibtexText(e: Entry, macros: Macros): string
  {
    Header(e) + Lines(e, WrittenFields(e.fields), macros) + "}"
  }

  /** What the buffer of bibtex(entry) holds after the first `i` fields. */
  function TextUpTo(e: Entry, i: nat, macros: Macros): string
    requires i <= |e.fields|
  {
    Header(e) + Lines(e, WrittenFields(e.fields[..i]), macros)
  }

  /** bibtex(entry): the loop over the entry's fields appending to a buffer. */
  method Bibtex(e: Entry, macros: Macros) returns (result: string)
    ensures result == BibtexText(e, macros)
  {
    result := Header(e);
    for i := 0 to |e.fields|
      invariant result == TextUpTo(e, i, macros)
    {
      TextAfterField(e, i, macros);
      var keyString := e.fields[i].0;
      if Written(keyString) {
        result := result + FieldLine(e, keyString, macros);
      }
    }
    assert e.fields[..|e.fields|] == e.fields;
    result := result + "}";
  }

  /** One more field adds its line when it is written and nothing otherwise. */
  lemma TextAfterField(e: Entry, i: nat, macros: Macros)
    requires i < |e.fields|
    ensures TextUpTo(e, i + 1, macros)
            == TextUpTo(e, i, macros)
               + (if Written(e.fields[i].0) then FieldLine(e, e.fields[i].0, macros) else "")
  {
    assert e.fields[..i + 1] == e.fields[..i] + [e.fields[i]];
    WrittenFieldsSnoc(e.fields[..i], e.fields[i]);
    var ws := WrittenFields(e.fields[..i]);
    if Written(e.fields[i].0) {
      LinesSnoc(e, ws, e.fields[i], macros);
      AppendAssociative(Header(e), Lines(e, ws, macros), FieldLine(e, e.fields[i].0, macros));
    } else {
      assert TextUpTo(e, i, macros) + "" == TextUpTo(e, i, macros);
    }
  }

  lemma AppendAssociative(a: string, b: string, c: string)
    ensures a + b + c == a + (b + c)
  {
  }

  lemma WrittenFieldsSnoc(fs: seq<Field>, f: Field)
    ensures WrittenFields(fs + [f]) == if Written(f.0) then WrittenFields(fs) + [f] else WrittenFields(fs)
  {
    assert (fs + [f])[..|fs|] == fs;
  }

  lemma LinesSnoc(e: Entry, fs: seq<Field>, f: Field, macros: Macros)
    ensures Lines(e, fs + [f], macros) == Lines(e, fs, macros) + FieldLine(e, f.0, macros)
  {
    assert (fs + [f])[..|fs|] == fs;
  }

  /** The line a field gets when its own value is the one written. */
  function OwnLine(f: Field, macros: Macros): string
  {
    "    " + f.0 + "={" + JavaText(Normalize(f.1, macros)) + "}, \n"
  }

  /** The serialisation begins with the header and ends with the closing brace. */
  lemma BibtexFrame(e: Entry, macros: Macros)
    ensures StartsWith(BibtexText(e, macros), Header(e))
    ensures BibtexText(e, macros)[|BibtexText(e, macros)| - 1] == '}'
  {
    var s := BibtexText(e, macros);
    assert s[..|Header(e)|] == Header(e);
  }

  /** Lines of fields that are all looked up to their own values. */
  lemma {:induction false} LinesOwnValues(e: Entry, fs: seq<Field>, macros: Macros)
    requires forall f :: f in fs ==> GetField(e.fields, f.0) == Some(f.1)
    ensures Lines(e, fs, macros) == ConcatLines(fs, macros)
    decreases |fs|
  {
    if fs != [] {
      var init := fs[..|fs| - 1];
      assert forall f :: f in init ==> f in fs;
      assert fs[|fs| - 1] in fs;
      LinesOwnValues(e, init, macros);
    }
  }

  /** The own lines of `fs`, one after another. */
  function ConcatLines(fs: seq<Field>, macros: Macros): string
    decreases |fs|
  {
    if fs == [] then "" else ConcatLines(fs[..|fs| - 1], macros) + OwnLine(fs[|fs| - 1], macros)
  }

  /** With unique field names the serialisation holds, in field order, exactly one line
      "name={value}," per field that is not a date or url field, carrying that field's
      own normalised value, and no other line. */
  lemma BibtexLines(e: Entry, macros: Macros)
    requires DistinctNames(e.fields)
    ensures BibtexText(e, macros) == Header(e) + ConcatLines(WrittenFields(e.fields), macros) + "}"
  {
    var ws := WrittenFields(e.fields);
    WrittenFieldsMembers(e.fields);
    forall f | f in ws ensures GetField(e.fields, f.0) == Some(f.1) {
      GetFieldOwnValue(e.fields, f);
    }
    LinesOwnValues(e, ws, macros);
  }
}
