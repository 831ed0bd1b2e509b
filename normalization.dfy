/** Flattening of parsed field values into display strings, and the macro table
    that resolves macro references (Main.normalize and the macro loop of Main.main). */
module Normalization {
  import opened Wrappers
  import opened JavaStrings
  import opened BibDom

  /** What a missing (null) field normalises to. */
  const Missing := "N/A"

  /** The two escaped umlauts the leaf normalisation rewrites, and their replacements. */
  const EscapedSmallU := "\\\"u"
  const EscapedSmallA := "\\\"a"
  const SmallUWithDiaeresis := "ü"
  const SmallAWithDiaeresis := "ä"

  /** The macro table: macro key to its normalised value, which may itself be null. */
  type Macros = map<string, JString>

  /** macros.get(key): null when the key has no binding. */
  function MacroValue(macros: Macros, key: string): JString
  {
    if key in macros then macros[key] else None
  }

  // ---------------------------------------------------------------------------
  // normalize(String)

  /** normalize(String): drop every brace, then rewrite the two escaped umlauts. */
  function NormalizeText(input: string): (r: string)
    ensures '{' !in r && '}' !in r
  {
    var noOpen := ReplaceAll(input, "{", "");
    var noBraces := ReplaceAll(noOpen, "}", "");
    var withU := ReplaceAll(noBraces, EscapedSmallU, SmallUWithDiaeresis);
    ReplaceCharByNothing(input, '{');
    ReplaceCharByNothing(noOpen, '}');
    ReplaceAllAvoids(noBraces, EscapedSmallU, SmallUWithDiaeresis, '{');
    ReplaceAllAvoids(noBraces, EscapedSmallU, SmallUWithDiaeresis, '}');
    ReplaceAllAvoids(withU, EscapedSmallA, SmallAWithDiaeresis, '{');
    ReplaceAllAvoids(withU, EscapedSmallA, SmallAWithDiaeresis, '}');
    ReplaceAll(withU, EscapedSmallA, SmallAWithDiaeresis)
  }

  /** A string that contains `p` contains its first character. */
  lemma ContainsFirstChar(s: string, p: string)
    requires p != []
    ensures Contains(s, p) ==> p[0] in s
  {
    ContainsOccurs(s, p);
    if Contains(s, p) {
      var i :| OccursAt(s, p, i);
      assert s[i..i + |p|][0] == s[i];
    }
  }

  /** Text without a backslash has no escape to rewrite: it normalises to itself with
      every brace removed and nothing else changed. */
  lemma NormalizeTextWithoutEscapes(input: string)
    requires '\\' !in input
    ensures NormalizeText(input) == Without(Without(input, '{'), '}')
  {
    var noOpen := ReplaceAll(input, "{", "");
    ReplaceCharByNothing(input, '{');
    ReplaceCharByNothing(noOpen, '}');
    var noBraces := ReplaceAll(noOpen, "}", "");
    assert '\\' !in noBraces;
    ContainsFirstChar(noBraces, EscapedSmallU);
    ReplaceAllAbsent(noBraces, EscapedSmallU, SmallUWithDiaeresis);
    ContainsFirstChar(noBraces, EscapedSmallA);
    ReplaceAllAbsent(noBraces, EscapedSmallA, SmallAWithDiaeresis);
  }

  // ---------------------------------------------------------------------------
  // normalize(BibtexAbstractValue)

  /** "first last" for one person; a null name is written as "null". */
  function FullName(first: JString, last: JString): string
  {
    JavaText(first) + " " + JavaText(last)
  }

  /** The full names of the persons in a person list, in list order; other
      elements are skipped. */
  function FullNames(items: seq<PersonItem>): (r: seq<string>)
    ensures |r| == PersonCount(items)
    decreases |items|
  {
    if items == [] then []
    else
      var rest := FullNames(items[..|items| - 1]);
      match items[|items| - 1]
      case Person(first, last) => rest + [FullName(first, last)]
      case NotAPerson => rest
  }

  /** How many elements of the list are persons. */
  function PersonCount(items: seq<PersonItem>): nat
    decreases |items|
  {
    if items == [] then 0
    else PersonCount(items[..|items| - 1]) + (if items[|items| - 1].Person? then 1 else 0)
  }

  /** The person-list branch of normalize: the appending loop with its index counter.
      It writes the persons' full names in order with ", " between neighbours. */
  method NormalizePersons(items: seq<PersonItem>) returns (list: string)
    ensures list == Join(", ", FullNames(items))
  {
    var index := 0;
    list := "";
    for i := 0 to |items|
      invariant index == |FullNames(items[..i])|
      invariant list == Join(", ", FullNames(items[..i]))
    {
      assert items[..i + 1][..i] == items[..i];
      match items[i] {
        case Person(first, last) =>
          if index > 0 {
            list := list + ", ";
          }
          ghost var before := FullNames(items[..i]);
          index := index + 1;
          list := list + JavaText(first) + " " + JavaText(last);
          if before != [] {
            JoinSnoc(", ", before, FullName(first, last));
          }
        case NotAPerson =>
      }
    }
    assert items[..|items|] == items;
  }

  /** normalize(BibtexAbstractValue) on a non-null value. The result is null only for
      a reference to a macro whose table entry is null or missing; a null part of a
      concatenation is written as "null". */
  function Normalize(v: Value, macros: Macros): (r: JString)
    ensures r.None? <==> v.MacroReference? && MacroValue(macros, v.key).None?
    ensures (v.Str? || v.OtherValue?) ==> r.Some? && '{' !in r.value && '}' !in r.value
  {
    match v
    case Str(content) => Some(NormalizeText(content))
    case Concatenated(left, right) =>
      Some(JavaText(Normalize(left, macros)) + " " + JavaText(Normalize(right, macros)))
    case Persons(items) => Some(Join(", ", FullNames(items)))
    case MacroReference(key) => MacroValue(macros, key)
    case OtherValue(text) => Some(NormalizeText(text))
  }

  /** normalize applied to a field lookup: a null value gives "N/A". */
  function NormalizeField(v: Option<Value>, macros: Macros): (r: JString)
    ensures v.None? ==> r == Some(Missing)
  {
    match v
    case None => Some(Missing)
    case Some(value) => Normalize(value, macros)
  }

  /** A concatenation of two parts that are not null normalises to the two normalised
      parts with one space between them. */
  lemma NormalizeConcatenation(left: Value, right: Value, macros: Macros)
    requires !(left.MacroReference? && MacroValue(macros, left.key).None?)
    requires !(right.MacroReference? && MacroValue(macros, right.key).None?)
    ensures Normalize(left, macros).Some? && Normalize(right, macros).Some?
    ensures Normalize(Concatenated(left, right), macros)
            == Some(Normalize(left, macros).value + " " + Normalize(right, macros).value)
  {
  }

  /** A person list with k persons normalises to their k full names separated by
      exactly k - 1 occurrences of ", ". */
  lemma PersonListLength(items: seq<PersonItem>, macros: Macros)
    requires PersonCount(items) > 0
    ensures var r := Normalize(Persons(items), macros);
            r.Some? && |r.value| == TotalLength(FullNames(items)) + 2 * (PersonCount(items) - 1)
  {
    JoinLength(", ", FullNames(items));
  }

  // ---------------------------------------------------------------------------
  // the macro table

  /** `rec` is a definition of macro `key`. */
  predicate Defines(rec: Record, key: string)
  {
    rec.MacroDefinition? && rec.key == key
  }

  /** The macro table after the loop over `doc`: each definition, in document order,
      binds its key to its value normalised against the table built so far. */
  function MacroTable(doc: seq<Record>): Macros
    decreases |doc|
  {
    if doc == [] then map[]
    else
      var table := MacroTable(doc[..|doc| - 1]);
      match doc[|doc| - 1]
      case MacroDefinition(key, value) => table[key := Normalize(value, table)]
      case _ => table
  }

  /** The position of the last definition of `key` in `doc`, if any. */
  function LastDefinition(doc: seq<Record>, key: string): (r: Option<nat>)
    ensures r.Some? ==> r.value < |doc| && Defines(doc[r.value], key)
    ensures r.Some? ==> forall j :: r.value < j < |doc| ==> !Defines(doc[j], key)
    ensures r.None? ==> forall j :: 0 <= j < |doc| ==> !Defines(doc[j], key)
    decreases |doc|
  {
    if doc == [] then None
    else if Defines(doc[|doc| - 1], key) then Some(|doc| - 1)
    else LastDefinition(doc[..|doc| - 1], key)
  }

  /** A key is in the table exactly when some record defines it, and it is bound to
      its last definition's value, normalised against the table as it stood then. */
  lemma {:induction false} MacroTableLastDefinition(doc: seq<Record>, key: string)
    ensures key in MacroTable(doc) <==> LastDefinition(doc, key).Some?
    ensures LastDefinition(doc, key).Some? ==>
              var i := LastDefinition(doc, key).value;
              MacroTable(doc)[key] == Normalize(doc[i].value, MacroTable(doc[..i]))
    decreases |doc|
  {
    if doc != [] {
      var init := doc[..|doc| - 1];
      MacroTableLastDefinition(init, key);
      if !Defines(doc[|doc| - 1], key) {
        var i := LastDefinition(init, key);
        if i.Some? {
          assert init[..i.value] == doc[..i.value];
        }
      }
    }
  }

  /** The loop of main that fills the macro table from the file's records. */
  method BuildMacros(doc: seq<Record>) returns (macros: Macros)
    ensures macros == MacroTable(doc)
  {
    macros := map[];
    for i := 0 to |doc|
      invariant macros == MacroTable(doc[..i])
    {
      assert doc[..i + 1][..i] == doc[..i];
      match doc[i] {
        case MacroDefinition(key, value) =>
          macros := macros[key := Normalize(value, macros)];
        case EntryRecord(_) =>
        case OtherRecord =>
      }
    }
    assert doc[..|doc|] == doc;
  }
}
