/** The author/year filter and the grouping loop of Main.main: qualifying entries
    are appended to the group of every comma-separated piece of their group field. */
module Grouping {
  import opened Wrappers
  import opened JavaStrings
  import opened BibDom
  import opened Normalization

  /** The author name an entry must mention to be listed. */
  const AuthorFilter := "Riedel"

  /** The grouping map: group key to the entries in that group, in order. */
  type Groups = map<string, seq<Entry>>

  /** The filter of the grouping loop: the normalised author contains "Riedel" and the
      normalised year is not "N/A". A null author, or a null year of an author that
      passes, aborts the run. */
  function Qualifies(e: Entry, macros: Macros): (r: Outcome<bool>)
    ensures r == Done(true) ==> GetField(e.fields, "author").Some? && GetField(e.fields, "year").Some?
    ensures r.NullPointer? ==>
              || (GetField(e.fields, "author").Some? && Normalize(GetField(e.fields, "author").value, macros).None?)
              || (GetField(e.fields, "year").Some? && Normalize(GetField(e.fields, "year").value, macros).None?)
  {
    ShorterNotContains(Missing, AuthorFilter);
    match NormalizeField(GetField(e.fields, "author"), macros)
    case None => NullPointer
    case Some(author) =>
      if !Contains(author, AuthorFilter) then Done(false)
      else
        match NormalizeField(GetField(e.fields, "year"), macros)
        case None => NullPointer
        case Some(year) => Done(year != Missing)
  }

  /** The groups an entry is appended to: the pieces of its normalised group field split
      at ",", untrimmed, with repetitions; none when it does not qualify or has no such
      field. Splitting a null value aborts the run. */
  function GroupNames(e: Entry, groupBy: string, macros: Macros): (r: Outcome<seq<string>>)
    ensures r.Done? ==> forall name :: name in r.value ==> ',' !in name
    ensures r.Done? && r.value != [] ==> Qualifies(e, macros) == Done(true) && GetField(e.fields, groupBy).Some?
  {
    match Qualifies(e, macros)
    case NullPointer => NullPointer
    case Done(ok) =>
      if !ok then Done([])
      else
        match GetField(e.fields, groupBy)
        case None => Done([])
        case Some(value) =>
          match Normalize(value, macros)
          case None => NullPointer
          case Some(text) => SplitPieces(text, ','); Done(Split(text, ','))
  }

  /** grouping.get(key), or a new empty list, with the entry appended. */
  function AppendTo(groups: Groups, key: string, e: Entry): Groups
  {
    groups[key := (if key in groups then groups[key] else []) + [e]]
  }

  /** The entry appended to the group of each name, in the order of the names. */
  function AddToGroups(groups: Groups, names: seq<string>, e: Entry): Groups
    decreases |names|
  {
    if names == [] then groups
    else AppendTo(AddToGroups(groups, names[..|names| - 1], e), names[|names| - 1], e)
  }

  /** The grouping map after the loop over `doc`, or the abort that ended it. */
  function GroupingOf(doc: seq<Record>, groupBy: string, macros: Macros): Outcome<Groups>
    decreases |doc|
  {
    if doc == [] then Done(map[])
    else
      match GroupingOf(doc[..|doc| - 1], groupBy, macros)
      case NullPointer => NullPointer
      case Done(groups) =>
        match doc[|doc| - 1]
        case EntryRecord(e) =>
          (match GroupNames(e, groupBy, macros)
           case NullPointer => NullPointer
           case Done(names) => Done(AddToGroups(groups, names, e)))
        case _ => Done(groups)
  }

  /** The loop of main that builds the grouping map. */
  method GroupEntries(doc: seq<Record>, groupBy: string, macros: Macros) returns (r: Outcome<Groups>)
    ensures r == GroupingOf(doc, groupBy, macros)
  {
    var grouping: Groups := map[];
    for i := 0 to |doc|
      invariant GroupingOf(doc[..i], groupBy, macros) == Done(grouping)
    {
      assert doc[..i + 1][..i] == doc[..i];
      if doc[i].EntryRecord? {
        var entry := doc[i].entry;
        var names := GroupNames(entry, groupBy, macros);
        if names.NullPointer? {
          NoRecovery(doc, i + 1, groupBy, macros);
          return NullPointer;
        }
        grouping := AddEntry(grouping, names.value, entry);
      }
    }
    assert doc[..|doc|] == doc;
    r := Done(grouping);
  }

  /** The inner loop: the entry appended to the group of each name in turn. */
  method AddEntry(grouping: Groups, names: seq<string>, entry: Entry) returns (result: Groups)
    ensures result == AddToGroups(grouping, names, entry)
  {
    result := grouping;
    for j := 0 to |names|
      invariant result == AddToGroups(grouping, names[..j], entry)
    {
      assert names[..j + 1][..j] == names[..j];
      var groupKey := names[j];
      var group := if groupKey in result then result[groupKey] else [];
      result := result[groupKey := group + [entry]];
    }
    assert names[..|names|] == names;
  }

  /** Once the loop has aborted, longer prefixes of the file abort too. */
  lemma {:induction false} NoRecovery(doc: seq<Record>, i: nat, groupBy: string, macros: Macros)
    requires i <= |doc|
    requires GroupingOf(doc[..i], groupBy, macros).NullPointer?
    ensures GroupingOf(doc, groupBy, macros).NullPointer?
    decreases |doc| - i
  {
    if i < |doc| {
      assert doc[..i + 1][..i] == doc[..i];
      NoRecovery(doc, i + 1, groupBy, macros);
    } else {
      assert doc[..i] == doc;
    }
  }

  // ---------------------------------------------------------------------------
  // what the grouping map holds

  /** How often `k` occurs in `names`. */
  function Count(names: seq<string>, k: string): nat
    decreases |names|
  {
    if names == [] then 0
    else Count(names[..|names| - 1], k) + (if names[|names| - 1] == k then 1 else 0)
  }

  /** `n` copies of `e`. */
  function Copies(e: Entry, n: nat): (r: seq<Entry>)
    ensures |r| == n && forall x :: x in r ==> x == e
  {
    seq(n, _ => e)
  }

  /** The members of group `k` by an independent reading: each entry of the file, in
      file order, once per piece of its group field that equals `k`. */
  function Members(doc: seq<Record>, k: string, groupBy: string, macros: Macros): seq<Entry>
    decreases |doc|
  {
    if doc == [] then []
    else
      Members(doc[..|doc| - 1], k, groupBy, macros) +
      match doc[|doc| - 1]
      case EntryRecord(e) =>
        (match GroupNames(e, groupBy, macros)
         case Done(names) => Copies(e, Count(names, k))
         case NullPointer => [])
      case _ => []
  }

  /** Appending to the group of each name adds Count copies to each group and creates
      exactly the groups of the names. */
  lemma {:induction false} AddToGroupsContents(groups: Groups, names: seq<string>, e: Entry, k: string)
    ensures k in AddToGroups(groups, names, e) <==> k in groups || k in names
    ensures k in AddToGroups(groups, names, e) ==>
              AddToGroups(groups, names, e)[k]
              == (if k in groups then groups[k] else []) + Copies(e, Count(names, k))
    decreases |names|
  {
    if names != [] {
      var init := names[..|names| - 1];
      AddToGroupsContents(groups, init, e, k);
      assert names == init + [names[|names| - 1]];
      assert k in names <==> k in init || k == names[|names| - 1];
      if k == names[|names| - 1] {
        CountPositive(init, k);
        var base := if k in groups then groups[k] else [];
        assert Copies(e, Count(init, k)) + [e] == Copies(e, Count(names, k));
        assert base + Copies(e, Count(init, k)) + [e] == base + Copies(e, Count(names, k));
      }
    }
  }

  /** A name is among the pieces exactly when it occurs at least once. */
  lemma {:induction false} CountPositive(names: seq<string>, k: string)
    ensures Count(names, k) > 0 <==> k in names
    decreases |names|
  {
    if names != [] {
      var init := names[..|names| - 1];
      CountPositive(init, k);
      assert names == init + [names[|names| - 1]];
    }
  }

  /** When the loop completes, group `k` exists exactly when it has members, and holds
      exactly Members(k): only qualifying entries that have the group field, each once
      per matching piece, in file order. */
  lemma {:induction false} GroupingMembers(doc: seq<Record>, k: string, groupBy: string, macros: Macros)
    requires GroupingOf(doc, groupBy, macros).Done?
    ensures var groups := GroupingOf(doc, groupBy, macros).value;
            && (k in groups <==> Members(doc, k, groupBy, macros) != [])
            && (k in groups ==> groups[k] == Members(doc, k, groupBy, macros))
    decreases |doc|
  {
    if doc != [] {
      var init := doc[..|doc| - 1];
      GroupingMembers(init, k, groupBy, macros);
      var before := GroupingOf(init, groupBy, macros).value;
      match doc[|doc| - 1]
      case EntryRecord(e) =>
        var names := GroupNames(e, groupBy, macros).value;
        AddToGroupsContents(before, names, e, k);
        CountPositive(names, k);
      case _ =>
    }
  }

  /** The record is an entry whose filter or split aborts the loop. */
  predicate AbortsGrouping(rec: Record, groupBy: string, macros: Macros)
  {
    rec.EntryRecord? && GroupNames(rec.entry, groupBy, macros).NullPointer?
  }

  /** The loop aborts exactly when some entry of the file aborts its filter or split. */
  lemma {:induction false} GroupingAborts(doc: seq<Record>, groupBy: string, macros: Macros)
    ensures GroupingOf(doc, groupBy, macros).NullPointer? <==>
              exists i :: 0 <= i < |doc| && AbortsGrouping(doc[i], groupBy, macros)
    decreases |doc|
  {
    if doc != [] {
      var init := doc[..|doc| - 1];
      GroupingAborts(init, groupBy, macros);
      if GroupingOf(init, groupBy, macros).NullPointer? {
        var i :| 0 <= i < |init| && AbortsGrouping(init[i], groupBy, macros);
        assert doc[i] == init[i];
      } else if AbortsGrouping(doc[|doc| - 1], groupBy, macros) {
      } else {
        forall i | 0 <= i < |doc| ensures !AbortsGrouping(doc[i], groupBy, macros) {
          if i < |init| {
            assert doc[i] == init[i];
          }
        }
      }
    }
  }

  /** An entry that fails the filter, or lacks the group field, is in no group. */
  lemma SkippedEntries(e: Entry, groupBy: string, macros: Macros)
    requires Qualifies(e, macros) == Done(false) || (Qualifies(e, macros).Done? && GetField(e.fields, groupBy).None?)
    ensures GroupNames(e, groupBy, macros) == Done([])
  {
  }

  /** An author without "Riedel" or a year of "N/A" fails the filter. */
  lemma FilterRejects(e: Entry, macros: Macros)
    requires NormalizeField(GetField(e.fields, "author"), macros).Some?
    requires NormalizeField(GetField(e.fields, "year"), macros).Some?
    ensures var author := NormalizeField(GetField(e.fields, "author"), macros).value;
            var year := NormalizeField(GetField(e.fields, "year"), macros).value;
            Qualifies(e, macros) == Done(Contains(author, AuthorFilter) && year != Missing)
  {
  }
}
