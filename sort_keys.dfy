/** The key that orders the entries of one group (Main.sortKey with the month table of
    Main.setupMonthMapping) and the sort of a group by that key (Main.sortEntries). */
module SortKeys {
  import opened Wrappers
  import opened JavaStrings
  import opened BibDom
  import opened Normalization
  import opened StableSort

  /** The month table: the one-digit month numbers padded to two digits. */
  const MonthMapping: map<string, string> :=
    map["1" := "01", "2" := "02", "3" := "03", "4" := "04", "5" := "05",
        "6" := "06", "7" := "07", "8" := "08", "9" := "09"]

  /** A month text the table knows: a single digit from 1 to 9. */
  predicate IsDigitMonth(m: string)
  {
    |m| == 1 && '1' <= m[0] <= '9'
  }

  /** monthMapping.get(m), falling back to `m` itself when the table has no entry. */
  function MonthCode(m: string): (r: string)
    ensures IsDigitMonth(m) ==> r == "0" + m
    ensures !IsDigitMonth(m) ==> r == m
  {
    assert IsDigitMonth(m) ==> m == [m[0]];
    if m in MonthMapping then MonthMapping[m] else m
  }

  /** sortKey(entry). With a month field it is the normalised month, trimmed, lower-cased
      and passed through the month table; trimming a null month aborts the run. Without
      one it is the normalised title, which may be null or "N/A". */
  function SortKey(e: Entry, macros: Macros): (r: Outcome<JString>)
    ensures r.NullPointer? ==> GetField(e.fields, "month").Some?
    ensures GetField(e.fields, "month").Some? && r.Done? ==>
              r.value.Some? && forall k :: 0 <= k < |r.value.value| ==> !('A' <= r.value.value[k] <= 'Z')
  {
    match GetField(e.fields, "month")
    case Some(month) =>
      (match Normalize(month, macros)
       case None => NullPointer
       case Some(m) => Done(Some(MonthCode(ToLower(Trim(m))))))
    case None => Done(NormalizeField(GetField(e.fields, "title"), macros))
  }

  /** Sorting can use the key: computing it succeeds and it is not null. */
  predicate HasKey(e: Entry, macros: Macros)
  {
    SortKey(e, macros).Done? && SortKey(e, macros).value.Some?
  }

  /** The key text of an entry that has a key. */
  function KeyText(e: Entry, macros: Macros): string
  {
    if HasKey(e, macros) then SortKey(e, macros).value.value else ""
  }

  /** The comparator's key, as a function of the entry. */
  function KeyOf(macros: Macros): Entry -> string
  {
    e => KeyText(e, macros)
  }

  /** An entry with a month field is keyed by its month code; one without is keyed
      by its title. */
  lemma SortKeyCases(e: Entry, macros: Macros)
    ensures GetField(e.fields, "month").Some? ==>
              var m := Normalize(GetField(e.fields, "month").value, macros);
              (m.None? <==> SortKey(e, macros).NullPointer?) &&
              (m.Some? ==> SortKey(e, macros) == Done(Some(MonthCode(ToLower(Trim(m.value))))))
    ensures GetField(e.fields, "month").None? ==>
              SortKey(e, macros) == Done(NormalizeField(GetField(e.fields, "title"), macros))
  {
  }

  /** A month whose trimmed, lower-cased text is one digit from 1 to 9 keys as that
      digit behind a zero; any other month text keys as itself. */
  lemma MonthKey(e: Entry, macros: Macros)
    requires GetField(e.fields, "month").Some?
    requires Normalize(GetField(e.fields, "month").value, macros).Some?
    ensures var t := ToLower(Trim(Normalize(GetField(e.fields, "month").value, macros).value));
            SortKey(e, macros) == Done(Some(if IsDigitMonth(t) then ['0', t[0]] else t))
  {
    var t := ToLower(Trim(Normalize(GetField(e.fields, "month").value, macros).value));
    assert IsDigitMonth(t) ==> "0" + t == ['0', t[0]];
  }

  /** A spaced month number is trimmed and padded. */
  lemma SpacedDigitMonthKey()
    ensures MonthCode(ToLower(Trim(" 6 "))) == "06"
  {
    TrimPadded('6');
    assert [' ', '6', ' '] == " 6 ";
    DigitMonthKey('6');
  }

  /** A one-digit month keys as that digit behind a zero. */
  lemma DigitMonthKey(d: char)
    requires '1' <= d <= '9'
    ensures MonthCode(ToLower([d])) == ['0', d]
  {
    LowerDigit(d);
    assert IsDigitMonth([d]);
  }

  /** One character between two spaces trims to itself. */
  lemma TrimPadded(c: char)
    requires !IsTrimmed(c)
    ensures Trim([' ', c, ' ']) == [c]
  {
    assert TrimStart([' ', c, ' ']) == [c, ' '] by {
      assert [' ', c, ' '][1..] == [c, ' '];
    }
    assert TrimEnd([c, ' ']) == [c] by {
      assert [c, ' '][..1] == [c];
    }
  }

  /** Lower-casing leaves a digit as it is. */
  lemma LowerDigit(d: char)
    requires '0' <= d <= '9'
    ensures ToLower([d]) == [d]
  {
  }

  /** A month name is lower-cased and left as it is: the table only knows numbers. */
  lemma MonthNameKey()
    ensures MonthCode(ToLower(Trim("June"))) == "june"
  {
    TrimUnspaced("June");
    LowerJune();
  }

  lemma LowerJune()
    ensures ToLower("June") == "june"
  {
    assert LowerChar('J') == 'j';
  }

  /** Text that neither starts nor ends with whitespace is its own trim. */
  lemma TrimUnspaced(s: string)
    requires s != [] && !IsTrimmed(s[0]) && !IsTrimmed(s[|s| - 1])
    ensures Trim(s) == s
  {
  }

  /** sortEntries(entries): a sorted copy. The comparator computes both keys and calls
      compareTo; it is never called on fewer than two entries, and on more every entry
      takes part in some comparison, so a missing key aborts exactly then. */
  function SortedEntries(entries: seq<Entry>, macros: Macros): Outcome<seq<Entry>>
  {
    if |entries| >= 2 && exists e :: e in entries && !HasKey(e, macros) then NullPointer
    else Done(SortByKey(entries, KeyOf(macros)))
  }

  /** sortEntries returns a permutation of its input, ascending by sort key, in which
      entries with equal keys keep their input order; with two or more entries, it
      aborts exactly when some entry's key is null or cannot be computed. */
  lemma SortedEntriesCorrect(entries: seq<Entry>, macros: Macros)
    ensures SortedEntries(entries, macros).NullPointer? <==>
              |entries| >= 2 && exists e :: e in entries && !HasKey(e, macros)
    ensures SortedEntries(entries, macros).Done? ==>
              var r := SortedEntries(entries, macros).value;
              && multiset(r) == multiset(entries)
              && SortedBy(r, KeyOf(macros))
              && (forall k :: WithKey(r, KeyOf(macros), k) == WithKey(entries, KeyOf(macros), k))
              && (|entries| >= 2 ==> forall e :: e in r ==> HasKey(e, macros))
  {
    var key := KeyOf(macros);
    SortByKeyCorrect(entries, key);
    if SortedEntries(entries, macros).Done? && |entries| >= 2 {
      SortedEntriesKeyed(entries, macros);
    }
  }

  /** When a sort of two or more entries completes, every entry of the result has a key. */
  lemma SortedEntriesKeyed(entries: seq<Entry>, macros: Macros)
    requires |entries| >= 2 && forall e :: e in entries ==> HasKey(e, macros)
    ensures forall e :: e in SortByKey(entries, KeyOf(macros)) ==> HasKey(e, macros)
  {
    var r := SortByKey(entries, KeyOf(macros));
    SortByKeyPermutes(entries, KeyOf(macros));
    forall e | e in r ensures HasKey(e, macros) {
      assert e in multiset(r);
    }
  }

  /** Whether `keyed` holds of every entry: the comparator computes each key in turn. */
  method AllHaveKeys(entries: seq<Entry>, keyed: Entry -> bool) returns (ok: bool)
    ensures ok <==> forall e :: e in entries ==> keyed(e)
  {
    for i := 0 to |entries|
      invariant forall k :: 0 <= k < i ==> keyed(entries[k])
    {
      if !keyed(entries[i]) {
        assert entries[i] in entries;
        return false;
      }
    }
    forall e | e in entries ensures keyed(e) {
      var k :| 0 <= k < |entries| && entries[k] == e;
    }
    return true;
  }

  /** The method form of sortEntries: each key is computed (as the comparator would),
      then a copy of the list is sorted in place. The input is not changed. */
  method SortEntries(entries: seq<Entry>, macros: Macros) returns (r: Outcome<seq<Entry>>)
    ensures r == SortedEntries(entries, macros)
  {
    if |entries| < 2 {
      assert SortByKey(entries, KeyOf(macros)) == entries by {
        if |entries| == 1 {
          assert entries[..0] == [];
        }
      }
      return Done(entries);
    }
    var ok := AllHaveKeys(entries, e => HasKey(e, macros));
    if !ok {
      return NullPointer;
    }
    var result := new Entry[|entries|](k requires 0 <= k < |entries| => entries[k]);
    assert result[..] == entries;
    SortInPlace(result, KeyOf(macros));
    r := Done(result[..]);
  }
}
