/** The ordered view behind the overview page: group keys in descending order, and in
    each group its entries sorted by sort key and passed through the render filter. */
module Overview {
  import opened Wrappers
  import opened JavaStrings
  import opened BibDom
  import opened Normalization
  import opened StableSort
  import opened SortKeys
  import opened Grouping

  /** A title containing this text is not listed. */
  const LinkMarker := "http"

  // ---------------------------------------------------------------------------
  // the render filter

  /** The filter applied to each entry of a sorted group: the entry needs a title, and its
      normalised author must contain "Riedel", its normalised year must not be "N/A" and
      its normalised title must not contain "http". All three are normalised first; a null
      one aborts the run when the test that reads it is reached. */
  function RenderFilter(e: Entry, macros: Macros): (r: Outcome<bool>)
    ensures r == Done(true) ==>
              && Qualifies(e, macros) == Done(true)
              && GetField(e.fields, "title").Some?
              && Normalize(GetField(e.fields, "title").value, macros).Some?
              && !Contains(Normalize(GetField(e.fields, "title").value, macros).value, LinkMarker)
  {
    match GetField(e.fields, "title")
    case None => Done(false)
    case Some(title) =>
      var author := NormalizeField(GetField(e.fields, "author"), macros);
      var year := NormalizeField(GetField(e.fields, "year"), macros);
      var stringTitle := Normalize(title, macros);
      if author.None? then NullPointer
      else if !Contains(author.value, AuthorFilter) then Done(false)
      else if year.None? then NullPointer
      else if year.value == Missing then Done(false)
      else if stringTitle.None? then NullPointer
      else Done(!Contains(stringTitle.value, LinkMarker))
  }

  /** On an entry that qualified for grouping, the filter aborts exactly when it has a
      title that normalises to null, and lists it exactly when it has a title that
      normalises to text without "http". */
  lemma RenderFilterOfQualified(e: Entry, macros: Macros)
    ensures Qualifies(e, macros) == Done(true) ==>
              var title := GetField(e.fields, "title");
              && (RenderFilter(e, macros).NullPointer? <==> title.Some? && Normalize(title.value, macros).None?)
              && (RenderFilter(e, macros) == Done(true) <==>
                    title.Some? && Normalize(title.value, macros).Some? &&
                    !Contains(Normalize(title.value, macros).value, LinkMarker))
  {
  }

  /** The entries of `s` the render loop lists, in order, or the abort that ended it. */
  function RenderedEntries(s: seq<Entry>, macros: Macros): Outcome<seq<Entry>>
    decreases |s|
  {
    if s == [] then Done([])
    else
      match RenderedEntries(s[..|s| - 1], macros)
      case NullPointer => NullPointer
      case Done(kept) =>
        match RenderFilter(s[|s| - 1], macros)
        case NullPointer => NullPointer
        case Done(keep) => Done(if keep then kept + [s[|s| - 1]] else kept)
  }

  /** The render loop aborts exactly when the filter aborts on some entry; otherwise it
      lists exactly the entries the filter accepts. */
  lemma {:induction false} RenderedMembers(s: seq<Entry>, macros: Macros)
    ensures RenderedEntries(s, macros).NullPointer? <==>
              exists i :: 0 <= i < |s| && RenderFilter(s[i], macros).NullPointer?
    ensures RenderedEntries(s, macros).Done? ==>
              forall e :: e in RenderedEntries(s, macros).value <==> e in s && RenderFilter(e, macros) == Done(true)
    decreases |s|
  {
    if s != [] {
      var init, last := s[..|s| - 1], s[|s| - 1];
      RenderedMembers(init, macros);
      assert s == init + [last];
      if RenderedEntries(init, macros).NullPointer? {
        var i :| 0 <= i < |init| && RenderFilter(init[i], macros).NullPointer?;
        assert s[i] == init[i];
      } else if RenderFilter(last, macros).NullPointer? {
      } else {
        forall i | 0 <= i < |s| ensures !RenderFilter(s[i], macros).NullPointer? {
          if i < |init| {
            assert s[i] == init[i];
          }
        }
      }
    }
  }

  /** The render loop keeps the order of the group: listed entries of a sorted group are
      sorted. */
  lemma {:induction false} RenderedSorted(s: seq<Entry>, macros: Macros, key: Entry -> string)
    requires SortedBy(s, key)
    ensures RenderedEntries(s, macros).Done? ==> SortedBy(RenderedEntries(s, macros).value, key)
    decreases |s|
  {
    if s != [] && RenderedEntries(s, macros).Done? {
      var init, last := s[..|s| - 1], s[|s| - 1];
      assert SortedBy(init, key);
      RenderedSorted(init, macros, key);
      RenderedMembers(init, macros);
      var kept := RenderedEntries(init, macros).value;
      if RenderFilter(last, macros) == Done(true) {
        forall y | y in kept ensures LexLessEq(key(y), key(last)) {
          var k :| 0 <= k < |init| && init[k] == y;
          assert s[k] == y;
        }
        SortedSnoc(kept, last, key);
      }
    }
  }

  /** The entries of `s` the render filter accepts, in the order of `s`: an
      order-preserving filter with no abort. */
  function Accepted(s: seq<Entry>, macros: Macros): seq<Entry>
    decreases |s|
  {
    if s == [] then []
    else Accepted(s[..|s| - 1], macros) + (if RenderFilter(s[|s| - 1], macros) == Done(true) then [s[|s| - 1]] else [])
  }

  lemma AcceptedSnoc(s: seq<Entry>, x: Entry, macros: Macros)
    ensures Accepted(s + [x], macros) == Accepted(s, macros) + (if RenderFilter(x, macros) == Done(true) then [x] else [])
  {
    assert (s + [x])[..|s|] == s;
  }

  /** A completed render loop lists exactly the accepted entries, in order. */
  lemma {:induction false} RenderedAccepted(s: seq<Entry>, macros: Macros)
    ensures RenderedEntries(s, macros).Done? ==> RenderedEntries(s, macros).value == Accepted(s, macros)
    decreases |s|
  {
    if s != [] {
      RenderedAccepted(s[..|s| - 1], macros);
    }
  }

  /** The filter keeps every copy of an accepted entry and no copy of another one. */
  lemma {:induction false} AcceptedCounts(s: seq<Entry>, macros: Macros, e: Entry)
    ensures multiset(Accepted(s, macros))[e] == if RenderFilter(e, macros) == Done(true) then multiset(s)[e] else 0
    decreases |s|
  {
    if s != [] {
      var init, last := s[..|s| - 1], s[|s| - 1];
      AcceptedCounts(init, macros, e);
      assert s == init + [last];
      assert multiset(s) == multiset(init) + multiset{last};
    }
  }

  /** Filtering and then taking the entries of key k is taking them and then filtering:
      the filter keeps the order of entries with equal keys. */
  lemma {:induction false} AcceptedWithKey(s: seq<Entry>, macros: Macros, key: Entry -> string, k: string)
    ensures WithKey(Accepted(s, macros), key, k) == Accepted(WithKey(s, key, k), macros)
    decreases |s|
  {
    if s != [] {
      var init, last := s[..|s| - 1], s[|s| - 1];
      AcceptedWithKey(init, macros, key, k);
      var kept := Accepted(init, macros);
      var both := if RenderFilter(last, macros) == Done(true) && key(last) == k then [last] else [];
      assert WithKey(Accepted(s, macros), key, k) == WithKey(kept, key, k) + both by {
        if RenderFilter(last, macros) == Done(true) {
          WithKeySnoc(kept, last, key, k);
        } else {
          assert Accepted(s, macros) == kept;
        }
      }
      assert Accepted(WithKey(s, key, k), macros) == Accepted(WithKey(init, key, k), macros) + both by {
        if key(last) == k {
          AcceptedSnoc(WithKey(init, key, k), last, macros);
        } else {
          assert WithKey(s, key, k) == WithKey(init, key, k);
        }
      }
    }
  }

  /** The render loop is an order-preserving filter: an accepted entry is listed as
      often as it occurs, any other not at all, and the entries of each key keep their
      order. */
  lemma RenderedOrder(s: seq<Entry>, macros: Macros, key: Entry -> string)
    ensures RenderedEntries(s, macros).Done? ==>
              var listing := RenderedEntries(s, macros).value;
              && (forall e :: multiset(listing)[e] == if RenderFilter(e, macros) == Done(true) then multiset(s)[e] else 0)
              && (forall k :: WithKey(listing, key, k) == Accepted(WithKey(s, key, k), macros))
  {
    RenderedAccepted(s, macros);
    forall e ensures multiset(Accepted(s, macros))[e] == if RenderFilter(e, macros) == Done(true) then multiset(s)[e] else 0 {
      AcceptedCounts(s, macros, e);
    }
    forall k ensures WithKey(Accepted(s, macros), key, k) == Accepted(WithKey(s, key, k), macros) {
      AcceptedWithKey(s, macros, key, k);
    }
  }

  /** The render loop over one sorted group. */
  method RenderGroup(entries: seq<Entry>, macros: Macros) returns (r: Outcome<seq<Entry>>)
    ensures r == RenderedEntries(entries, macros)
  {
    var shown: seq<Entry> := [];
    for i := 0 to |entries|
      invariant RenderedEntries(entries[..i], macros) == Done(shown)
    {
      assert entries[..i + 1][..i] == entries[..i];
      var entry := entries[i];
      var keep := RenderFilter(entry, macros);
      if keep.NullPointer? {
        RenderedMembers(entries, macros);
        return NullPointer;
      }
      if keep.value {
        shown := shown + [entry];
      }
    }
    assert entries[..|entries|] == entries;
    r := Done(shown);
  }

  // ---------------------------------------------------------------------------
  // the order of the group keys

  /** `k` is the largest key of `ks`. */
  ghost predicate IsGreatest(k: string, ks: set<string>)
  {
    k in ks && forall j :: j in ks ==> LexLessEq(j, k)
  }

  /** Every non-empty key set has a largest key. */
  lemma {:induction false} GreatestExists(ks: set<string>)
    requires ks != {}
    ensures exists k :: IsGreatest(k, ks)
    decreases |ks|
  {
    var x :| x in ks;
    var rest := ks - {x};
    if rest == {} {
      assert ks == {x};
      assert IsGreatest(x, ks);
    } else {
      GreatestExists(rest);
      var m :| IsGreatest(m, rest);
      if LexLess(m, x) {
        forall j | j in ks ensures LexLessEq(j, x) {
          if j != x {
            LexLessEqTransitive(j, m, x);
          }
        }
        assert IsGreatest(x, ks);
      } else {
        NotLessMeansAtLeast(m, x);
        assert IsGreatest(m, ks);
      }
    }
  }

  /** The reference order of the overview: the largest key first, then the others in
      the same order. */
  ghost function DescendingOrder(ks: set<string>): seq<string>
    decreases |ks|
  {
    if ks == {} then []
    else
      GreatestExists(ks);
      var k :| IsGreatest(k, ks);
      [k] + DescendingOrder(ks - {k})
  }

  /** Each key is below every key before it. */
  ghost predicate StrictlyDescending(s: seq<string>)
  {
    forall i, j :: 0 <= i < j < |s| ==> LexLess(s[j], s[i])
  }

  /** The reference order lists every key of the set exactly once, descending. */
  lemma {:induction false} DescendingOrderCorrect(ks: set<string>)
    ensures forall k :: k in DescendingOrder(ks) <==> k in ks
    ensures StrictlyDescending(DescendingOrder(ks))
    decreases |ks|
  {
    if ks != {} {
      var s := DescendingOrder(ks);
      var k := s[0];
      assert IsGreatest(k, ks) && s[1..] == DescendingOrder(ks - {k});
      DescendingOrderCorrect(ks - {k});
      forall i, j | 0 <= i < j < |s| ensures LexLess(s[j], s[i]) {
        if i == 0 {
          assert s[j] in s[1..] && s[j] != k;
        } else {
          assert s[1..][i - 1] == s[i] && s[1..][j - 1] == s[j];
        }
      }
      forall x ensures x in s <==> x in ks {
        assert s == [k] + s[1..];
      }
    }
  }

  /** A strictly descending sequence holding exactly the keys of `ks` is the reference
      order of `ks`. */
  lemma {:induction false} DescendingUnique(s: seq<string>, ks: set<string>)
    requires StrictlyDescending(s)
    requires forall k :: k in s <==> k in ks
    ensures s == DescendingOrder(ks)
    decreases |ks|
  {
    if s == [] {
      assert forall k :: k !in ks;
      assert ks == {};
    } else {
      var k := s[0];
      assert k in s;
      forall j | j in ks ensures LexLessEq(j, k) {
        var idx :| 0 <= idx < |s| && s[idx] == j;
      }
      var d := DescendingOrder(ks);
      assert IsGreatest(d[0], ks) && d[1..] == DescendingOrder(ks - {d[0]});
      LexLessEqAntisymmetric(d[0], k);
      LexLessIrreflexive(k);
      var tail := s[1..];
      forall i | 0 <= i < |tail| ensures tail[i] != k && LexLess(tail[i], k) {
        assert tail[i] == s[i + 1];
      }
      forall x ensures x in tail <==> x in ks - {k} {
        assert s == [k] + tail;
      }
      forall i, j | 0 <= i < j < |tail| ensures LexLess(tail[j], tail[i]) {
        assert tail[i] == s[i + 1] && tail[j] == s[j + 1];
      }
      DescendingUnique(tail, ks - {k});
      assert s == [k] + tail;
    }
  }

  /** No key occurs twice. */
  ghost predicate Distinct(s: seq<string>)
  {
    forall i, j :: 0 <= i < j < |s| ==> s[i] != s[j]
  }

  lemma {:induction false} DistinctCounts(s: seq<string>)
    requires Distinct(s)
    ensures forall x :: multiset(s)[x] <= 1
    decreases |s|
  {
    if s != [] {
      var init := s[..|s| - 1];
      assert Distinct(init);
      DistinctCounts(init);
      assert s == init + [s[|s| - 1]];
      assert s[|s| - 1] !in init;
    }
  }

  lemma CountsDistinct(t: seq<string>)
    requires forall x :: multiset(t)[x] <= 1
    ensures Distinct(t)
  {
    forall i, j | 0 <= i < j < |t| ensures t[i] != t[j] {
      assert t == t[..j] + [t[j]] + t[j + 1..];
      assert t[i] in t[..j];
      assert multiset(t)[t[j]] >= multiset(t[..j])[t[j]] + 1;
    }
  }

  /** The identity key: the group keys are compared as they are. */
  function Self(): string -> string
  {
    s => s
  }

  /** new ArrayList(grouping.keySet()): the keys in the map's iteration order, which
      the model leaves open. */
  method ListKeys(groups: Groups) returns (a: array<string>)
    ensures fresh(a)
    ensures forall k :: k in a[..] <==> k in groups
    ensures Distinct(a[..])
  {
    a := new string[|groups.Keys|];
    var rest := groups.Keys;
    var i := 0;
    while rest != {}
      invariant i + |rest| == a.Length
      invariant rest <= groups.Keys
      invariant forall k :: k in a[..i] <==> k in groups && k !in rest
      invariant Distinct(a[..i])
      decreases |rest|
    {
      var k :| k in rest;
      a[i] := k;
      assert a[..i + 1] == a[..i] + [k];
      rest := rest - {k};
      i := i + 1;
    }
    assert a[..i] == a[..];
  }

  /** Lines 194-196: the keys copied into a list, sorted ascending, then reversed. The
      result is the reference descending order of the map's key set. */
  method DescendingKeys(groups: Groups) returns (keys: seq<string>)
    ensures keys == DescendingOrder(groups.Keys)
  {
    var sorted := ListKeys(groups);
    ghost var listed := sorted[..];
    SortInPlace(sorted, Self());
    ghost var ascending := sorted[..];
    ReverseInPlace(sorted);
    keys := sorted[..];
    SortByKeyCorrect(listed, Self());
    ReversedAscending(listed, ascending);
    DescendingUnique(keys, groups.Keys);
  }

  /** Sorting distinct keys ascending and reversing the result gives them strictly
      descending. */
  lemma ReversedAscending(listed: seq<string>, ascending: seq<string>)
    requires Distinct(listed)
    requires multiset(ascending) == multiset(listed)
    requires SortedBy(ascending, Self())
    ensures forall k :: k in Reversed(ascending) <==> k in listed
    ensures StrictlyDescending(Reversed(ascending))
  {
    var keys := Reversed(ascending);
    var n := |ascending|;
    DistinctCounts(listed);
    CountsDistinct(ascending);
    forall k ensures k in keys <==> k in listed {
      assert k in multiset(listed) <==> k in multiset(ascending);
      if k in keys {
        var i :| 0 <= i < |keys| && keys[i] == k;
        assert ascending[n - 1 - i] == k;
      }
      if k in ascending {
        var i :| 0 <= i < n && ascending[i] == k;
        assert keys[n - 1 - i] == k;
      }
    }
    forall i, j | 0 <= i < j < |keys| ensures LexLess(keys[j], keys[i]) {
      assert keys[i] == ascending[n - 1 - i] && keys[j] == ascending[n - 1 - j];
      assert LexLessEq(Self()(ascending[n - 1 - j]), Self()(ascending[n - 1 - i]));
    }
  }

  // ---------------------------------------------------------------------------
  // the overview

  /** One group of the overview: its key and the entries listed under it. */
  datatype GroupView = GroupView(key: string, entries: seq<Entry>)

  /** The members of group `k`: grouping.get(k), sorted, then filtered for rendering. */
  function ViewOf(groups: Groups, k: string, macros: Macros): Outcome<seq<Entry>>
  {
    match SortedEntries(if k in groups then groups[k] else [], macros)
    case NullPointer => NullPointer
    case Done(sorted) => RenderedEntries(sorted, macros)
  }

  /** A group lists its members that the render filter accepts, each as often as it is in
      the group, ascending by sort key, and with the members of equal key in group order. */
  lemma ViewOfCorrect(groups: Groups, k: string, macros: Macros)
    requires k in groups
    ensures ViewOf(groups, k, macros).Done? ==>
              var shown := ViewOf(groups, k, macros).value;
              && (forall e :: e in shown <==> e in groups[k] && RenderFilter(e, macros) == Done(true))
              && (forall e :: multiset(shown)[e] == if RenderFilter(e, macros) == Done(true) then multiset(groups[k])[e] else 0)
              && SortedBy(shown, KeyOf(macros))
              && (forall j :: WithKey(shown, KeyOf(macros), j) == Accepted(WithKey(groups[k], KeyOf(macros), j), macros))
  {
    SortedEntriesCorrect(groups[k], macros);
    var sorted := SortedEntries(groups[k], macros);
    if sorted.Done? {
      RenderedMembers(sorted.value, macros);
      RenderedSorted(sorted.value, macros, KeyOf(macros));
      RenderedOrder(sorted.value, macros, KeyOf(macros));
      forall e ensures e in sorted.value <==> e in groups[k] {
        assert e in multiset(sorted.value) <==> e in multiset(groups[k]);
      }
    }
  }

  /** The groups in the order of `keys`, or the abort of the first that aborts. */
  function GroupViews(groups: Groups, keys: seq<string>, macros: Macros): Outcome<seq<GroupView>>
    decreases |keys|
  {
    if keys == [] then Done([])
    else
      match GroupViews(groups, keys[..|keys| - 1], macros)
      case NullPointer => NullPointer
      case Done(views) =>
        match ViewOf(groups, keys[|keys| - 1], macros)
        case NullPointer => NullPointer
        case Done(shown) => Done(views + [GroupView(keys[|keys| - 1], shown)])
  }

  /** The keys of the groups, in order. */
  function KeysOf(views: seq<GroupView>): (r: seq<string>)
    ensures |r| == |views|
  {
    seq(|views|, i requires 0 <= i < |views| => views[i].key)
  }

  /** The groups abort exactly when one of them does. */
  lemma {:induction false} GroupViewsAborts(groups: Groups, keys: seq<string>, macros: Macros)
    ensures GroupViews(groups, keys, macros).NullPointer? <==>
              exists i :: 0 <= i < |keys| && ViewOf(groups, keys[i], macros).NullPointer?
    decreases |keys|
  {
    if keys != [] {
      var init, last := keys[..|keys| - 1], keys[|keys| - 1];
      GroupViewsAborts(groups, init, macros);
      if GroupViews(groups, init, macros).NullPointer? {
        var i :| 0 <= i < |init| && ViewOf(groups, init[i], macros).NullPointer?;
        assert keys[i] == init[i];
      } else if ViewOf(groups, last, macros).NullPointer? {
      } else {
        forall i | 0 <= i < |keys| ensures !ViewOf(groups, keys[i], macros).NullPointer? {
          if i < |init| {
            assert keys[i] == init[i];
          }
        }
      }
    }
  }

  /** Completed groups: one per key, in key order, each holding that key's view. */
  lemma {:induction false} GroupViewsShape(groups: Groups, keys: seq<string>, macros: Macros)
    ensures GroupViews(groups, keys, macros).Done? ==>
              var views := GroupViews(groups, keys, macros).value;
              KeysOf(views) == keys &&
              forall i :: 0 <= i < |keys| ==> ViewOf(groups, keys[i], macros) == Done(views[i].entries)
    decreases |keys|
  {
    if keys != [] && GroupViews(groups, keys, macros).Done? {
      var init, last := keys[..|keys| - 1], keys[|keys| - 1];
      GroupViewsShape(groups, init, macros);
      var before := GroupViews(groups, init, macros).value;
      var shown := ViewOf(groups, last, macros).value;
      var views := before + [GroupView(last, shown)];
      assert GroupViews(groups, keys, macros).value == views;
      forall i | 0 <= i < |keys| ensures ViewOf(groups, keys[i], macros) == Done(views[i].entries) {
        if i < |init| {
          assert keys[i] == init[i] && views[i] == before[i];
        }
      }
      assert KeysOf(views) == KeysOf(before) + [last];
      assert keys == init + [last];
    }
  }

  /** The overview of a parsed file grouped by field `groupBy`, or the abort that ends the
      run before it is complete. */
  ghost function OverviewOf(doc: seq<Record>, groupBy: string): Outcome<seq<GroupView>>
  {
    var macros := MacroTable(doc);
    match GroupingOf(doc, groupBy, macros)
    case NullPointer => NullPointer
    case Done(groups) => GroupViews(groups, DescendingOrder(groups.Keys), macros)
  }

  /** main from the parsed file to the overview: macro table, grouping, key order, and per
      group the sort and the render filter. */
  method BuildOverview(doc: seq<Record>, groupBy: string) returns (r: Outcome<seq<GroupView>>)
    ensures r == OverviewOf(doc, groupBy)
  {
    var macros := BuildMacros(doc);
    var grouping := GroupEntries(doc, groupBy, macros);
    if grouping.NullPointer? {
      return NullPointer;
    }
    var sorted := DescendingKeys(grouping.value);
    DescendingOrderCorrect(grouping.value.Keys);
    r := RenderGroups(grouping.value, sorted, macros);
  }

  /** One group of the overview: sortEntries(group), then the render loop. */
  method ShowGroup(group: seq<Entry>, macros: Macros) returns (r: Outcome<seq<Entry>>)
    ensures r == match SortedEntries(group, macros)
                 case NullPointer => NullPointer
                 case Done(sorted) => RenderedEntries(sorted, macros)
  {
    var ordered := SortEntries(group, macros);
    if ordered.NullPointer? {
      return NullPointer;
    }
    r := RenderGroup(ordered.value, macros);
  }

  /** The loop over the sorted group keys: each group sorted, then filtered. */
  method RenderGroups(groups: Groups, keys: seq<string>, macros: Macros) returns (r: Outcome<seq<GroupView>>)
    requires forall k :: k in keys ==> k in groups
    ensures r == GroupViews(groups, keys, macros)
  {
    var views: seq<GroupView> := [];
    for i := 0 to |keys|
      invariant GroupViews(groups, keys[..i], macros) == Done(views)
    {
      assert keys[..i + 1][..i] == keys[..i];
      var groupKey := keys[i];
      var shown := ShowGroup(groups[groupKey], macros);
      assert shown == ViewOf(groups, groupKey, macros);
      if shown.NullPointer? {
        GroupViewsAborts(groups, keys, macros);
        return NullPointer;
      }
      views := views + [GroupView(groupKey, shown.value)];
    }
    assert keys[..|keys|] == keys;
    r := Done(views);
  }

  /** Every member of a group qualified for it and has the group field. */
  lemma {:induction false} MembersQualify(doc: seq<Record>, k: string, groupBy: string, macros: Macros)
    ensures forall e :: e in Members(doc, k, groupBy, macros) ==>
              Qualifies(e, macros) == Done(true) && GetField(e.fields, groupBy).Some?
    decreases |doc|
  {
    if doc != [] {
      MembersQualify(doc[..|doc| - 1], k, groupBy, macros);
    }
  }

  /** Every entry in a group of a completed grouping passed the grouping filter. */
  lemma GroupedEntriesQualify(doc: seq<Record>, groupBy: string, macros: Macros)
    requires GroupingOf(doc, groupBy, macros).Done?
    ensures var groups := GroupingOf(doc, groupBy, macros).value;
            forall k, e :: k in groups && e in groups[k] ==>
              Qualifies(e, macros) == Done(true) && GetField(e.fields, groupBy).Some?
  {
    var groups := GroupingOf(doc, groupBy, macros).value;
    forall k | k in groups
      ensures forall e :: e in groups[k] ==>
                Qualifies(e, macros) == Done(true) && GetField(e.fields, groupBy).Some?
    {
      GroupingMembers(doc, k, groupBy, macros);
      MembersQualify(doc, k, groupBy, macros);
    }
  }

  /** `view` shows group view.key of `groups`: exactly the members that the render
      filter accepts, each as often as in the group, ascending by sort key, with the
      members of equal key in group order. */
  ghost predicate Shows(groups: Groups, view: GroupView, macros: Macros)
  {
    && view.key in groups
    && (forall e :: e in view.entries <==> e in groups[view.key] && RenderFilter(e, macros) == Done(true))
    && (forall e :: multiset(view.entries)[e] ==
                    if RenderFilter(e, macros) == Done(true) then multiset(groups[view.key])[e] else 0)
    && SortedBy(view.entries, KeyOf(macros))
    && (forall j :: WithKey(view.entries, KeyOf(macros), j) ==
                    Accepted(WithKey(groups[view.key], KeyOf(macros), j), macros))
  }

  /** Every completed group of the list shows its key's group. */
  lemma ViewsShowGroups(groups: Groups, keys: seq<string>, macros: Macros)
    requires forall k :: k in keys ==> k in groups
    ensures var views := GroupViews(groups, keys, macros);
            views.Done? ==> forall i :: 0 <= i < |views.value| ==> Shows(groups, views.value[i], macros)
  {
    GroupViewsShape(groups, keys, macros);
    if GroupViews(groups, keys, macros).Done? {
      var views := GroupViews(groups, keys, macros).value;
      forall i | 0 <= i < |views| ensures Shows(groups, views[i], macros) {
        assert keys[i] in keys;
        ViewOfCorrect(groups, keys[i], macros);
      }
    }
  }

  /** A completed list of groups in the reference order shows every key of the map once,
      in descending order, each with its group. */
  lemma GroupViewsCorrect(groups: Groups, macros: Macros)
    ensures var views := GroupViews(groups, DescendingOrder(groups.Keys), macros);
            views.Done? ==>
              && |views.value| == |groups.Keys|
              && (forall k :: k in KeysOf(views.value) <==> k in groups)
              && StrictlyDescending(KeysOf(views.value))
              && (forall i :: 0 <= i < |views.value| ==> Shows(groups, views.value[i], macros))
  {
    var keys := DescendingOrder(groups.Keys);
    DescendingOrderCorrect(groups.Keys);
    GroupViewsShape(groups, keys, macros);
    ViewsShowGroups(groups, keys, macros);
    DescendingLength(keys, groups.Keys);
  }

  /** End to end: a completed overview lists one group per key of the grouping, exactly
      the keys that have members, in strictly descending order; each group holds that
      key's members in file order and shows them as Shows states, all under the macro
      table of the file. */
  lemma OverviewCorrect(doc: seq<Record>, groupBy: string)
    ensures var macros := MacroTable(doc);
            OverviewOf(doc, groupBy).Done? ==>
              && GroupingOf(doc, groupBy, macros).Done?
              && var groups := GroupingOf(doc, groupBy, macros).value;
                 var views := OverviewOf(doc, groupBy).value;
                 && |views| == |groups.Keys|
                 && (forall k :: k in KeysOf(views) <==> Members(doc, k, groupBy, macros) != [])
                 && StrictlyDescending(KeysOf(views))
                 && (forall i :: 0 <= i < |views| ==>
                       && Shows(groups, views[i], macros)
                       && groups[views[i].key] == Members(doc, views[i].key, groupBy, macros))
  {
    var macros := MacroTable(doc);
    if OverviewOf(doc, groupBy).Done? {
      var groups := GroupingOf(doc, groupBy, macros).value;
      GroupViewsCorrect(groups, macros);
      forall k ensures (k in groups <==> Members(doc, k, groupBy, macros) != [])
                       && (k in groups ==> groups[k] == Members(doc, k, groupBy, macros)) {
        GroupingMembers(doc, k, groupBy, macros);
      }
    }
  }

  /** A strictly descending sequence has as many elements as the set it lists. */
  lemma {:induction false} DescendingLength(s: seq<string>, ks: set<string>)
    requires StrictlyDescending(s)
    requires forall k :: k in s <==> k in ks
    ensures |s| == |ks|
    decreases |s|
  {
    if s != [] {
      var tail := s[1..];
      LexLessIrreflexive(s[0]);
      forall i | 0 <= i < |tail| ensures tail[i] != s[0] {
        assert tail[i] == s[i + 1];
      }
      forall x ensures x in tail <==> x in ks - {s[0]} {
        assert s == [s[0]] + tail;
      }
      forall i, j | 0 <= i < j < |tail| ensures LexLess(tail[j], tail[i]) {
        assert tail[i] == s[i + 1] && tail[j] == s[j + 1];
      }
      DescendingLength(tail, ks - {s[0]});
    } else {
      assert forall k :: k !in ks;
      assert ks == {};
    }
  }

  /** The entry has a title, and that title normalises to null. */
  predicate NullTitle(e: Entry, macros: Macros)
  {
    GetField(e.fields, "title").Some? && Normalize(GetField(e.fields, "title").value, macros).None?
  }

  /** On entries that passed the grouping filter, the render loop aborts exactly when one
      of them has a title that normalises to null. */
  lemma RenderedAbortsOnQualified(s: seq<Entry>, macros: Macros)
    requires forall e :: e in s ==> Qualifies(e, macros) == Done(true)
    ensures RenderedEntries(s, macros).NullPointer? <==> exists e :: e in s && NullTitle(e, macros)
  {
    RenderedMembers(s, macros);
    forall i | 0 <= i < |s| ensures RenderFilter(s[i], macros).NullPointer? <==> NullTitle(s[i], macros) {
      RenderFilterOfQualified(s[i], macros);
    }
    if exists e :: e in s && NullTitle(e, macros) {
      var e :| e in s && NullTitle(e, macros);
      var i :| 0 <= i < |s| && s[i] == e;
      assert RenderFilter(s[i], macros).NullPointer?;
    }
  }

  /** On a group whose members all passed the grouping filter, the render stage aborts
      only through the sort or through a member whose title normalises to null. */
  lemma ViewAborts(groups: Groups, k: string, macros: Macros)
    requires k in groups
    requires forall e :: e in groups[k] ==> Qualifies(e, macros) == Done(true)
    ensures ViewOf(groups, k, macros).NullPointer? <==>
              SortedEntries(groups[k], macros).NullPointer? ||
              exists e :: e in groups[k] && NullTitle(e, macros)
  {
    var members := groups[k];
    SortedEntriesCorrect(members, macros);
    var sorted := SortedEntries(members, macros);
    if sorted.Done? {
      forall e ensures e in sorted.value <==> e in members {
        assert e in multiset(sorted.value) <==> e in multiset(members);
      }
      RenderedAbortsOnQualified(sorted.value, macros);
    }
  }
}
