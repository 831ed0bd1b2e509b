# thebibbrag: the publication-list pipeline in Dafny

thebibbrag reads a BibTeX file and writes an HTML publication list: an overview page
grouped by one field (for example `year`) and one detail page per publication. This
project models the logic in `Main.java` between the parser's output and the HTML
printing:

- **Value normalisation.** Parsed field values (string leaves, concatenations, person
  lists, macro references, other values) are flattened to display strings. Braces are
  removed and two escaped umlauts are rewritten.
- **Macro table.** The table is built from the file's `@string` definitions in order.
  Each definition is normalised against the table as it stood at that point.
- **Grouping.** Entries whose author contains "Riedel" and whose year is not "N/A" are
  appended to one group per comma-separated piece of the group field.
- **Overview order.** The group keys are sorted and then reversed. Each group is sorted
  by the month or title sort key (`sortEntries`). A second filter then decides which
  entries are listed.
- **BibTeX serialiser.** `bibtex(entry)` writes the text shown on each detail page.

Java's `null` is modelled as `Option.None`. The string operations the code relies on
are written out in `java_strings.dfy` with Java's semantics:

- `replace`;
- `startsWith` and `contains`;
- `trim`;
- `toLowerCase`;
- `split(",")`, with trailing empty pieces dropped;
- `compareTo`;
- printing `null` as the text "null".

Where the code dereferences a string that can be `null`, the model returns the outcome
`NullPointer`, which stands for the `NullPointerException` that ends the run. These
places are:

- `author.contains`, `year.equals` and `normalize(value).split` in the grouping loop;
- `normalize(month).trim()` in `sortKey`;
- `compareTo` on a null key in the comparator;
- the three tests of the render filter.

The imperative parts of the code are Dafny methods, each proved equal to a function
that specifies it:

- the person-list loop with its index counter;
- the macro loop;
- the grouping loop;
- the `bibtex` buffer loop;
- the copy-and-sort of `sortEntries`, on an array;
- the sort and reverse of the group keys, in place on an array;
- the render loop.

Lemmas about those functions state what the source promises: membership,
order, stability, permutation, last-definition-wins, and when the run aborts.

Some consequences of what the code does:

- The month table holds only "1" to "9", so a month name such as "June" keys as "june"
  (`SortKeys.MonthNameKey`).
- A person whose first or last name is null is written with the text "null" in its
  place.
- The author filter tests the normalised author text against the hard-coded name
  "Riedel".
- A macro with no definition normalises to `null`. That null is harmless when it is only
  printed. It aborts the run when the grouping or render filter, or the sort key, reads
  it.
- Group keys are not trimmed. The pieces of "machine learning, nlp" are
  "machine learning" and " nlp".

## Model

| member | source | states |
|---|---|---|
| `JavaStrings.ReplaceAllAvoids` | src/main/java/org/riedelcastro/thebibbrag/Main.java:18-20 | a character in neither the text nor the replacement is not in the result of replace |
| `JavaStrings.ReplaceAllAbsent` | src/main/java/org/riedelcastro/thebibbrag/Main.java:18-20 | replacing a pattern that does not occur leaves the text unchanged |
| `JavaStrings.StartsWithPrefix` | src/main/java/org/riedelcastro/thebibbrag/Main.java:72 | startsWith holds exactly when the text is the prefix followed by some text |
| `Normalization.NormalizeText` | src/main/java/org/riedelcastro/thebibbrag/Main.java:17-21 | the leaf normalisation leaves no `{` and no `}` in its result |
| `Normalization.NormalizeTextWithoutEscapes` | src/main/java/org/riedelcastro/thebibbrag/Main.java:17-21 | on text without a backslash, the result is the input with every brace removed and nothing else changed |
| `Normalization.Normalize` | src/main/java/org/riedelcastro/thebibbrag/Main.java:23-53 | the result is null exactly for a reference to a macro whose table value is null or absent; a string leaf or other value gives brace-free text |
| `Normalization.NormalizeConcatenation` | src/main/java/org/riedelcastro/thebibbrag/Main.java:29-32 | a concatenation of two non-null parts normalises to the normalised left part, one space, and the normalised right part |
| `Normalization.NormalizeField` | src/main/java/org/riedelcastro/thebibbrag/Main.java:24 | a missing (null) value normalises to "N/A" |
| `Normalization.FullNames` | src/main/java/org/riedelcastro/thebibbrag/Main.java:37-44 | one full name per person element, non-person elements skipped |
| `Normalization.NormalizePersons` | src/main/java/org/riedelcastro/thebibbrag/Main.java:33-45 | the index-counter loop writes the persons' "first last" names in list order, joined by ", " |
| `Normalization.PersonListLength` | src/main/java/org/riedelcastro/thebibbrag/Main.java:33-45 | k persons give their names' total length plus exactly k - 1 separators of two characters |
| `JavaStrings.JoinLength` | src/main/java/org/riedelcastro/thebibbrag/Main.java:39 | a join of n pieces holds n - 1 separators |
| `Normalization.LastDefinition` | src/main/java/org/riedelcastro/thebibbrag/Main.java:163-169 | the position found defines the key and no later record does; with none, no record defines it |
| `Normalization.MacroTableLastDefinition` | src/main/java/org/riedelcastro/thebibbrag/Main.java:163-169 | a key is in the table exactly when some record defines it, and it is bound to its last definition's value, normalised against the table built before it |
| `Normalization.BuildMacros` | src/main/java/org/riedelcastro/thebibbrag/Main.java:163-169 | the loop builds exactly the reference macro table |
| `BibDom.GetFieldFinds` | src/main/java/org/riedelcastro/thebibbrag/Main.java:73 | a field lookup fails exactly when no field has the name, and otherwise returns the first such field's value |
| `BibDom.GetFieldOwnValue` | src/main/java/org/riedelcastro/thebibbrag/Main.java:70-73 | with unique field names, looking up a field's own name returns its own value |
| `Serialiser.Bibtex` | src/main/java/org/riedelcastro/thebibbrag/Main.java:67-78 | the buffer loop produces the header, then one line per written field in field order, then "}" |
| `Serialiser.WrittenFieldsMembers` | src/main/java/org/riedelcastro/thebibbrag/Main.java:72 | a field gets a line exactly when its name starts with neither "date" nor "url" |
| `Serialiser.BibtexFrame` | src/main/java/org/riedelcastro/thebibbrag/Main.java:69-76 | the text begins with "@type{key," and a newline, and ends with "}" |
| `Serialiser.BibtexLines` | src/main/java/org/riedelcastro/thebibbrag/Main.java:70-74 | with unique names, each written field's line carries that field's own normalised value, and there are no other lines |
| `Serialiser.TextAfterField` | src/main/java/org/riedelcastro/thebibbrag/Main.java:70-74 | one more field adds its line when it is written and nothing otherwise |
| `JavaStrings.Trim` | src/main/java/org/riedelcastro/thebibbrag/Main.java:125 | String.trim gives a middle slice with only whitespace around it and no whitespace at either end |
| `JavaStrings.ToLower` | src/main/java/org/riedelcastro/thebibbrag/Main.java:125 | the length is kept, no capital A-Z is left, every other character is unchanged, and each capital becomes the small letter at the same place in the alphabet |
| `SortKeys.MonthCode` | src/main/java/org/riedelcastro/thebibbrag/Main.java:110-127 | a one-digit month "1".."9" becomes "0" followed by the digit; any other text is returned unchanged |
| `SortKeys.SortKey` | src/main/java/org/riedelcastro/thebibbrag/Main.java:122-130 | only an entry with a month field can abort; a month key is never null and holds no capital A-Z, so month keys compare without regard to case |
| `SortKeys.MonthKey` | src/main/java/org/riedelcastro/thebibbrag/Main.java:123-127 | a month whose trimmed, lower-cased text is one digit 1-9 keys as that digit behind a zero; any other month text keys as itself |
| `SortKeys.SortKeyCases` | src/main/java/org/riedelcastro/thebibbrag/Main.java:122-130 | with a month field the key is the month code of the trimmed lower-cased normalised month, and a null month aborts; without one it is the normalised title |
| `SortKeys.SpacedDigitMonthKey` | src/main/java/org/riedelcastro/thebibbrag/Main.java:125-127 | the month " 6 " keys as "06" |
| `SortKeys.DigitMonthKey` | src/main/java/org/riedelcastro/thebibbrag/Main.java:125-127 | every one-digit month from 1 to 9 keys as that digit behind a zero |
| `SortKeys.MonthNameKey` | src/main/java/org/riedelcastro/thebibbrag/Main.java:125-127 | the month "June" keys as "june", because the table has no month names |
| `JavaStrings.CompareToSign` | src/main/java/org/riedelcastro/thebibbrag/Main.java:138 | compareTo is negative exactly when the first string is lexicographically less, and zero exactly when the strings are equal |
| `StableSort.SortByKeyCorrect` | src/main/java/org/riedelcastro/thebibbrag/Main.java:133-141 | the sort is a permutation of its input, ascending by key, and keeps entries with equal keys in input order |
| `StableSort.SortInPlace` | src/main/java/org/riedelcastro/thebibbrag/Main.java:134-141 | the in-place sort leaves the array equal to the reference stable sort of its old contents |
| `SortKeys.AllHaveKeys` | src/main/java/org/riedelcastro/thebibbrag/Main.java:136-137 | the result is true exactly when the given key test (in sortEntries: the key can be computed and is not null) holds of every entry |
| `SortKeys.SortedEntriesKeyed` | src/main/java/org/riedelcastro/thebibbrag/Main.java:132-143 | when every one of two or more entries has a key, so does every entry of the sorted result |
| `SortKeys.SortedEntriesCorrect` | src/main/java/org/riedelcastro/thebibbrag/Main.java:132-143 | sortEntries aborts exactly when there are two or more entries and some key is missing; otherwise it returns a stable, ascending permutation of its input in which every key was computed |
| `SortKeys.SortEntries` | src/main/java/org/riedelcastro/thebibbrag/Main.java:132-143 | the copy sorted in place equals the reference sort, and the input list is unchanged |
| `Grouping.Qualifies` | src/main/java/org/riedelcastro/thebibbrag/Main.java:177-179 | an entry passes the filter only if it has both an author and a year field; the filter aborts only through an author or year field that normalises to null |
| `JavaStrings.ContainsOccurs` | src/main/java/org/riedelcastro/thebibbrag/Main.java:179 | contains holds exactly when the pattern occurs at some offset of the text |
| `JavaStrings.ShorterNotContains` | src/main/java/org/riedelcastro/thebibbrag/Main.java:179 | a text shorter than the pattern does not contain it, so a missing author ("N/A") never contains "Riedel" |
| `Grouping.FilterRejects` | src/main/java/org/riedelcastro/thebibbrag/Main.java:177-179 | once author and year normalise to text, an entry qualifies exactly when the author contains "Riedel" and the year is not "N/A" |
| `Grouping.SkippedEntries` | src/main/java/org/riedelcastro/thebibbrag/Main.java:179-181 | an entry that fails the filter, or lacks the group field, is added to no group |
| `Grouping.GroupNames` | src/main/java/org/riedelcastro/thebibbrag/Main.java:180-182 | every group name is free of commas, and an entry gets a group name only if it passed the filter and has the group field |
| `JavaStrings.SplitPieces` | src/main/java/org/riedelcastro/thebibbrag/Main.java:182 | split(",") gives the pieces between commas, untrimmed, with the trailing empty pieces dropped (a non-empty result never ends in an empty piece) and one piece when there is no comma |
| `JavaStrings.JoinPieces` | src/main/java/org/riedelcastro/thebibbrag/Main.java:182 | the pieces between separators, joined with the separator again, give back the text |
| `Grouping.AddEntry` | src/main/java/org/riedelcastro/thebibbrag/Main.java:182-189 | the get-or-create-and-append loop gives the reference group map |
| `Grouping.AddToGroupsContents` | src/main/java/org/riedelcastro/thebibbrag/Main.java:182-189 | adding an entry creates exactly the groups of its pieces and appends one copy per occurrence of a piece |
| `Grouping.GroupEntries` | src/main/java/org/riedelcastro/thebibbrag/Main.java:172-192 | the grouping loop builds the reference group map, or aborts |
| `Grouping.GroupingMembers` | src/main/java/org/riedelcastro/thebibbrag/Main.java:172-192 | a group exists exactly when it has members, and holds exactly the qualifying entries whose pieces name it, in file order, once per matching piece |
| `Grouping.GroupingAborts` | src/main/java/org/riedelcastro/thebibbrag/Main.java:177-182 | the grouping loop aborts exactly when the filter or the split of some entry aborts |
| `Grouping.NoRecovery` | src/main/java/org/riedelcastro/thebibbrag/Main.java:174-192 | once the loop has aborted on a prefix of the file, it aborts on the whole file |
| `Overview.GroupedEntriesQualify` | src/main/java/org/riedelcastro/thebibbrag/Main.java:177-181 | every entry in a group passed the author/year filter and has the group field |
| `Overview.ListKeys` | src/main/java/org/riedelcastro/thebibbrag/Main.java:194 | the copied key list holds each key of the map exactly once |
| `Overview.DescendingKeys` | src/main/java/org/riedelcastro/thebibbrag/Main.java:194-196 | sort then reverse gives the reference descending order of the key set |
| `Overview.DescendingOrderCorrect` | src/main/java/org/riedelcastro/thebibbrag/Main.java:194-196 | the reference order lists every group key exactly once, in strictly descending lexicographic order |
| `Overview.DescendingUnique` | src/main/java/org/riedelcastro/thebibbrag/Main.java:194-196 | any strictly descending list of exactly the keys is the reference order |
| `StableSort.ReverseInPlace` | src/main/java/org/riedelcastro/thebibbrag/Main.java:196 | Collections.reverse leaves the array equal to its old contents back to front |
| `Overview.ReversedAscending` | src/main/java/org/riedelcastro/thebibbrag/Main.java:195-196 | distinct keys sorted ascending and then reversed are strictly descending and are the same keys |
| `Overview.RenderFilter` | src/main/java/org/riedelcastro/thebibbrag/Main.java:215-220 | a listed entry passed the grouping filter and has a title that normalises to text without "http" |
| `Overview.RenderFilterOfQualified` | src/main/java/org/riedelcastro/thebibbrag/Main.java:215-220 | on an entry that passed the grouping filter, the render filter aborts exactly when its title normalises to null, and lists it exactly when it has a title without "http" |
| `Overview.RenderedMembers` | src/main/java/org/riedelcastro/thebibbrag/Main.java:213-227 | the render loop aborts exactly when the filter aborts on some entry, and otherwise lists exactly the accepted entries |
| `Overview.RenderedSorted` | src/main/java/org/riedelcastro/thebibbrag/Main.java:213-227 | a sorted group lists sorted |
| `Overview.RenderedAccepted` | src/main/java/org/riedelcastro/thebibbrag/Main.java:213-227 | a completed render loop lists exactly the entries the filter accepts, in input order |
| `Overview.AcceptedCounts` | src/main/java/org/riedelcastro/thebibbrag/Main.java:215-220 | the filter keeps every copy of an accepted entry and no copy of any other |
| `Overview.AcceptedWithKey` | src/main/java/org/riedelcastro/thebibbrag/Main.java:213-220 | the entries of each key are filtered in their input order |
| `Overview.RenderedOrder` | src/main/java/org/riedelcastro/thebibbrag/Main.java:213-227 | the render loop is an order-preserving filter: an accepted entry is listed as often as it occurs, any other not at all, and each key's entries keep their order |
| `Overview.RenderGroup` | src/main/java/org/riedelcastro/thebibbrag/Main.java:213-229 | the render loop over a sorted group equals its reference function |
| `Overview.ShowGroup` | src/main/java/org/riedelcastro/thebibbrag/Main.java:213-229 | one group is sorted and then filtered for rendering |
| `Overview.RenderGroups` | src/main/java/org/riedelcastro/thebibbrag/Main.java:208-233 | the loop over the sorted keys gives the reference list of groups |
| `Overview.RenderedAbortsOnQualified` | src/main/java/org/riedelcastro/thebibbrag/Main.java:215-220 | among entries that passed the grouping filter, rendering aborts exactly when a title normalises to null |
| `Overview.ViewOfCorrect` | src/main/java/org/riedelcastro/thebibbrag/Main.java:213-220 | a group lists its members that pass the render filter, each as often as it occurs in the group, ascending by sort key, with members of equal key in group order |
| `Overview.ViewAborts` | src/main/java/org/riedelcastro/thebibbrag/Main.java:213-220 | rendering a group aborts only through its sort, or through a member whose title normalises to null |
| `Overview.GroupViewsAborts` | src/main/java/org/riedelcastro/thebibbrag/Main.java:208-233 | the loop over the groups aborts exactly when one group's sort or render aborts |
| `Overview.GroupViewsShape` | src/main/java/org/riedelcastro/thebibbrag/Main.java:208-233 | a completed loop gives one group per key, in key order, each holding that key's listing |
| `Overview.ViewsShowGroups` | src/main/java/org/riedelcastro/thebibbrag/Main.java:208-233 | every rendered group lists its key's accepted members with their multiplicity, ascending by sort key, with members of equal key in group order |
| `Overview.GroupViewsCorrect` | src/main/java/org/riedelcastro/thebibbrag/Main.java:194-233 | a completed overview has one group per map key, every map key appears, the keys are strictly descending, and each group lists its accepted members with their multiplicity, sorted and with ties in group order |
| `Overview.OverviewCorrect` | src/main/java/org/riedelcastro/thebibbrag/Main.java:145-233 | a completed run lists one group per key that has members, in strictly descending key order; each group holds its members in file order and lists them as GroupViewsCorrect states, under the file's macro table |
| `Overview.BuildOverview` | src/main/java/org/riedelcastro/thebibbrag/Main.java:145-233 | main, from the parsed file, builds the macro table, the groups, the key order and each group's listing, exactly as the reference overview |

## Left out

- Reading the BibTeX file and the external `BibtexParser`: the model starts from the
  parsed records, a sequence of macro definitions, entries and other records.
- Command-line arguments, the preamble and postamble files, directory creation, and
  every `println` to `System.out`, the overview page and the detail pages. The overview
  is the value these lines would print from: for each group, its key and the entries it
  lists.
- `createPerPubHTML` and `printBibItem`: these only format text and print it. The
  model assumes that they do not abort for an entry that passed the render filter.
  `printPubItem` is empty.
- Output written before a `NullPointerException`: an aborted run is modelled as
  `NullPointer` with no partial result.
- The `HashMap` iteration order of the fields in `bibtex` and of the group keys. The
  fields are given as a sequence in some order. The key copy in `ListKeys` chooses an
  arbitrary order, and its result does not depend on that order once sorted.
- `Normalization.NormalizeText`: the two umlaut replacements are fixed one-character
  strings ("ü", "ä"), because the source text shows corrupted bytes there.
- `JavaStrings.ToLower`: lower-cases the ASCII letters only. Java's full Unicode case
  mapping is not modelled.
- `JavaStrings.CompareToSign`: compares Dafny characters, which are Unicode scalar
  values, not Java's UTF-16 code units. The two orders differ only for characters
  beyond the Basic Multilingual Plane.
- `SortKeys.SortedEntriesCorrect`: `Collections.sort` is TimSort. The model replaces it
  with a stable insertion sort, which has the same result because a stable sort's output
  is determined by its keys. It treats the comparator as aborting exactly when some key
  of a list of two or more is missing. TimSort compares every element of such a list.
  The order in which comparisons happen is not modelled.
- The `toString()` of unknown value kinds is taken to be the value's text, which is
  then normalised as a leaf.
