# A verified model of snmp_exporter

snmp_exporter scrapes SNMP devices for Prometheus; its generator turns MIBs into the exporter's configuration.
This project models the parts of both with the most intricate logic, in Dafny 4.11, and proves what they promise.
`dafny verify dfyconfig.toml` checks all of it.

A Go string is a sequence of bytes; the model writes each byte as the `char` with that code.
Go's `int` and `uint64` are 64 bits wide and wrap; where that matters the model wraps too (`GoInt`).

| file | component |
|---|---|
| `DisplayHint.dfy`, `DisplayHintInterpreter.dfy`, `DisplayHintLaws.dfy`, `DisplayHintForms.dfy` | the DISPLAY-HINT language (section 3.1 of RFC 2579): its two-stage meaning, the one-pass interpreter refining it, laws about both, and what common forms of hints show |
| `WorkerPool.dfy` | `Collect`: dispatcher, workers, unbuffered channel, wait group and cancellation as a step relation |
| `MetricTree.dfy` | the metric trie on the heap, against a linear scan |
| `IndexCodec.dfy`, `IndexRoundTrip.dfy`, `Notation.dfy` | table indexes (section 7.7 of RFC 2578, section 4.1 of RFC 4001): decoder, encoder, round trip, distinct texts, and the texts character by character |
| `ValueText.dfy`, `Labels.dfy`, `LabelText.dfy` | octet values as text, label maps, lookups, sample label names, and what each label shows in the end |
| `ScrapePlan.dfy` | dynamic filters, get batching and walks of one scrape |
| `OidSet.dfy`, `MibTree.dfy`, `FetchPlan.dfy`, `FetchCoverage.dfy`, `PlanMeaning.dfy` | the generator: reducing OIDs, searching the MIB tree, the plan that must fetch everything asked for, and what exactly is asked for |
| `IndexMerge.dfy` | the generator's merge of address type and address, and the decoder's position |
| `LookupCoverage.dfy` | generator and collector together: the row a lookup asks for is among what the plan fetches |
| `IndexCopy.dfy` | the pass that copies indexes down the mutable tree |
| `Text.dfy`, `Lists.dfy`, `GoInt.dfy`, `Oid.dfy`, `Config.dfy` | shared vocabulary |

Where the code does something other than its comments or documentation say, the model follows the code; lemmas say
exactly when the two agree, and name inputs where they do not:

- an octet length that does not fit an `int` is refused only when it wraps below zero (`OctetLengthExact`, `OctetLengthWraps`);
- "trailing separators are suppressed": the text ends with the last piece that shows anything of the value exactly when all separators and terminators after that piece are empty, and that piece can be followed only if a repeat count is read as the last octet (`TrailingText`; `TrailingSeparatorRemains`, `TrailingAfterEmptyChunk`);
- an address or text type chosen from a hint shows the same text as the hint only for some values (`MacHintTypeAgrees`, `TextHintTypeAgrees`; `HintTypesDiffer`);
- a filtered target also drops gets that merely share its text as a prefix, rows of other filtered targets included (`TargetTakesOwnSubtreeExactly`, `PlannedGetsIdealExactly`; `TargetTakesNeighbour`, `TargetTakesAllowedRow`);
- state set and bit set metrics repeat a label name exactly when the metric is its own label (`SampleNamesDistinct`; `StateSetRepeatsName`);
- merging address indexes absorbs each type into its address and nothing else exactly when every address directly follows its own type (`MergeIsPairing`); looking two indexes back can swallow an index or run off the list, and `MergeOutcome` says exactly when (`TypeTwoBackSwallowsIndex`, `SharedTypePanics`); the decoder stays aligned over a merged pair exactly when the address has the size of its type (`MergedUsesBoth`; `WrongSizeMisaligns`);
- reducing OIDs is right exactly when no outermost subtree is interrupted in sorted order, as a character below the dot can do (`SweepMinimizesExactly`, `MinimizeOids`, `ReductionDefeated`);
- whether all source indexes of a lookup are present is decided by counting matches, which is right unless a source is repeated among the labels and either none or equally many are missing (`LookupAppliesExactly`, `RepeatedLabelFoolsCount`);
- a lookup of a metric fetched only at instances is fetched in its column exactly at those whose suffix its source labels make up, so a lookup by part of a longer index finds nothing (`LookupFetched`, `LookupFindsFetchedRow`; `RowMissed`).

## Model

| member | source | states |
|---|---|---|
| DisplayHintInterpreter.ApplyDisplayHint | collector/display_hint.go:59-206 | for every hint and value the one-pass interpreter terminates and returns exactly the two-stage meaning: parse all specifications, apply them in order, repeat the last, render |
| DisplayHintInterpreter.Interpret | collector/display_hint.go:75-203 | the outer loop keeps "written so far plus meaning of the rest"; a restart consumes at least one octet |
| DisplayHintInterpreter.NextSpec | collector/display_hint.go:76-146 | the specification read next is the n-th of the parsed list, the last one again once the hint is used up, none exactly when the meaning fails |
| DisplayHintInterpreter.ReadBody | collector/display_hint.go:94-140 | digits, format, separator and terminator are read as the grammar has them, the octet length with 64-bit wrap-around |
| DisplayHintInterpreter.ApplySpec | collector/display_hint.go:148-202 | one specification takes its repeat count and chunks off the value and writes them joined, with the trailer only when octets are left |
| DisplayHintInterpreter.WriteHex | collector/display_hint.go:25-30 | two upper-case hexadecimal digits an octet |
| DisplayHintInterpreter.ReadBigEndian | collector/display_hint.go:170-174 | shifting into a uint64 gives the big-endian value of up to eight octets, nothing shifted out |
| DisplayHintInterpreter.RemainingIsApplication | collector/display_hint.go:155-202 | the emit-as-you-go rules for separator and terminator are "chunks joined by the separator, then one trailer if octets are left" |
| DisplayHintLaws.RenderConserves | collector/display_hint.go:148-203 | on success the count octets and chunks in order are exactly the value |
| DisplayHintLaws.SplitUsesSpecsInOrder | collector/display_hint.go:76-86 | the i-th application uses the i-th specification, or the last one after the end of the hint |
| DisplayHintLaws.ChopWidths | collector/display_hint.go:155-160 | chunks are as wide as asked, except a last one cut by the end of the value |
| DisplayHintLaws.SplitFailsExactly | collector/display_hint.go:76-92 | the value cannot be split exactly when octets are left after every specification was used once and the hint cannot be repeated (it was not read to its end, or its last specification uses up nothing) |
| DisplayHintLaws.RenderFailsExactly | collector/display_hint.go:59-206 | the only failures: empty hint or value, that one, or a d or o chunk over eight octets |
| DisplayHintLaws.HintRoundTrip | collector/display_hint.go:88-140 | every list of writable specifications has a text that parses back to it |
| DisplayHintLaws.OctetLengthExact | collector/display_hint.go:101-110 | a length is understood exactly when it fits an int |
| DisplayHintLaws.OctetLengthWraps | collector/display_hint.go:101-110 | a hint asking for 2^64 + 1 octets reads as one asking for one |
| DisplayHintLaws.RefusedHints | collector/display_hint.go:94-124 | a missing octet length, and digits without one of the letters d, x, o, a, t after them, are no specification |
| DisplayHintLaws.HexHintRoundTrip | collector/display_hint.go:176-177 | `<k>x` with any usable separator: stripped and decoded, the text is the value |
| DisplayHintLaws.DecimalHintRoundTrip | collector/display_hint.go:165-175 | `1d<sep>`: split at the separator and read, the text is the value |
| DisplayHintLaws.TextHintIsRaw | collector/display_hint.go:188-190 | `<k>a` and `<k>t` show the value unchanged |
| DisplayHintForms.NumberHint | collector/display_hint.go:165-175 | `<k>d` and `<k>o` on k octets, k up to 8: the numeral without leading zeros, in base 10 or 8, of the sum of the octets by place |
| DisplayHintForms.GroupHint | collector/display_hint.go:148-202 | `*1d<sep><term>`: any groups with their lengths are shown as numbers, the separator inside groups and the terminator between them |
| DisplayHintForms.PlainGroupHint | collector/display_hint.go:148-202 | `*1d<sep>`: groups are shown as one list, empty ones leaving no separator |
| DisplayHintForms.FixedHint | collector/display_hint.go:76-202 | a hint without `*` on a value as long as it asks for: each chunk as its own specification shows it with that specification's own separator after it, width 0 writing the separator alone |
| DisplayHintForms.BracketsExample | collector/display_hint_test.go:333-336 | `0a[2x]0a:2d` on (32, 1, 0, 80) gives "[2001]:80" |
| DisplayHintLaws.TrailingText | collector/display_hint.go:194-202 | a successful text is that up to the last piece showing any of the value, which it would end with, plus the punctuation after it; nothing follows that piece iff all that punctuation is empty; it is the last piece of all iff no `*` count is read as the value's last octet, always for hints without `*` |
| DisplayHintLaws.TrailingSeparatorRemains | collector/display_hint.go:52 | `1d.*1d` on 5 and any zeros after it gives "5." |
| DisplayHintLaws.TrailingAfterEmptyChunk | collector/display_hint.go:52 | `1d.*0a` on (5, 1, 1) gives "5." although a chunk, without width, is formatted after the separator |
| WorkerPool.RunKeepsInv | collector/collector.go:443-523 | in every reachable state of every run: counters agree, no worker gives up without cancelling, every module handed out is with the one worker that received it or finished once |
| WorkerPool.ReturnedMeansDone | collector/collector.go:508-522 | when Collect returns nothing can move or send, the modules handed out are a prefix and each was scraped to the end exactly once, and without cancellation that is all modules |
| WorkerPool.RunOnlyAdds | collector/collector.go:509-519 | along a run nothing handed out is taken back or reordered and no count goes down |
| WorkerPool.NoDeadlock | collector/collector.go:445-522 | before Collect has returned some goroutine can move without outside help |
| WorkerPool.EveryRunReturns | collector/collector.go:443-523 | every run has a length bound fixed by the configuration and can only stop where Collect has returned |
| WorkerPool.RunCanFinish | collector/collector.go:443-523 | every run can be continued by program steps to Collect's return |
| MetricTree.BuildMetricTree | collector/collector.go:276-290 | the trie has exactly the prefixes of the metrics' OIDs as nodes reached by their path, each holding the last listed metric with that OID |
| MetricTree.InsertMetric | collector/collector.go:278-288 | one round adds the metric's path, leaves every other node's metric alone and keeps the tree shape |
| MetricTree.MatchMetric | collector/collector.go:417-434 | walking the trie finds what a linear scan finds, and the index part handed on is the rest of the OID |
| MetricTree.ScanChooses | collector/collector.go:417-434 | that is the metric whose OID is the shortest prefix, the last listed of equals; nothing iff no metric is a prefix |
| Oid.OidRoundTrip | collector/collector.go:63-85 | an OID list written as text and read back is the list |
| Oid.PrevOidIsPrevious | collector/collector.go:1008-1013 | only the last sub-identifier changes, by one |
| IndexCodec.SplitOid | collector/collector.go:836-851 | the loop pads with zeros or splits, as specified by Split |
| IndexCodec.DecodeConserves | collector/collector.go:909-1006 | used and remaining are the input; zeros are invented only after it has run out; failure exactly on a type without decoding |
| IndexCodec.DecodeAllConserves | collector/collector.go:1020-1029 | the same for a whole list of indexes |
| IndexRoundTrip.ValueRoundTrip | collector/collector.go:909-1006 | decoding an encoded value gives its text and exactly its own sub-identifiers whatever follows |
| Notation.IndexShown | collector/collector.go:934-1002 | the text of every kind of index value, character by character: numerals, octets as they are, `0x` hexadecimal, colon and dot notation, names |
| Notation.CountedExample | collector/collector.go:940-980 | (2, 104, 105, 9) as a counted string is "hi" and leaves 9 |
| Notation.AddressExample | collector/collector.go:910-928 | (1, 4, 10, 0, 0, 7, 9) is an address of four numbers and leaves 9 |
| IndexRoundTrip.RowRoundTrip | collector/collector.go:1020-1029 | the index loop on an encoded row gives back every value and leaves what follows the row |
| IndexRoundTrip.EnumTextTells | collector/collector.go:996-1002 | the text of an enumeration tells the number iff no two numbers share a name and no name is the numeral of a number without one |
| IndexRoundTrip.TextTellsValue | collector/collector.go:934-1002 | two values of one index with the same text are the same value, enumerations with such names included |
| IndexRoundTrip.RowsDoNotCollide | collector/collector.go:1015-1029 | rows with the same label texts are the same row |
| ValueText.DefaultText | collector/collector.go:875-896 | octets without a usable hint: the whole value in hexadecimal, or as it is for DisplayString |
| ValueText.HintedText | collector/collector.go:875-896 | with a hint, an OctetString's text is the whole value in hexadecimal exactly when the hint is unusable on it, and otherwise renders applications that together are the whole value |
| ValueText.TextHintTypeAgrees | generator/tree.go:103-116 | for every hint of digits and `a` or `t`, type DisplayString shows what the hint shows iff the value is empty or the digits, wrapped to an int, are positive |
| ValueText.MacHintTypeAgrees | generator/tree.go:109-113 | for every value, type PhysAddress48 chosen from hint `1x:` shows what the hint shows iff the value has six octets |
| ValueText.HintTypesDiffer | generator/tree.go:103-116 | an empty address, and a one-octet text with hint `0a`, are shown differently |
| Labels.IndexesToLabels | collector/collector.go:1015-1073 | the two loops compute LabelsOf, panicking exactly where it has no value |
| Labels.RowLabels | collector/collector.go:1019-1029 | after the index loop on an encoded row each label has its value's text and its own sub-identifiers |
| Labels.LookupOfRow | collector/collector.go:1037-1041 | a lookup asks for its column at exactly the encoding of its source labels' values in this row |
| LabelText.LookedUpLabel | collector/collector.go:1032-1069 | the last lookup naming a label decides it: if the OID it asks for is there, the label shows that variable, read with the type declared or announced by the previous column, and gets its integer as sub-identifiers; otherwise it is empty |
| LabelText.ValueShown | collector/collector.go:853-904 | that text outright: name or numeral, numbers in decimal, texts as they are, OIDs without their dot, octets under each type |
| LabelText.IndexedLabel | collector/collector.go:1019-1029 | a label that is an index and no lookup's shows the row's value and keeps its sub-identifiers |
| LabelText.LabelsFailExactly | collector/collector.go:1003-1005 | labels fail exactly at an index of a type without decoding, or at a lookup whose variable cannot be read |
| Labels.NamesFromConfig | collector/collector.go:1015-1073 | label names depend on the configuration alone: present iff the last index or lookup naming it sets it |
| Labels.SampleNamesDistinct | collector/collector.go:693-698 | a sample's label names are a function of the metric's configuration and kind alone, and distinct except exactly for state set and bit set metrics with their own name as a label |
| Labels.StateSetRepeatsName | collector/collector.go:774-775 | a state set labelled by its own name has that name twice |
| ScrapePlan.FilterAllowedIndices | collector/collector.go:198-219 | one number for every variable some value matches, in order: what its name ends with after the last dot |
| ScrapePlan.IntersectIndices | collector/collector.go:182-196 | members of both in the order of the first |
| ScrapePlan.AllowedByAllMeans | collector/collector.go:97-101 | a filtered target's indices are those every successful filter naming it allows |
| ScrapePlan.AllowedByAllOrder | collector/collector.go:97-101 | they are in the order of the first filter naming the target |
| ScrapePlan.FirstSeenOrder | collector/collector.go:102-103 | targets are handled in the order they are first named |
| ScrapePlan.ApplyFilters | collector/collector.go:93-135 | the walks are those no successful filter lists as a target, every occurrence, in order; when no filtered target is a text prefix of another, a get is planned iff it is an original one without a target as prefix or `target.i` for an index every successful filter naming the target allows |
| ScrapePlan.UpdateWalkConfig | collector/collector.go:221-238 | exactly the walks not among the targets, in order |
| ScrapePlan.PlannedGetsIdealExactly | collector/collector.go:128-135 | the gets are the originals no target covers by text followed by every target's allowed rows iff no row has a later target's text as a prefix |
| ScrapePlan.UnrelatedTargetsSurvive | collector/collector.go:128-135 | which holds when no target is a text prefix of another |
| ScrapePlan.TargetTakesOwnSubtreeExactly | collector/collector.go:240-257 | a target removes the gets of its own subtree and no others iff no other get has its text as a prefix |
| ScrapePlan.TargetTakesNeighbour | collector/collector.go:245 | filtering column 1 drops a get of column 10 |
| ScrapePlan.TargetTakesAllowedRow | collector/collector.go:128-135 | with targets 1 and 1.2, the row 1.2 allowed for the first is dropped by the second |
| ScrapePlan.ScrapeTarget | collector/collector.go:91-180 | a scrape succeeds iff every planned batch got a reply without error (or NoSuchName under SNMPv1) and every planned walk succeeded; it then returns the variables with values of those replies in order, followed by the walks' variables in order |
| ScrapePlan.GetAll | collector/collector.go:137-170 | without an error the requests are exactly the batches, in order |
| ScrapePlan.BatchesPartition | collector/collector.go:144-169 | batches partition the OIDs in order, none empty or too large, as few as possible |
| ScrapePlan.OneRequestEach | collector/collector.go:140-156 | under SNMPv1 every OID is its own request, and NoSuchName skips just that one |
| ScrapePlan.VersionOneDropsOnlyBadOids | collector/collector.go:140-156 | with a device whose answers do not depend on when it is asked, the result is that of the list without the OIDs it does not know |
| OidSet.MinimizeOids | generator/tree.go:196-208 | the result is the outermost OIDs, each once, in order, iff no outermost subtree is interrupted in sorted order; so whenever no character sorts below the dot |
| OidSet.SweepMinimizesExactly | generator/tree.go:198-205 | the same iff for the sweep over any sorted list |
| OidSet.SubtreeContiguous | generator/tree.go:198-205 | in sorted order a subtree is one block right after its root |
| OidSet.MinimizedCovers | generator/tree.go:196-208 | every input is covered by an output |
| OidSet.MinimizedUnique | generator/tree.go:196-208 | the result depends only on which OIDs are in the input |
| OidSet.LowCharacterDefeatsSweep | generator/tree.go:202 | sorted, an instance `.5`, `.5-x` and `.5.7` of any column are all kept although the first covers the last |
| MibTree.ReductionDefeated | generator/tree.go:226-260 | the generator accepts these three as table instances |
| MibTree.SearchFinds | generator/tree.go:210-223 | the deepest node at or above the OID, nothing iff the root is not above it |
| MibTree.ClassifyMeans | generator/tree.go:235-260 | a name of the tree is a scalar iff it is a metric without indexes, otherwise a subtree; any other OID is an instance of the deepest node above it iff that is a metric with indexes |
| MibTree.InstanceSuffix | generator/tree.go:327-332 | node OID and stored index suffix make up the configured OID |
| IndexCopy.MibNode.CopyDown | generator/tree.go:93-101 | every node ends with the indexes of its outermost ancestor-or-self that had any before the pass, or its own |
| IndexCopy.MibNode.InheritsFromOutermost | generator/tree.go:93-101 | inheriting is from the ancestor-or-self with indexes in whose tree all others are, own keys if there is none |
| IndexMerge.MergeIndexes | generator/tree.go:374-414 | the index loop is MergeFrom |
| IndexMerge.MergeIsPairing | generator/tree.go:399-413 | the merge absorbs each type into its address and nothing else iff every address directly follows its own type |
| IndexMerge.MergeOutcome | generator/tree.go:399-413 | for every list: the metric is kept iff every address has its type one or two back and none takes two indexes where only one is left; the slice goes below zero iff that happens first |
| IndexMerge.MergedIsSurvivors | generator/tree.go:399-413 | the list built is, in order, the indexes not taken the place of |
| IndexMerge.StaysExactly | generator/tree.go:399-413 | of the indexes so far the k-th stays iff as many come after it as the new one drops |
| IndexMerge.MergedUsesBoth | generator/tree.go:399-403 | the merged index uses the sub-identifiers of both originals iff the address has the size of its type |
| IndexMerge.WrongSizeMisaligns | generator/tree.go:399-403 | an IPv4 address of two octets makes the merged index use more than its own sub-identifiers |
| IndexMerge.MergeKeepsAlignment | generator/tree.go:399-413 | when each address directly follows its type and has its size in the row, the list the merge builds uses the same sub-identifiers as the MIB's list and leaves the same rest |
| IndexMerge.SharedTypePanics | generator/tree.go:404-405 | one type serving two addresses slices below zero |
| IndexMerge.TypeTwoBackSwallowsIndex | generator/tree.go:404-405 | a type two back takes the index between with it |
| FetchPlan.ResolveNames | generator/tree.go:302-315 | every name becomes its node's OID and everything else stays; an error iff some name starts with a dot |
| FetchPlan.FindRoots | generator/tree.go:318-338 | the loop computes RootsOf |
| PlanMeaning.RootsMean | generator/tree.go:318-338 | its keys are exactly: `.0` for each kept metric without indexes, the OID itself for any other name of the tree, the instance for an OID below a column; an error iff a kept OID is neither |
| PlanMeaning.InstancesMean | generator/tree.go:327-332 | the instances kept for a node are exactly the rests of the kept OIDs whose column it is |
| PlanMeaning.MetricsMean | generator/tree.go:341-417 | one metric, in order, for exactly the readable nodes of supported type that are not ignored, whose index objects are known and can be merged; its labels are the indexes that survive |
| PlanMeaning.EntryMeans | generator/tree.go:378-398 | the index description of an object: its name, size, names and convention, implied iff last in an implied list, numbers with names as EnumAsInfo |
| FetchPlan.BuildIsMerge | generator/tree.go:378-414 | a metric whose index objects are all known gets the merged index list |
| FetchPlan.CountFound | generator/tree.go:443-451 | the nested loops count the pairs of equal names |
| FetchPlan.LookupAppliesExactly | generator/tree.go:443-452 | counting decides rightly iff no source is repeated among the labels, or some are missing but not as many as there are repetitions; without repetitions a lookup applies iff all sources are present, and with all present iff none is repeated |
| FetchPlan.RepeatedLabelFoolsCount | generator/tree.go:443-452 | a repeated label can stand in for a missing one, and can keep a complete lookup from applying |
| FetchPlan.AskedColumns | generator/tree.go:442-503 | the lookup loop asks for a key iff it belongs to the column of a lookup that applies; its labels are the metric's and those such lookups add |
| FetchPlan.AddSiblingKeys | generator/tree.go:531-554 | address metrics add their type column |
| FetchPlan.Generate | generator/tree.go:282-617 | the plan is the reduced list split at the trailing dots, the same for every order of the key map |
| FetchCoverage.PlanIsExact | generator/tree.go:604-615 | every key on the list is fetched by its own get or under a walk, no get lies under a walk, no walk under another, nothing else is fetched |
| FetchCoverage.ConfiguredIsFetched | generator/tree.go:316-337 | every configured OID is at or below a kept one: a name that is a metric without indexes is fetched at `.0`, any other name walked as a whole, an instance of a column fetched itself |
| FetchCoverage.LookupsAreFetched | generator/tree.go:495-553 | the column of every lookup that applies to a metric, and the type column before an address, are fetched: at each configured instance, or walked as a whole |
| FetchCoverage.FetchedExactly | generator/tree.go:604-615 | an OID is fetched, by its own get or under a walk, iff the list has it or a subtree it is in |
| PlanMeaning.NeedExactly | generator/tree.go:316-554 | the list before the reduction has exactly the keys of kept OIDs, of the columns of applied lookups, and of type columns before addresses |
| PlanMeaning.NeedFailsExactly | generator/tree.go:282-554 | the generator gives up iff a name starts with a dot, a kept OID is unknown, an index list would be cut below zero, or an applied lookup's column is unknown or unsupported |
| FetchCoverage.MetricsAreFetched | generator/tree.go:316-372 | every metric of the module is fetched: walked, at `.0` if it has no indexes, at its instances if it has; unless it lies below another metric of which only an instance or the scalar was configured |
| FetchCoverage.ScalarPlan | generator/tree.go:333-337 | the assumptions of the coverage theorems can be met: configuring one scalar puts exactly a get of its instance 0 on the list |
| LookupCoverage.LookupFetched | generator/tree.go:495-503 | for every lookup applied to a metric and every label table, looked-up sources included: what it asks for is fetched when the table is walked; among fetched instances its column has it iff its suffix is one of theirs; and the plan has it iff the list asks for it |
| LookupCoverage.RowHeld | collector/collector.go:1020-1069 | after the index loop and lookups that set other labels, a row's labels still have the sub-identifiers of its values |
| LookupCoverage.LookupFindsFetchedRow | collector/collector.go:1037-1041 | a lookup whose sources are indexes of the metric asks in a row for its column followed by those indexes' values; it is fetched when the table is walked, and among fetched instances iff that is one of them |
| LookupCoverage.RowMissed | generator/tree.go:495-503 | of a table with two indexes only instance 1.2 is fetched, and a lookup by the second index asks for 2 |

## Left out

- SNMP sockets, HTTP handlers, logging, YAML and Prometheus metric objects: I/O and libraries. The device is a parameter giving a reply to every numbered request.
- Regular expressions: matching a filter value is a parameter. Regexp extracts, date and time parsing, NTP stamps and float formatting are not part of this model.
- Repair of invalid UTF-8: texts are compared before it.
- Static filters of the generator: they delete walks on purpose and are not part of the plan modelled here.
- Type overrides are taken as already applied to the tree; help, name, scale and similar overrides do not affect what is fetched.
- FetchPlan.Generate: metrics are kept in the order of the configured OIDs instead of sorted by OID, because the set of keys does not depend on it; an empty key, on which the source would panic, is treated as a walk.
- FetchPlan.AskedColumns: the choice among nodes with one label follows Go's map order in the source and is a parameter here, restricted in the coverage theorems to nodes of the tree.
- OidSet.MinimizeOids: sorting the caller's slice in place is not modelled, because no caller looks at it afterwards.
- FetchCoverage.ConfiguredIsFetched: a configured OID below a kept table instance or scalar is reduced away by the code and only the kept one is fetched.
- The other passes of prepareTree (descriptions, INTEGER indexes, augments, type tweaks): single assignments per node.
- LldpPortId with a DisplayString subtype: the decoder reads a second length, so it is covered by conservation and not by the round trip.
- IndexCodec.DecodeConserves: sub-identifiers are natural numbers, as SNMP has them; the panic on a negative length is not reachable and not modelled.
- ValueText.HintedText: the integer a text or object identifier counts as in a lookup follows the library function ToBigInt, which is not part of the repository: a decimal numeral in the int range, otherwise 0.
- Labels.IndexesToLabels: values that are floats or of unexpected Go types are not modelled, nor is the collapse of label names that become equal.
- WorkerPool.EveryRunReturns: assumes, as the source does, that client set-up and scrapes end and that the metrics channel is drained.
- Enum state set samples, bit extraction, and the tables of metric types and of accesses: small and finite.
