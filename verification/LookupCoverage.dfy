/** The generator and the collector together: when what a generated lookup asks for while a sample is labelled is among
    what the generated plan fetches. */
module LookupCoverage {
  import opened Text
  import opened OidSet
  import opened FetchPlan
  import opened FetchCoverage
  import opened IndexCodec
  import opened IndexRoundTrip
  import opened Labels
  import Config
  import LabelText
  import MibTree
  import Oid

  // ---------------------------------------------------------------- the OID a lookup asks for

  /** What a lookup appends to its column, from the sub-identifiers its source labels have at that moment. */
  function RowSuffix(t: Table, sources: seq<string>): string
    decreases |sources|
  {
    if sources == [] then "" else "." + Oid.ListToOid(OidsOf(t, sources[0])) + RowSuffix(t, sources[1..])
  }

  lemma {:induction false} AskedOid(column: string, t: Table, sources: seq<string>)
    ensures RowOid(column, t, sources) == column + RowSuffix(t, sources)
    decreases |sources|
  {
    hide OidsOf, Oid.ListToOid;
    if sources != [] {
      var own := "." + Oid.ListToOid(OidsOf(t, sources[0]));
      AskedOid(column + own, t, sources[1..]);
      assert column + "." + Oid.ListToOid(OidsOf(t, sources[0])) == column + own;
      assert column + own + RowSuffix(t, sources[1..]) == column + (own + RowSuffix(t, sources[1..]));
    } else {
      assert column + "" == column;
    }
  }

  lemma SuffixStartsWithDot(t: Table, sources: seq<string>)
    ensures RowSuffix(t, sources) == "" || RowSuffix(t, sources)[0] == '.'
  {}

  /** A column contains the OIDs of all its lookups. */
  lemma ColumnContains(column: string, t: Table, sources: seq<string>)
    ensures Covers(column, column + RowSuffix(t, sources))
  {
    var suffix := RowSuffix(t, sources);
    SuffixStartsWithDot(t, sources);
    CoversMeans(column, column + suffix);
    if suffix == "" {
      assert column + suffix == column;
    } else {
      assert column + "." == (column + suffix)[..|column| + 1];
    }
  }

  /** Where only instances are fetched, the OID is among them exactly when its suffix is one of theirs. */
  lemma InstanceKeys(column: string, suffix: string, instances: seq<string>)
    requires instances != []
    ensures column + suffix + "." in ColumnKeys(column, instances) <==> suffix in instances
  {
    if suffix in instances {
      var i :| 0 <= i < |instances| && instances[i] == suffix;
      assert column + instances[i] + "." in ColumnKeys(column, instances);
    }
    if column + suffix + "." in ColumnKeys(column, instances) {
      var i :| 0 <= i < |instances| && column + suffix + "." == column + instances[i] + ".";
      var k := column + suffix + ".";
      assert suffix == k[|column|..|k| - 1] == instances[i];
    }
  }

  /** The labels the collector sees as a lookup's sources. */
  function Sources(lookup: Lookup): seq<string> { Oid.Map(Sanitize, lookup.sourceIndexes) }

  /** The OID a metric's lookup asks for, with whatever table it finds: one whose sources are the metric's indexes, or
      labels that earlier lookups set. */
  function AskedBy(metric: Metric, lookups: seq<Lookup>, i: nat, pick: Picker, t: Table): string
    requires i < |lookups|
  {
    RowOid(FetchPlan.Column(metric, lookups, i, pick).oid, t, Sources(lookups[i]))
  }

  ghost predicate IsFetched(f: Fetch, oid: string) { oid in f.gets || Walked(f, oid) }

  /** Every lookup applied to a metric of the generated module, and every table it can be used with: the OID it asks
      for is fetched if the whole column is; where only instances of the metric are, the lookup's column is fetched at
      that OID exactly when its suffix is one of the instances'; and the plan has it exactly when the list asks for it.
      */
  lemma LookupFetched(m: Module, root: MibTree.Node, nodes: MibTree.Names, pick: Picker, order: seq<string>,
                      f: Fetch, s: Stages, j: nat, i: nat, t: Table)
    requires Sane(m, root, nodes, pick) && AreStages(s, m, root, nodes, pick) && j < |s.metrics| && i < |m.lookups|
    requires Enumerates(order, Need(m, root, nodes, pick).value) && f == SplitKeys(Sweep(SortStrings(order)))
    requires var instances := InstancesOf(s.roots, s.metrics[j].oid);
             Applies(s.metrics[j], m.lookups, i, RequiredAsIndex(m.lookups), instances, nodes, pick)
    ensures var instances := InstancesOf(s.roots, s.metrics[j].oid);
            var column := FetchPlan.Column(s.metrics[j], m.lookups, i, pick).oid;
            var asked, suffix := AskedBy(s.metrics[j], m.lookups, i, pick, t), RowSuffix(t, Sources(m.lookups[i]));
            && (instances == [] ==> IsFetched(f, asked))
            && (instances != [] ==> (asked + "." in ColumnKeys(column, instances) <==> suffix in instances))
            && (suffix in instances ==> IsFetched(f, asked))
            && (IsFetched(f, asked) <==> AskedFor(Need(m, root, nodes, pick).value, asked))
  {
    hide Sane, AreStages, Applies, FetchPlan.Column, Need, SplitKeys, Sweep, SortStrings, Enumerates, RequiredAsIndex,
         InstancesOf, Walked, RowOid, RowSuffix, ColumnKeys, Sources, AskedFor, Covers;
    var instances := InstancesOf(s.roots, s.metrics[j].oid);
    var column := FetchPlan.Column(s.metrics[j], m.lookups, i, pick).oid;
    var sources := Sources(m.lookups[i]);
    AskedOid(column, t, sources);
    LookupsAreFetched(m, root, nodes, pick, order, f, s, j);
    NeedExists(s, m, root, nodes, pick);
    FetchedExactly(m, root, nodes, pick, order, f, column + RowSuffix(t, sources));
    if instances == [] {
      WalkedBelow(f, column, t, sources);
    } else {
      InstanceKeys(column, RowSuffix(t, sources), instances);
    }
  }

  lemma NeedExists(s: Stages, m: Module, root: MibTree.Node, nodes: MibTree.Names, pick: Picker)
    requires AreStages(s, m, root, nodes, pick)
    ensures Need(m, root, nodes, pick).Some?
  {}

  lemma WalkedBelow(f: Fetch, column: string, t: Table, sources: seq<string>)
    requires Walked(f, column)
    ensures Walked(f, column + RowSuffix(t, sources))
  {
    hide Covers, RowSuffix;
    var w :| w in f.walks && Covers(w, column);
    ColumnContains(column, t, sources);
    CoversTransitive(w, column, column + RowSuffix(t, sources));
  }

  // ---------------------------------------------------------------- sources that are indexes of the metric

  /** The labels of a row still have the sub-identifiers of its values. */
  ghost predicate HoldsRow(t: Table, vs: seq<Value>, names: seq<string>)
    requires |vs| == |names|
  {
    forall k :: 0 <= k < |vs| ==> OidsOf(t, names[k]) == Encode(vs[k])
  }

  /** So they do after the index loop, further indexes and any lookups that set other labels. */
  lemma RowHeld(t: Table, vs: seq<Value>, names: seq<string>, rest: SubIds, more: seq<Config.Index>,
                earlier: seq<Config.Lookup>, pdus: Pdus)
    requires |vs| == |names| && WellFormedList(vs, rest) && Distinct(names)
    requires forall k :: 0 <= k < |more| ==> more[k].labelname !in names
    requires forall k :: 0 <= k < |earlier| ==> earlier[k].labelname !in names
    requires var indexed := IndexLabels(t, EncodeAll(vs) + rest, IndexesOf(vs, names) + more);
             indexed.Some? && LookupLabels(indexed.value, earlier, pdus).Some?
    ensures var indexed := IndexLabels(t, EncodeAll(vs) + rest, IndexesOf(vs, names) + more).value;
            HoldsRow(LookupLabels(indexed, earlier, pdus).value, vs, names)
  {
    hide IndexLabels, LookupLabels, OidsOf, IndexesOf, EncodeAll, WellFormedList;
    IndexedRowHeld(t, vs, names, rest, more);
    var indexed := IndexLabels(t, EncodeAll(vs) + rest, IndexesOf(vs, names) + more).value;
    forall k | 0 <= k < |vs| ensures OidsOf(LookupLabels(indexed, earlier, pdus).value, names[k]) == Encode(vs[k]) {
      LabelText.LookupsKeep(indexed, earlier, pdus, names[k]);
    }
  }

  lemma {:induction false} IndexesKeep(t: Table, oid: SubIds, indexes: seq<Config.Index>, name: string)
    requires IndexLabels(t, oid, indexes).Some? && forall k :: 0 <= k < |indexes| ==> indexes[k].labelname != name
    ensures OidsOf(IndexLabels(t, oid, indexes).value, name) == OidsOf(t, name)
    decreases |indexes|
  {
    hide DecodeIndex;
    if indexes != [] {
      var d := DecodeIndex(oid, indexes[0]).value;
      IndexesKeep(SetIndex(t, indexes[0].labelname, d), d.remaining, indexes[1..], name);
    }
  }

  lemma {:induction false} IndexedRowHeld(t: Table, vs: seq<Value>, names: seq<string>, rest: SubIds,
                                          more: seq<Config.Index>)
    requires |vs| == |names| && WellFormedList(vs, rest) && Distinct(names)
    requires forall k :: 0 <= k < |more| ==> more[k].labelname !in names
    requires IndexLabels(t, EncodeAll(vs) + rest, IndexesOf(vs, names) + more).Some?
    ensures HoldsRow(IndexLabels(t, EncodeAll(vs) + rest, IndexesOf(vs, names) + more).value, vs, names)
    decreases |vs|
  {
    hide DecodeIndex, TextOf, Encode, IndexOf, WellFormedList, WellFormed, Greedy, EncodeAll, OidsOf, IndexesOf,
         IndexLabels;
    if vs != [] {
      var d := RowStep(t, vs, names, rest, more);
      var after := EncodeAll(vs[1..]) + rest;
      var next := SetIndex(t, names[0], d);
      var tail := IndexesOf(vs[1..], names[1..]) + more;
      IndexedRowHeld(next, vs[1..], names[1..], rest, more);
      NamesOfIndexes(vs[1..], names[1..]);
      assert forall k :: 0 <= k < |tail| ==> tail[k].labelname != names[0];
      IndexesKeep(next, after, tail, names[0]);
      JustSet(t, names[0], d);
      forall k | 1 <= k < |vs| ensures OidsOf(IndexLabels(next, after, tail).value, names[k]) == Encode(vs[k]) {
        assert names[1..][k - 1] == names[k] && vs[1..][k - 1] == vs[k];
      }
    }
  }

  lemma JustSet(t: Table, name: string, d: Decoded)
    ensures OidsOf(SetIndex(t, name, d), name) == d.used
  {}

  lemma {:induction false} NamesOfIndexes(vs: seq<Value>, names: seq<string>)
    requires |vs| == |names|
    ensures |IndexesOf(vs, names)| == |vs|
    ensures forall k :: 0 <= k < |vs| ==> IndexesOf(vs, names)[k].labelname == names[k]
  {
    hide IndexOf;
    if vs != [] {
      NamesOfIndexes(vs[1..], names[1..]);
      NameOfIndex(vs[0], names[0]);
    }
  }

  /** The index loop takes the first value of an encoded row. */
  lemma RowStep(t: Table, vs: seq<Value>, names: seq<string>, rest: SubIds, more: seq<Config.Index>)
    returns (d: Decoded)
    requires |vs| == |names| && vs != [] && WellFormedList(vs, rest)
    ensures d.used == Encode(vs[0]) && WellFormedList(vs[1..], rest)
    ensures |IndexesOf(vs[1..], names[1..])| == |vs| - 1
    ensures IndexLabels(t, EncodeAll(vs) + rest, IndexesOf(vs, names) + more)
            == IndexLabels(SetIndex(t, names[0], d), EncodeAll(vs[1..]) + rest, IndexesOf(vs[1..], names[1..]) + more)
  {
    hide DecodeIndex, TextOf, Encode, IndexOf, WellFormed, Greedy, EncodeAll;
    var after := EncodeAll(vs[1..]) + rest;
    d := Decoded(TextOf(vs[0]), Encode(vs[0]), after);
    GreedyIsLast(vs, rest);
    ValueRoundTrip(vs[0], names[0], after);
    EncodeAllStep(vs);
    assert EncodeAll(vs) + rest == Encode(vs[0]) + after;
    NameOfIndex(vs[0], names[0]);
    NamesOfIndexes(vs[1..], names[1..]);
    var indexes, tail := IndexesOf(vs, names), IndexesOf(vs[1..], names[1..]);
    assert indexes == [IndexOf(vs[0], names[0])] + tail;
    assert (indexes + more)[0] == IndexOf(vs[0], names[0]) && (indexes + more)[1..] == tail + more;
  }

  function Place(x: string, labels: seq<string>): (k: nat)
    requires x in labels
    ensures k < |labels| && labels[k] == x
  {
    if labels[0] == x then 0 else 1 + Place(x, labels[1..])
  }

  /** Where the sources stand among the metric's labels. */
  function Places(labels: seq<string>, sources: seq<string>): (at: seq<nat>)
    requires AllPresent(labels, sources)
    ensures |at| == |sources| && forall k :: 0 <= k < |at| ==> at[k] < |labels| && labels[at[k]] == sources[k]
  {
    if sources == [] then []
    else
      assert forall x :: x in sources[1..] ==> x in sources;
      [Place(sources[0], labels)] + Places(labels, sources[1..])
  }

  /** The text of a list of sub-identifiers as an instance's suffix. */
  function Suffix(index: SubIds): string { "." + Oid.ListToOid(index) }

  /** Source labels that are indexes of the row give the suffix of their values' encodings, one after the other. */
  lemma {:induction false} SuffixOfRow(t: Table, vs: seq<Value>, labels: seq<string>, sources: seq<string>)
    requires |vs| == |labels| && HoldsRow(t, vs, Oid.Map(Sanitize, labels)) && AllPresent(labels, sources)
            && sources != []
    requires forall k :: 0 <= k < |vs| ==> WellFormed(vs[k])
    ensures RowSuffix(t, Oid.Map(Sanitize, sources)) == Suffix(EncodeAll(Picked(vs, Places(labels, sources))))
    ensures EncodeAll(Picked(vs, Places(labels, sources))) != []
    decreases |sources|
  {
    hide Encode, EncodeAll, WellFormed, Sanitize, OidsOf, Oid.ListToOid, RowSuffix, Picked, Places;
    var k := FirstSource(vs, labels, sources);
    SuffixFirst(t, sources);
    assert OidsOf(t, Sanitize(sources[0]))
        == Encode(vs[k]) by { assert Oid.Map(Sanitize, labels)[k] == Sanitize(labels[k]); }
    EncodingNotEmpty(vs[k]);
    var picked, more := Picked(vs, Places(labels, sources)), Picked(vs, Places(labels, sources[1..]));
    EncodeAllStep(picked);
    assert picked[1..] == more;
    if |sources| == 1 {
      NoSources(t, vs, labels);
      assert sources[1..] == [] && Encode(vs[k]) + [] == Encode(vs[k]);
    } else {
      SuffixOfRow(t, vs, labels, sources[1..]);
      Oid.ListToOidAppend(Encode(vs[k]), EncodeAll(more));
    }
  }

  lemma FirstSource(vs: seq<Value>, labels: seq<string>, sources: seq<string>) returns (k: nat)
    requires |vs| == |labels| && AllPresent(labels, sources) && sources != []
    ensures k < |labels| && labels[k] == sources[0] && AllPresent(labels, sources[1..])
    ensures Picked(vs, Places(labels, sources)) == [vs[k]] + Picked(vs, Places(labels, sources[1..]))
  {
    var at := Places(labels, sources);
    k := at[0];
    assert forall x :: x in sources[1..] ==> x in sources;
    assert at[1..] == Places(labels, sources[1..]);
  }

  lemma SuffixFirst(t: Table, sources: seq<string>)
    requires sources != []
    ensures RowSuffix(t, Oid.Map(Sanitize, sources))
            == "." + Oid.ListToOid(OidsOf(t, Sanitize(sources[0]))) + RowSuffix(t, Oid.Map(Sanitize, sources[1..]))
  {
    hide Sanitize, OidsOf, Oid.ListToOid;
    assert Oid.Map(Sanitize, sources)[1..] == Oid.Map(Sanitize, sources[1..]);
  }

  lemma NoSources(t: Table, vs: seq<Value>, labels: seq<string>)
    requires |vs| == |labels|
    ensures RowSuffix(t, Oid.Map(Sanitize, [])) == "" && AllPresent(labels, [])
    ensures EncodeAll(Picked(vs, Places(labels, []))) == []
  {
    assert Oid.Map(Sanitize, []) == [];
  }

  /** From configuration to sample: a lookup whose sources are indexes of the metric asks, in the row vs, for the
      suffix made of those indexes' values. It is fetched if the metric's whole table is, and where only instances are,
      its column is fetched there exactly when that suffix is one of the instances'. */
  lemma LookupFindsFetchedRow(m: Module, root: MibTree.Node, nodes: MibTree.Names, pick: Picker, order: seq<string>,
                              f: Fetch, s: Stages, j: nat, i: nat, t: Table, vs: seq<Value>)
    requires Sane(m, root, nodes, pick) && AreStages(s, m, root, nodes, pick) && j < |s.metrics| && i < |m.lookups|
    requires Enumerates(order, Need(m, root, nodes, pick).value) && f == SplitKeys(Sweep(SortStrings(order)))
    requires var instances := InstancesOf(s.roots, s.metrics[j].oid);
             Applies(s.metrics[j], m.lookups, i, RequiredAsIndex(m.lookups), instances, nodes, pick)
    requires AllPresent(s.metrics[j].labels, m.lookups[i].sourceIndexes) && m.lookups[i].sourceIndexes != []
    requires |vs| == |s.metrics[j].labels| && forall k :: 0 <= k < |vs| ==> WellFormed(vs[k])
    requires HoldsRow(t, vs, Oid.Map(Sanitize, s.metrics[j].labels))
    ensures var instances := InstancesOf(s.roots, s.metrics[j].oid);
            var column := FetchPlan.Column(s.metrics[j], m.lookups, i, pick).oid;
            var index := EncodeAll(Picked(vs, Places(s.metrics[j].labels, m.lookups[i].sourceIndexes)));
            var asked := AskedBy(s.metrics[j], m.lookups, i, pick, t);
            && asked == column + Suffix(index)
            && (instances == [] ==> IsFetched(f, asked))
            && (instances != [] ==> (asked + "." in ColumnKeys(column, instances) <==> Suffix(index) in instances))
            && (Suffix(index) in instances ==> IsFetched(f, asked))
  {
    hide Sane, AreStages, Applies, FetchPlan.Column, Need, SplitKeys, Sweep, SortStrings, Enumerates, RequiredAsIndex,
         InstancesOf, RowOid, RowSuffix, ColumnKeys, Suffix, IsFetched, AskedFor, WellFormed, HoldsRow, Picked,
         Places, EncodeAll;
    LookupFetched(m, root, nodes, pick, order, f, s, j, i, t);
    AskedOid(FetchPlan.Column(s.metrics[j], m.lookups, i, pick).oid, t, Sources(m.lookups[i]));
    SuffixOfRow(t, vs, s.metrics[j].labels, m.lookups[i].sourceIndexes);
  }

  /** A row can be missed: of a table with two indexes only instance 1.2 is configured, and the lookup uses the
      second. */
  lemma RowMissed()
    ensures var vs, f := [Number(1), Number(2)], Fetch(["1.3.9.1.2"], []);
            var t := IndexLabels(Table(map[], map[]), EncodeAll(vs), IndexesOf(vs, ["a", "b"]));
            && ColumnFetched(f, "1.3.9", [".1.2"])
            && t.Some? && RowOid("1.3.9", t.value, ["b"]) == "1.3.9.2" && !IsFetched(f, "1.3.9.2")
  {
    var vs := [Number(1), Number(2)];
    TwoNumbers(vs);
    hide IndexLabels, OidsOf, EncodeAll, IndexesOf;
    var t := IndexLabels(Table(map[], map[]), EncodeAll(vs), IndexesOf(vs, ["a", "b"])).value;
    assert RowSuffix(t, ["b"]) == ".2" by {
      ListOfTwo();
      assert ["b"][1..] == [] && RowSuffix(t, []) == "";
    }
    AskedOid("1.3.9", t, ["b"]);
    assert "1.3.9" + ".2" == "1.3.9.2" && "1.3.9" + ".1.2" == "1.3.9.1.2" && |"1.3.9.1.2"| != |"1.3.9.2"|;
  }

  lemma TwoNumbers(vs: seq<Value>)
    requires vs == [Number(1), Number(2)]
    ensures var t := IndexLabels(Table(map[], map[]), EncodeAll(vs), IndexesOf(vs, ["a", "b"]));
            t.Some? && OidsOf(t.value, "b") == [2]
  {
    hide IndexLabels, IndexesOf;
    assert WellFormedList(vs, []) by { assert vs[1..] == [Number(2)] && vs[1..][1..] == []; }
    var names := ["a", "b"];
    assert names[1] == "b" && Encode(vs[1]) == [2];
    RowLabels(Table(map[], map[]), vs, names, []);
    assert EncodeAll(vs) + [] == EncodeAll(vs);
  }

  lemma ListOfTwo()
    ensures Oid.ListToOid([2]) == "2"
  {
    assert Oid.Map(Itoa, [2]) == [Itoa(2)] && Itoa(2) == "2";
  }
}
