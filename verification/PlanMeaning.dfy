/** The generated plan in terms of the configuration and the MIB tree: which keys are on the list, which metrics
    there are, and when the generator gives up. */
module PlanMeaning {
  import opened Text
  import opened Lists
  import opened OidSet
  import opened MibTree
  import opened FetchPlan
  import opened FetchCoverage
  import Config
  import IndexMerge
  import Oid

  // ---------------------------------------------------------------- what a kept OID is

  /** The key of a kept OID: `.0` for a named metric without indexes, the whole subtree for any other name, the OID
      itself for an instance of a column. */
  ghost predicate IsKeyFor(k: string, t: string, root: Node, names: Names) {
    if t in names then k == if IsMetric(names[t]) && names[t].indexes == [] then t + ".0." else t
    else HasColumn(t, root) && k == t + "."
  }

  lemma WalkKeyIs(t: string, root: Node, names: Names, k: string)
    requires WellFormed(root) && NamesTree(names, root) && Classify(t, root, names) != NotFound
    ensures k == WalkKey(t, Classify(t, root, names)) <==> IsKeyFor(k, t, root, names)
  {
    hide IsMetric, Classify, IsColumnOf, WellFormed, NamesTree;
    ClassifyMeans(t, root, names);
    if t !in names {
      var n :| IsColumnOf(n, t, root);
      assert Classify(t, root, names) == Instance(n);
    }
  }

  /** An OID the generator stops at: neither a name of the tree nor below a column. */
  ghost predicate IsUnknown(t: string, root: Node, names: Names) { t !in names && !HasColumn(t, root) }

  /** The keys of the kept OIDs and nothing else; failure exactly at an unknown OID. */
  lemma {:induction false} RootsMean(toWalk: seq<string>, root: Node, names: Names, k: string)
    requires WellFormed(root) && NamesTree(names, root)
    ensures RootsOf(toWalk, root, names) == None <==> exists i :: 0 <= i < |toWalk| && IsUnknown(toWalk[i], root, names)
    ensures RootsOf(toWalk, root, names).Some? ==>
              (k in RootsOf(toWalk, root, names).value.keys
               <==> exists i :: 0 <= i < |toWalk| && IsKeyFor(k, toWalk[i], root, names))
  {
    hide WellFormed, NamesTree, Classify, IsKeyFor, IsUnknown, WalkKey;
    if toWalk != [] {
      var n := |toWalk| - 1;
      var front := toWalk[..n];
      RootsMean(front, root, names, k);
      UnknownIs(toWalk[n], root, names);
      assert forall i :: 0 <= i < n ==> front[i] == toWalk[i];
      if Classify(toWalk[n], root, names) != NotFound { WalkKeyIs(toWalk[n], root, names, k); }
    }
  }

  lemma UnknownIs(t: string, root: Node, names: Names)
    requires WellFormed(root) && NamesTree(names, root)
    ensures Classify(t, root, names) == NotFound <==> IsUnknown(t, root, names)
  {
    hide IsMetric, Classify, WellFormed, NamesTree, IsColumnOf;
    ClassifyMeans(t, root, names);
  }

  /** The instances kept for a node are the rest of the kept OIDs of which it is the column. */
  lemma {:induction false} InstancesMean(toWalk: seq<string>, root: Node, names: Names, o: string, x: string)
    requires WellFormed(root) && NamesTree(names, root) && RootsOf(toWalk, root, names).Some?
    ensures x in InstancesOf(RootsOf(toWalk, root, names).value, o)
            <==> exists i :: 0 <= i < |toWalk| && IsInstanceFor(o, x, toWalk[i], root, names)
  {
    hide WellFormed, NamesTree, Classify, IsInstanceFor, WalkKey, RemoveFirst;
    if toWalk != [] {
      var n := |toWalk| - 1;
      var front := toWalk[..n];
      InstancesMean(front, root, names, o, x);
      assert forall i :: 0 <= i < n ==> front[i] == toWalk[i];
      InstanceAdded(RootsOf(front, root, names).value, toWalk[n], root, names, o, x);
    }
  }

  ghost predicate IsInstanceFor(o: string, x: string, t: string, root: Node, names: Names) {
    t !in names && t == o + x && exists n :: IsColumnOf(n, t, root) && n.oid == o
  }

  lemma InstanceAdded(r: Roots, t: string, root: Node, names: Names, o: string, x: string)
    requires WellFormed(root) && NamesTree(names, root) && Classify(t, root, names) != NotFound
    ensures x in InstancesOf(AddRoot(r, t, Classify(t, root, names)), o)
            <==> x in InstancesOf(r, o) || IsInstanceFor(o, x, t, root, names)
  {
    hide WellFormed, NamesTree, IsColumnOf, IsMetric, Classify, RemoveFirst, WalkKey, Preorder, Deepest;
    var kind := Classify(t, root, names);
    ClassifyMeans(t, root, names);
    if t !in names {
      var n :| IsColumnOf(n, t, root);
      assert kind == Instance(n) && forall m :: IsColumnOf(m, t, root) ==> m == n;
      InstanceSuffix(t, root, names);
      assert n.oid + RemoveFirst(t, n.oid) == t;
      if o == n.oid {
        assert o + x == t <==> x == RemoveFirst(t, n.oid) by {
          if o + x == t { assert x == t[|o|..] && RemoveFirst(t, n.oid) == t[|o|..]; }
        }
      }
    }
  }

  // ---------------------------------------------------------------- the metrics

  /** All index objects of the node are known and of supported types. */
  predicate KnowsIndexes(n: Node, names: Names) {
    forall x :: x in n.indexes ==> x in names && MetricType(names[x].typ).Some?
  }

  function Entries(n: Node, names: Names): (es: seq<IndexMerge.Entry>)
    requires KnowsIndexes(n, names)
    ensures |es| == |n.indexes| && forall k :: 0 <= k < |es| ==> IndexEntry(n, names, k) == Some(es[k])
  {
    seq(|n.indexes|, k requires 0 <= k < |n.indexes| => IndexEntry(n, names, k).value)
  }

  /** Objects that can be read, or at least seen in notifications and indexes. */
  predicate IsReadable(access: string) {
    access == "ACCESS_READONLY" || access == "ACCESS_READWRITE" || access == "ACCESS_CREATE"
        || access == "ACCESS_NOACCESS"
  }

  /** A node that gives a metric: a readable object of a supported type that is not ignored, whose index objects are
      known and can be merged. */
  predicate GivesMetric(n: Node, m: Module, names: Names) {
    && MetricType(n.typ).Some? && IsReadable(n.access) && Sanitize(n.name) !in m.ignored
    && KnowsIndexes(n, names) && IndexMerge.Passes(Entries(n, names), |n.indexes|)
  }

  /** Its metric: the indexes are those that survive the merge, in order. */
  ghost predicate IsMetricFor(metric: Metric, n: Node, names: Names)
    requires KnowsIndexes(n, names)
  {
    var at := IndexMerge.Survivors(Entries(n, names), |n.indexes|);
    && metric.oid == n.oid && Some(metric.typ) == MetricType(n.typ)
    && |metric.labels| == |at| && forall k :: 0 <= k < |at| ==> metric.labels[k] == n.indexes[at[k]]
  }

  lemma KnownIndexes(n: Node, names: Names)
    requires KnowsIndexes(n, names)
    ensures BuildIndexes(n, names, 0, [], "", "") == IndexMerge.MergeFrom([], "", "", Entries(n, names))
  {
    hide IndexEntry;
    BuildIsMerge(n, names, 0, [], "", "", Entries(n, names));
  }

  lemma {:induction false} UnknownIndexes(n: Node, names: Names, k: nat, i: nat, acc: seq<Config.Index>,
                                          prev: string, prev2: string)
    requires k <= i < |n.indexes| && IndexEntry(n, names, i) == None
    ensures !BuildIndexes(n, names, k, acc, prev, prev2).Merged?
    decreases i - k
  {
    hide IndexEntry, IndexMerge.MergeStep;
    if k < i && IndexEntry(n, names, k).Some? {
      var e := IndexEntry(n, names, k).value;
      var step := IndexMerge.MergeStep(acc, prev, prev2, e);
      if step.Merged? { UnknownIndexes(n, names, k + 1, i, step.indexes, e.convention, prev); }
    }
  }

  lemma EntryKnown(n: Node, names: Names, k: nat)
    requires k < |n.indexes|
    ensures IndexEntry(n, names, k).Some? <==> n.indexes[k] in names && MetricType(names[n.indexes[k]].typ).Some?
    ensures IndexEntry(n, names, k).Some? ==> IndexEntry(n, names, k).value.index.labelname == n.indexes[k]
  {
    hide MetricType, IndexType;
  }

  /** An index as the collector will decode it: numbers with names are shown by name, only the last one can be
      implied. */
  lemma EntryMeans(n: Node, names: Names, k: nat)
    requires k < |n.indexes| && IndexEntry(n, names, k).Some?
    ensures var e, node := IndexEntry(n, names, k).value, names[n.indexes[k]];
            && e.convention == node.convention
            && e.index.labelname == n.indexes[k] && e.index.fixedSize == node.fixedSize
            && e.index.enumValues == node.enumValues
            && (e.index.implied <==> n.impliedIndex && k == |n.indexes| - 1)
            && (node.enumValues != map[] && node.typ == "INTEGER" ==> e.index.typ == Config.EnumAsInfo)
            && (node.enumValues == map[] && node.typ == "INTEGER" ==> e.index.typ == Config.Integer)
            && (node.typ == "gauge" ==> e.index.typ == Config.Integer)
            && (node.enumValues == map[] && node.typ == "OCTETSTR" ==> e.index.typ == Config.OctetString)
            && (node.enumValues == map[] && node.typ == "InetAddress" ==> e.index.typ == Config.InetAddress)
  {}

  /** What one node contributes, when the generator survives it. */
  lemma MetricMeans(n: Node, m: Module, names: Names)
    requires MetricOf(n, m, names).Some?
    ensures var one := MetricOf(n, m, names).value;
            if GivesMetric(n, m, names) then |one| == 1 && IsMetricFor(one[0], n, names) else one == []
  {
    assert IsReadable(n.access) == MetricAccess(n.access);
    hide MetricType, MetricAccess, IsReadable, Sanitize, BuildIndexes, IndexEntry, IndexMerge.MergeFrom,
         IndexMerge.Survivors, IndexMerge.Passes;
    forall k | 0 <= k < |n.indexes|
      ensures IndexEntry(n, names, k).Some? <==> n.indexes[k] in names && MetricType(names[n.indexes[k]].typ).Some?
      ensures IndexEntry(n, names, k).Some? ==> IndexEntry(n, names, k).value.index.labelname == n.indexes[k]
    {
      EntryKnown(n, names, k);
    }
    if KnowsIndexes(n, names) {
      KnownIndexes(n, names);
      IndexMerge.MergeOutcome(Entries(n, names));
      IndexMerge.MergedIsSurvivors(Entries(n, names));
    } else {
      var x :| x in n.indexes && !(x in names && MetricType(names[x].typ).Some?);
      var i :| 0 <= i < |n.indexes| && n.indexes[i] == x;
      UnknownIndexes(n, names, 0, i, [], "", "");
    }
  }

  function Gives(m: Module, names: Names): Node -> bool { n => GivesMetric(n, m, names) }

  /** The metrics: one for every node that gives one, in order. */
  lemma {:induction false} MetricsMean(nodes: seq<Node>, m: Module, names: Names) returns (at: seq<nat>)
    requires MetricsOf(nodes, m, names).Some?
    ensures PlacesOf(nodes, Gives(m, names), at)
    ensures var metrics := MetricsOf(nodes, m, names).value;
            && |metrics| == |at|
            && forall k :: 0 <= k < |at| ==>
                    KnowsIndexes(nodes[at[k]], names) && IsMetricFor(metrics[k], nodes[at[k]], names)
  {
    hide MetricOf, IsMetricFor, GivesMetric;
    if nodes == [] {
      at := [];
    } else {
      var n := |nodes| - 1;
      var front := MetricsMean(nodes[..n], m, names);
      MetricMeans(nodes[n], m, names);
      GivesKnows(nodes[n], m, names);
      PlacesNext(nodes, Gives(m, names), front);
      at := front + if Gives(m, names)(nodes[n]) then [n] else [];
      assert forall k :: 0 <= k < |front| ==> nodes[..n][front[k]] == nodes[front[k]];
    }
  }

  lemma GivesKnows(n: Node, m: Module, names: Names)
    ensures GivesMetric(n, m, names) ==> KnowsIndexes(n, names)
  {}

  // ---------------------------------------------------------------- the whole list

  ghost predicate KeyOfLookup(k: string, s: Stages, m: Module, names: Names, pick: Picker) {
    exists j: nat, i: nat :: j < |s.metrics| && i < |m.lookups| && LookupAsks(k, s, m, names, pick, j, i)
  }

  /** The i-th lookup is applied to the j-th metric and has this key in its column. */
  ghost predicate LookupAsks(k: string, s: Stages, m: Module, names: Names, pick: Picker, j: nat, i: nat)
    requires j < |s.metrics| && i < |m.lookups|
  {
    var metric := s.metrics[j];
    AsksFor(metric, m.lookups, i, RequiredAsIndex(m.lookups), InstancesOf(s.roots, metric.oid), names, pick, k)
  }

  ghost predicate KeyOfTypeColumn(k: string, s: Stages, names: Names) {
    exists j: nat :: j < |s.metrics| && TypeColumnHas(k, s.metrics[j], s.roots, names)
  }

  /** The metric is an address with a type column before it, which has this key. */
  ghost predicate TypeColumnHas(k: string, metric: Metric, r: Roots, names: Names) {
    HasTypeColumn(metric, names) && k in ColumnKeys(Oid.PrevOid(metric.oid), InstancesOf(r, metric.oid))
  }

  lemma SiblingsMean(metric: Metric, r: Roots, names: Names, k: string)
    ensures k in SiblingKeys(metric, InstancesOf(r, metric.oid), names) <==> TypeColumnHas(k, metric, r, names)
  {
    hide ColumnKeys;
  }

  lemma {:induction false} AllSiblingsMean(metrics: seq<Metric>, r: Roots, names: Names, k: string)
    ensures k in AllSiblingKeys(metrics, r, names)
            <==> exists j: nat :: j < |metrics| && TypeColumnHas(k, metrics[j], r, names)
  {
    hide SiblingKeys, TypeColumnHas;
    if metrics != [] {
      var n := |metrics| - 1;
      AllSiblingsMean(metrics[..n], r, names, k);
      SiblingsMean(metrics[n], r, names, k);
      assert forall j :: 0 <= j < n ==> metrics[..n][j] == metrics[j];
    }
  }

  ghost predicate SomeAsks(metric: Metric, lookups: seq<Lookup>, r: Roots, names: Names, pick: Picker, k: string) {
    exists i: nat :: i < |lookups|
      && AsksFor(metric, lookups, i, RequiredAsIndex(lookups), InstancesOf(r, metric.oid), names, pick, k)
  }

  lemma {:induction false} LookupKeysMean(metrics: seq<Metric>, lookups: seq<Lookup>, r: Roots, names: Names,
                                          pick: Picker, k: string)
    requires LookupKeys(metrics, lookups, r, names, pick).Some?
    ensures k in LookupKeys(metrics, lookups, r, names, pick).value
            <==> exists j: nat :: j < |metrics| && SomeAsks(metrics[j], lookups, r, names, pick, k)
  {
    hide AskLookups, AsksFor, RequiredAsIndex, InstancesOf, SomeAsks;
    if metrics != [] {
      var n := |metrics| - 1;
      LookupKeysMean(metrics[..n], lookups, r, names, pick, k);
      OneMetricAsks(metrics[n], lookups, r, names, pick, k);
      assert forall j :: 0 <= j < n ==> metrics[..n][j] == metrics[j];
    }
  }

  lemma OneMetricAsks(metric: Metric, lookups: seq<Lookup>, r: Roots, names: Names, pick: Picker, k: string)
    ensures var asked := AskLookups(metric, lookups, RequiredAsIndex(lookups), InstancesOf(r, metric.oid), names, pick);
            asked.Some? ==> (k in asked.value.keys <==> SomeAsks(metric, lookups, r, names, pick, k))
  {
    hide AskLookups, AsksFor, RequiredAsIndex, InstancesOf;
    if AskLookups(metric, lookups, RequiredAsIndex(lookups), InstancesOf(r, metric.oid), names, pick).Some? {
      AskedColumns(metric, lookups, RequiredAsIndex(lookups), InstancesOf(r, metric.oid), names, pick, k);
    }
  }

  /** The list before its reduction has exactly the keys of the kept OIDs, of the columns of applied lookups and of
      the type columns before addresses. */
  lemma NeedExactly(s: Stages, m: Module, root: Node, names: Names, pick: Picker, k: string)
    requires Sane(m, root, names, pick) && AreStages(s, m, root, names, pick)
    ensures Need(m, root, names, pick).Some?
    ensures k in Need(m, root, names, pick).value <==>
              || (exists i :: 0 <= i < |s.toWalk| && IsKeyFor(k, s.toWalk[i], root, names))
              || KeyOfLookup(k, s, m, names, pick)
              || KeyOfTypeColumn(k, s, names)
  {
    hide WellFormed, NamesTree, RootsOf, Resolve, MetricsOf, LookupKeys, AllSiblingKeys, PreorderAll, Preorder, Sweep,
         SortStrings, Need, IsKeyFor, TypeColumnHas, AsksFor, RequiredAsIndex, InstancesOf, IsUnknown;
    RootsMean(s.toWalk, root, names, k);
    LookupKeysMean(s.metrics, m.lookups, s.roots, names, pick, k);
    AllSiblingsMean(s.metrics, s.roots, names, k);
    LookupKeysNamed(s, m, names, pick, k);
  }

  lemma LookupKeysNamed(s: Stages, m: Module, names: Names, pick: Picker, k: string)
    ensures KeyOfLookup(k, s, m, names, pick)
            <==> exists j: nat :: j < |s.metrics| && SomeAsks(s.metrics[j], m.lookups, s.roots, names, pick, k)
  {
    hide AsksFor, RequiredAsIndex, InstancesOf;
    if KeyOfLookup(k, s, m, names, pick) {
      var j: nat, i: nat :| j < |s.metrics| && i < |m.lookups| && LookupAsks(k, s, m, names, pick, j, i);
      assert SomeAsks(s.metrics[j], m.lookups, s.roots, names, pick, k);
    }
    if j: nat :| j < |s.metrics| && SomeAsks(s.metrics[j], m.lookups, s.roots, names, pick, k) {
      var i: nat :| i < |m.lookups|
        && AsksFor(s.metrics[j], m.lookups, i, RequiredAsIndex(m.lookups), InstancesOf(s.roots, s.metrics[j].oid),
                  names, pick, k);
      assert LookupAsks(k, s, m, names, pick, j, i);
    }
  }

  // ---------------------------------------------------------------- when the generator gives up

  /** A configured name that starts with a dot. */
  lemma {:induction false} ResolveMeans(walk: seq<string>, names: Names)
    ensures Resolve(walk, names) == None <==> exists i :: 0 <= i < |walk| && "." <= walk[i]
    ensures Resolve(walk, names).Some? ==>
              var r := Resolve(walk, names).value;
              |r| == |walk| && forall i :: 0 <= i < |walk| ==>
                    r[i] == if walk[i] in names then names[walk[i]].oid else walk[i]
  {
    if walk != [] {
      var n := |walk| - 1;
      ResolveMeans(walk[..n], names);
      assert forall i :: 0 <= i < n ==> walk[..n][i] == walk[i];
    }
  }

  /** A metric whose index list would be cut below zero. */
  predicate Cuts(n: Node, m: Module, names: Names) {
    IsMetric(n) && Sanitize(n.name) !in m.ignored && BuildIndexes(n, names, 0, [], "", "") == IndexMerge.Panics
  }

  lemma CutsMeans(n: Node, m: Module, names: Names)
    requires KnowsIndexes(n, names)
    ensures Cuts(n, m, names) <==>
              IsMetric(n) && Sanitize(n.name) !in m.ignored && IndexMerge.SlicesBelowZero(Entries(n, names))
  {
    hide IsMetric, Sanitize, BuildIndexes, IndexMerge.MergeFrom, IndexMerge.SlicesBelowZero;
    KnownIndexes(n, names);
    IndexMerge.MergeOutcome(Entries(n, names));
  }

  lemma {:induction false} MetricsFail(nodes: seq<Node>, m: Module, names: Names)
    ensures MetricsOf(nodes, m, names) == None <==> exists i :: 0 <= i < |nodes| && Cuts(nodes[i], m, names)
  {
    hide BuildIndexes, IsMetric, Sanitize;
    if nodes != [] {
      var n := |nodes| - 1;
      MetricsFail(nodes[..n], m, names);
      assert forall i :: 0 <= i < n ==> nodes[..n][i] == nodes[i];
      assert MetricOf(nodes[n], m, names) == None <==> Cuts(nodes[n], m, names);
    }
  }

  /** An applied lookup whose column is unknown or has no supported type. */
  ghost predicate LookupFails(metric: Metric, lookups: seq<Lookup>, r: Roots, names: Names, pick: Picker, i: nat)
    requires i < |lookups|
  {
    && Applies(metric, lookups, i, RequiredAsIndex(lookups), InstancesOf(r, metric.oid), names, pick)
    && (lookups[i].lookup !in names || MetricType(Column(metric, lookups, i, pick).typ) == None)
  }

  lemma {:induction false} AskedFails(metric: Metric, lookups: seq<Lookup>, n: nat, required: seq<string>,
                                      instances: seq<string>, names: Names, pick: Picker)
    requires n <= |lookups|
    ensures AskLookups(metric, lookups[..n], required, instances, names, pick) == None
            <==> exists i: nat :: i < n && Applies(metric, lookups, i, required, instances, names, pick)
                   && (lookups[i].lookup !in names || MetricType(Column(metric, lookups, i, pick).typ) == None)
  {
    hide FoundIndexes, MetricType, Sanitize, ColumnKeys;
    if n > 0 {
      AskedFails(metric, lookups, n - 1, required, instances, names, pick);
      assert lookups[..n][..n - 1] == lookups[..n - 1];
    }
  }

  lemma {:induction false} LookupKeysFailExactly(metrics: seq<Metric>, lookups: seq<Lookup>, r: Roots, names: Names,
                                                 pick: Picker)
    ensures LookupKeys(metrics, lookups, r, names, pick) == None
            <==> exists j: nat, i: nat ::
                   j < |metrics| && i < |lookups| && LookupFails(metrics[j], lookups, r, names, pick, i)
  {
    hide AskLookups, LookupFails, RequiredAsIndex, InstancesOf;
    if metrics != [] {
      var n := |metrics| - 1;
      LookupKeysFailExactly(metrics[..n], lookups, r, names, pick);
      assert forall j :: 0 <= j < n ==> metrics[..n][j] == metrics[j];
      MetricFails(metrics[n], lookups, r, names, pick);
    }
  }

  lemma MetricFails(metric: Metric, lookups: seq<Lookup>, r: Roots, names: Names, pick: Picker)
    ensures AskLookups(metric, lookups, RequiredAsIndex(lookups), InstancesOf(r, metric.oid), names, pick) == None
            <==> exists i: nat :: i < |lookups| && LookupFails(metric, lookups, r, names, pick, i)
  {
    hide AskLookups, Applies, RequiredAsIndex, InstancesOf, MetricType;
    var required, instances := RequiredAsIndex(lookups), InstancesOf(r, metric.oid);
    AskedFails(metric, lookups, |lookups|, required, instances, names, pick);
    assert lookups[..|lookups|] == lookups;
    if AskLookups(metric, lookups, required, instances, names, pick) == None {
      var i: nat :| i < |lookups| && Applies(metric, lookups, i, required, instances, names, pick)
        && (lookups[i].lookup !in names || MetricType(Column(metric, lookups, i, pick).typ) == None);
      assert LookupFails(metric, lookups, r, names, pick, i);
    }
    if i: nat :| i < |lookups| && LookupFails(metric, lookups, r, names, pick, i) {
      assert Applies(metric, lookups, i, required, instances, names, pick);
    }
  }

  ghost predicate FailsAtName(m: Module) { exists i :: 0 <= i < |m.walk| && "." <= m.walk[i] }

  ghost predicate FailsAtOid(m: Module, root: Node, names: Names) {
    && Resolve(m.walk, names).Some?
    && var kept := Sweep(SortStrings(Resolve(m.walk, names).value));
       exists i :: 0 <= i < |kept| && IsUnknown(kept[i], root, names)
  }

  function RootsFound(m: Module, root: Node, names: Names): Option<Roots> {
    match Resolve(m.walk, names)
    case None => None
    case Some(resolved) => RootsOf(Sweep(SortStrings(resolved)), root, names)
  }

  ghost predicate FailsAtMetric(m: Module, root: Node, names: Names) {
    && RootsFound(m, root, names).Some?
    && var nodes := PreorderAll(RootsFound(m, root, names).value.nodes);
       exists i :: 0 <= i < |nodes| && Cuts(nodes[i], m, names)
  }

  ghost predicate FailsAtLookup(m: Module, root: Node, names: Names, pick: Picker) {
    && RootsFound(m, root, names).Some?
    && var r := RootsFound(m, root, names).value;
       var metrics := MetricsOf(PreorderAll(r.nodes), m, names);
       && metrics.Some?
       && exists j: nat, i: nat :: j < |metrics.value| && i < |m.lookups|
             && LookupFails(metrics.value[j], m.lookups, r, names, pick, i)
  }

  /** The generator gives up exactly at a name with a leading dot, at a kept OID it does not know, at a metric whose
      index list would be cut below zero, or at an applied lookup whose column it cannot use. */
  lemma NeedFailsExactly(m: Module, root: Node, names: Names, pick: Picker)
    requires WellFormed(root) && NamesTree(names, root)
    ensures Need(m, root, names, pick) == None <==>
              || FailsAtName(m) || FailsAtOid(m, root, names)
              || FailsAtMetric(m, root, names) || FailsAtLookup(m, root, names, pick)
  {
    hide WellFormed, NamesTree, Resolve, RootsOf, MetricsOf, LookupKeys, AllSiblingKeys, PreorderAll, Sweep,
         SortStrings, IsUnknown, Cuts, LookupFails;
    ResolveMeans(m.walk, names);
    if Resolve(m.walk, names).Some? {
      var kept := Sweep(SortStrings(Resolve(m.walk, names).value));
      RootsMean(kept, root, names, "");
      var r := RootsOf(kept, root, names);
      if r.Some? {
        var nodes := PreorderAll(r.value.nodes);
        MetricsFail(nodes, m, names);
        if MetricsOf(nodes, m, names).Some? {
          LookupKeysFailExactly(MetricsOf(nodes, m, names).value, m.lookups, r.value, names, pick);
        }
      }
    }
  }

  // ---------------------------------------------------------------- label names

  /** Sanitising keeps letters, digits and underscores in place and replaces everything else by an underscore. */
  lemma SanitizeMeans(name: string)
    ensures |Sanitize(name)| == |name|
    ensures forall i :: 0 <= i < |name| ==>
              var c := name[i];
              var kept := c == '_' || 'a' <= c <= 'z' || 'A' <= c <= 'Z' || '0' <= c <= '9';
              Sanitize(name)[i] == if kept then c else '_'
  {}

  /** The labels required as indexes are the sources of any lookup. */
  lemma {:induction false} RequiredMeans(lookups: seq<Lookup>, x: string)
    ensures x in RequiredAsIndex(lookups) <==> exists i :: 0 <= i < |lookups| && x in lookups[i].sourceIndexes
  {
    if lookups != [] {
      var n := |lookups| - 1;
      RequiredMeans(lookups[..n], x);
      assert forall i :: 0 <= i < n ==> lookups[..n][i] == lookups[i];
    }
  }
}
