/** generateConfigModule, as far as it decides what is fetched: from the configured OIDs and lookups to gets and walks.
    Static filters are not part of this model. */
module FetchPlan {
  import opened Text
  import opened OidSet
  import opened MibTree
  import Oid
  import Config
  import IndexMerge

  datatype Lookup = Lookup(sourceIndexes: seq<string>, lookup: string)

  datatype Module = Module(walk: seq<string>, lookups: seq<Lookup>, ignored: set<string>)

  /** A metric of the output: its column, its type, and the labels of its indexes. */
  datatype Metric = Metric(oid: string, typ: string, labels: seq<string>)

  /** getIndexNode picks among nodes with one label in the order of a Go map, which is any order. */
  type Picker = (string, string) -> Node

  // ---------------------------------------------------------------- the configured OIDs

  /** The configured names as OIDs; None when one starts with a dot. */
  function Resolve(walk: seq<string>, names: Names): Option<seq<string>> {
    if walk == [] then Some([])
    else
      var n := |walk| - 1;
      match Resolve(walk[..n], names)
      case None => None
      case Some(front) =>
        if "." <= walk[n] then None
        else Some(front + [if walk[n] in names then names[walk[n]].oid else walk[n]])
  }

  method ResolveNames(walk: seq<string>, names: Names) returns (ok: bool, toWalk: seq<string>)
    ensures Resolve(walk, names) == if ok then Some(toWalk) else None
    ensures ok <==> forall i :: 0 <= i < |walk| ==> !("." <= walk[i])
    ensures ok ==> |toWalk| == |walk| && forall i :: 0 <= i < |walk| ==>
                     toWalk[i] == if walk[i] in names then names[walk[i]].oid else walk[i]
  {
    toWalk := [];
    for i := 0 to |walk|
      invariant Resolve(walk[..i], names) == Some(toWalk)
      invariant forall k :: 0 <= k < i ==> !("." <= walk[k])
      invariant |toWalk| == i && forall k :: 0 <= k < i ==>
                toWalk[k] == if walk[k] in names then names[walk[k]].oid else walk[k]
    {
      assert walk[..i + 1][..i] == walk[..i];
      if "." <= walk[i] {
        ResolveFails(walk, names, i + 1);
        return false, toWalk;
      }
      toWalk := toWalk + [if walk[i] in names then names[walk[i]].oid else walk[i]];
    }
    assert walk[..|walk|] == walk;
    ok := true;
  }

  lemma ResolveFails(walk: seq<string>, names: Names, n: nat)
    requires n <= |walk| && Resolve(walk[..n], names) == None
    ensures Resolve(walk, names) == None
  {
    StaysFailed(walk, n, (front: seq<string>) => Resolve(front, names) == None);
  }

  /** What is put on the list for a configured OID; a trailing dot marks a get. */
  function WalkKey(oid: string, kind: Kind): string {
    match kind
    case Instance(_) => oid + "."
    case Scalar(_) => oid + ".0."
    case _ => oid
  }

  /** The outcome of looking at the minimised OIDs one by one. */
  datatype Roots = Roots(keys: set<string>, instances: map<string, seq<string>>, nodes: seq<Node>)

  function InstancesOf(r: Roots, oid: string): seq<string> { if oid in r.instances then r.instances[oid] else [] }

  function AddRoot(r: Roots, oid: string, kind: Kind): Roots
    requires kind != NotFound
  {
    Roots(r.keys + {WalkKey(oid, kind)},
          if kind.Instance? then
            r.instances[kind.node.oid := InstancesOf(r, kind.node.oid) + [RemoveFirst(oid, kind.node.oid)]]
          else r.instances,
          if kind.node in r.nodes then r.nodes else r.nodes + [kind.node])
  }

  function RootsOf(toWalk: seq<string>, root: Node, names: Names): Option<Roots> {
    if toWalk == [] then Some(Roots({}, map[], []))
    else
      var n := |toWalk| - 1;
      match RootsOf(toWalk[..n], root, names)
      case None => None
      case Some(r) =>
        var kind := Classify(toWalk[n], root, names);
        if kind == NotFound then None else Some(AddRoot(r, toWalk[n], kind))
  }

  method FindRoots(toWalk: seq<string>, root: Node, names: Names) returns (r: Option<Roots>)
    ensures r == RootsOf(toWalk, root, names)
  {
    hide Classify;
    var needToWalk: set<string>, tableInstances: map<string, seq<string>>, metricNodes: seq<Node> := {}, map[], [];
    for i := 0 to |toWalk|
      invariant RootsOf(toWalk[..i], root, names) == Some(Roots(needToWalk, tableInstances, metricNodes))
    {
      assert toWalk[..i + 1][..i] == toWalk[..i];
      var oid, kind := toWalk[i], Classify(toWalk[i], root, names);
      match kind {
        case NotFound =>
          StaysFailed(toWalk, i + 1, (front: seq<string>) => RootsOf(front, root, names) == None);
          return None;
        case Subtree(_) =>
          needToWalk := needToWalk + {oid};
        case Instance(n) =>
          needToWalk := needToWalk + {oid + "."};
          var index := RemoveFirst(oid, n.oid);
          var known := if n.oid in tableInstances then tableInstances[n.oid] else [];
          tableInstances := tableInstances[n.oid := known + [index]];
        case Scalar(_) =>
          needToWalk := needToWalk + {oid + ".0."};
      }
      if kind.node !in metricNodes {
        metricNodes := metricNodes + [kind.node];
      }
    }
    assert toWalk[..|toWalk|] == toWalk;
    r := Some(Roots(needToWalk, tableInstances, metricNodes));
  }

  // ---------------------------------------------------------------- the metrics below them

  /** The collector's index type for a metric type. */
  function IndexType(t: string): Config.Type {
    match t
    case "gauge" => Config.Integer
    case "counter" => Config.Integer
    case "PhysAddress48" => Config.PhysAddress48
    case "OctetString" => Config.OctetString
    case "DisplayString" => Config.DisplayString
    case "InetAddressIPv4" => Config.InetAddressIPv4
    case "InetAddressIPv6" => Config.InetAddressIPv6
    case "EnumAsInfo" => Config.EnumAsInfo
    case "InetAddress" => Config.InetAddress
    case "InetAddressMissingSize" => Config.InetAddressMissingSize
    case "LldpPortId" => Config.LldpPortId
    case _ => Config.Other(t)
  }

  /** The k-th index of a table entry; None when its object is unknown or has no supported type. */
  function IndexEntry(n: Node, names: Names, k: nat): Option<IndexMerge.Entry>
    requires k < |n.indexes|
  {
    if n.indexes[k] !in names then None
    else
      var index := names[n.indexes[k]];
      match MetricType(index.typ)
      case None => None
      case Some(t) =>
        var named := index.enumValues != map[] && t != "EnumAsStateSet" && index.typ != "gauge";
        var typ := if named then Config.EnumAsInfo else IndexType(t);
        var implied := n.impliedIndex && k + 1 == |n.indexes|;
        Some(IndexMerge.Entry(Config.Index(n.indexes[k], typ, index.fixedSize, implied, index.enumValues),
                              index.convention))
  }

  /** The index loop, from the k-th index on. */
  function BuildIndexes(n: Node, names: Names, k: nat, acc: seq<Config.Index>, prev: string, prev2: string)
    : IndexMerge.Outcome
    requires k <= |n.indexes|
    decreases |n.indexes| - k
  {
    if k == |n.indexes| then IndexMerge.Merged(acc)
    else match IndexEntry(n, names, k)
      case None => IndexMerge.Dropped
      case Some(e) =>
        match IndexMerge.MergeStep(acc, prev, prev2, e)
        case Merged(next) => BuildIndexes(n, names, k + 1, next, e.convention, prev)
        case other => other
  }

  /** When all index objects are known, the loop is the merge of IndexMerge. */
  lemma {:induction false} BuildIsMerge(n: Node, names: Names, k: nat, acc: seq<Config.Index>, prev: string,
                                        prev2: string, es: seq<IndexMerge.Entry>)
    requires k + |es| == |n.indexes|
    requires forall i :: k <= i < |n.indexes| ==> IndexEntry(n, names, i) == Some(es[i - k])
    ensures BuildIndexes(n, names, k, acc, prev, prev2) == IndexMerge.MergeFrom(acc, prev, prev2, es)
    decreases |es|
  {
    hide IndexEntry, IndexMerge.MergeStep;
    if es != [] {
      assert IndexEntry(n, names, k) == Some(es[0]);
      var step := IndexMerge.MergeStep(acc, prev, prev2, es[0]);
      if step.Merged? {
        BuildIsMerge(n, names, k + 1, step.indexes, es[0].convention, prev, es[1..]);
      }
    }
  }

  function Sanitize(name: string): string {
    Oid.Map((c: char) => if 'a' <= c <= 'z' || 'A' <= c <= 'Z' || '0' <= c <= '9' || c == '_' then c else '_', name)
  }

  function LabelsOf(indexes: seq<Config.Index>): seq<string> { Oid.Map((i: Config.Index) => i.labelname, indexes) }

  /** The metric a node gives rise to: at most one; None when the generator panics. */
  function MetricOf(n: Node, m: Module, names: Names): Option<seq<Metric>> {
    if !IsMetric(n) || Sanitize(n.name) in m.ignored then Some([])
    else match BuildIndexes(n, names, 0, [], "", "")
      case Merged(indexes) => Some([Metric(n.oid, MetricType(n.typ).value, LabelsOf(indexes))])
      case Dropped => Some([])
      case Panics => None
  }

  function MetricsOf(nodes: seq<Node>, m: Module, names: Names): Option<seq<Metric>> {
    if nodes == [] then Some([])
    else
      var n := |nodes| - 1;
      match MetricsOf(nodes[..n], m, names)
      case None => None
      case Some(front) =>
        match MetricOf(nodes[n], m, names)
        case None => None
        case Some(one) => Some(front + one)
  }

  method FindMetrics(nodes: seq<Node>, m: Module, names: Names) returns (r: Option<seq<Metric>>)
    ensures r == MetricsOf(nodes, m, names)
  {
    hide MetricOf;
    var metrics := [];
    for i := 0 to |nodes|
      invariant MetricsOf(nodes[..i], m, names) == Some(metrics)
    {
      assert nodes[..i + 1][..i] == nodes[..i];
      var one := MetricOf(nodes[i], m, names);
      if one == None {
        StaysFailed(nodes, i + 1, (front: seq<Node>) => MetricsOf(front, m, names) == None);
        return None;
      }
      metrics := metrics + one.value;
    }
    assert nodes[..|nodes|] == nodes;
    r := Some(metrics);
  }

  // ---------------------------------------------------------------- lookups

  function CountOf(x: string, s: seq<string>): nat {
    if s == [] then 0 else CountOf(x, s[..|s| - 1]) + (if s[|s| - 1] == x then 1 else 0)
  }

  function FoundIndexes(labels: seq<string>, sources: seq<string>): nat {
    if labels == [] then 0 else FoundIndexes(labels[..|labels| - 1], sources) + CountOf(labels[|labels| - 1], sources)
  }

  /** How often the sources occur among the labels beyond their first time, and how many do not occur. */
  function Surplus(labels: seq<string>, sources: seq<string>): nat {
    if sources == [] then 0
    else
      var n := |sources| - 1;
      var count := CountOf(sources[n], labels);
      Surplus(labels, sources[..n]) + if count > 1 then count - 1 else 0
  }

  function Missing(labels: seq<string>, sources: seq<string>): nat {
    if sources == [] then 0
    else
      var n := |sources| - 1;
      Missing(labels, sources[..n]) + if CountOf(sources[n], labels) == 0 then 1 else 0
  }

  lemma {:induction false} CountIsMembership(x: string, s: seq<string>)
    ensures CountOf(x, s) > 0 <==> x in s
  {
    if s != [] {
      CountIsMembership(x, s[..|s| - 1]);
      assert s == s[..|s| - 1] + [s[|s| - 1]];
    }
  }

  /** The count label by label is the count source by source. */
  lemma {:induction false} FoundMoreSources(labels: seq<string>, sources: seq<string>)
    requires sources != []
    ensures var n := |sources| - 1;
            FoundIndexes(labels, sources) == FoundIndexes(labels, sources[..n]) + CountOf(sources[n], labels)
    decreases |labels|
  {
    if labels != [] { FoundMoreSources(labels[..|labels| - 1], sources); }
  }

  lemma {:induction false} FoundNone(labels: seq<string>)
    ensures FoundIndexes(labels, []) == 0
    decreases |labels|
  {
    if labels != [] { FoundNone(labels[..|labels| - 1]); }
  }

  lemma {:induction false} CountBalance(labels: seq<string>, sources: seq<string>)
    ensures FoundIndexes(labels, sources) + Missing(labels, sources) == |sources| + Surplus(labels, sources)
    decreases |sources|
  {
    if sources == [] {
      FoundNone(labels);
    } else {
      FoundMoreSources(labels, sources);
      CountBalance(labels, sources[..|sources| - 1]);
    }
  }

  predicate AllPresent(labels: seq<string>, sources: seq<string>) { forall x :: x in sources ==> x in labels }

  /** No source occurs twice among the labels. */
  predicate NoneRepeated(labels: seq<string>, sources: seq<string>) {
    forall x :: x in sources ==> CountOf(x, labels) <= 1
  }

  lemma {:induction false} NothingMissing(labels: seq<string>, sources: seq<string>)
    ensures Missing(labels, sources) == 0 <==> AllPresent(labels, sources)
    ensures Surplus(labels, sources) == 0 <==> NoneRepeated(labels, sources)
    decreases |sources|
  {
    if sources != [] {
      var front, last := sources[..|sources| - 1], sources[|sources| - 1];
      NothingMissing(labels, front);
      CountIsMembership(last, labels);
      assert forall x :: x in sources <==> x in front || x == last;
    }
  }

  /** Counting matches decides whether all source indexes are present unless some source is repeated among the labels
      and either none is missing or exactly as many are missing as there are repetitions. */
  lemma LookupAppliesExactly(labels: seq<string>, sources: seq<string>)
    ensures var applied := FoundIndexes(labels, sources) == |sources|;
            var surplus, missing := Surplus(labels, sources), Missing(labels, sources);
            && ((applied <==> AllPresent(labels, sources)) <==> (surplus == 0 || (missing != 0 && missing != surplus)))
            && (NoneRepeated(labels, sources) ==> (applied <==> AllPresent(labels, sources)))
            && (AllPresent(labels, sources) ==> (applied <==> NoneRepeated(labels, sources)))
  {
    CountBalance(labels, sources);
    NothingMissing(labels, sources);
  }

  /** So a repeated label can stand in for a missing one, and can hide that none is missing. */
  lemma RepeatedLabelFoolsCount()
    ensures FoundIndexes(["a", "a"], ["a", "b"]) == 2 && !AllPresent(["a", "a"], ["a", "b"])
    ensures FoundIndexes(["a", "a"], ["a"]) == 2 && AllPresent(["a", "a"], ["a"])
  {
    var labels, one, two := ["a", "a"], ["a"], ["a", "b"];
    assert one[..0] == [] && two[..1] == one && labels[..1] == one;
    assert CountOf("a", one) == 1 && CountOf("b", one) == 0 && CountOf("a", labels) == 2 && CountOf("b", labels) == 0;
    FoundNone(labels);
    FoundMoreSources(labels, one);
    FoundMoreSources(labels, two);
    assert "b" in two && "b" !in labels;
  }

  method CountFound(labels: seq<string>, sources: seq<string>) returns (foundIndexes: nat)
    ensures foundIndexes == FoundIndexes(labels, sources)
  {
    foundIndexes := 0;
    for i := 0 to |labels|
      invariant foundIndexes == FoundIndexes(labels[..i], sources)
    {
      assert labels[..i + 1][..i] == labels[..i];
      ghost var before := foundIndexes;
      for j := 0 to |sources|
        invariant foundIndexes == before + CountOf(labels[i], sources[..j])
      {
        assert sources[..j + 1][..j] == sources[..j];
        if labels[i] == sources[j] {
          foundIndexes := foundIndexes + 1;
        }
      }
      assert sources[..|sources|] == sources;
    }
    assert labels[..|labels|] == labels;
  }

  /** A column of the instances asked for, or the whole column when the metric's whole table is fetched. */
  function ColumnKeys(column: string, instances: seq<string>): set<string> {
    if instances == [] then {column} else set i | 0 <= i < |instances| :: column + instances[i] + "."
  }

  method AddColumn(needToWalk: set<string>, column: string, instances: seq<string>) returns (r: set<string>)
    ensures r == needToWalk + ColumnKeys(column, instances)
  {
    r := needToWalk;
    if instances == [] {
      r := r + {column};
    } else {
      for i := 0 to |instances|
        invariant r == needToWalk + set k | 0 <= k < i :: column + instances[k] + "."
      {
        r := r + {column + instances[i] + "."};
      }
    }
  }

  function RequiredAsIndex(lookups: seq<Lookup>): seq<string> {
    if lookups == [] then [] else RequiredAsIndex(lookups[..|lookups| - 1]) + lookups[|lookups| - 1].sourceIndexes
  }

  /** The lookups' effect on one metric: the columns they ask for, and the labels it has afterwards, since a looked-up
      label can be the source of a later lookup. */
  datatype Asked = Asked(keys: set<string>, labels: seq<string>)

  function AskLookup(a: Asked, metricOid: string, lookup: Lookup, required: seq<string>, instances: seq<string>,
                     names: Names, pick: Picker): Option<Asked> {
    if FoundIndexes(a.labels, lookup.sourceIndexes) != |lookup.sourceIndexes| then Some(a)
    else if lookup.lookup !in names then None
    else
      var node := pick(lookup.lookup, metricOid);
      if MetricType(node.typ) == None then None
      else
        var name := Sanitize(node.name);
        Some(Asked(a.keys + ColumnKeys(node.oid, instances), if name in required then a.labels + [name] else a.labels))
  }

  function AskLookups(metric: Metric, lookups: seq<Lookup>, required: seq<string>, instances: seq<string>,
                      names: Names, pick: Picker): Option<Asked> {
    if lookups == [] then Some(Asked({}, metric.labels))
    else
      var n := |lookups| - 1;
      match AskLookups(metric, lookups[..n], required, instances, names, pick)
      case None => None
      case Some(a) => AskLookup(a, metric.oid, lookups[n], required, instances, names, pick)
  }

  /** The i-th lookup is applied: counting finds its source indexes among the labels the metric has by then. */
  predicate Applies(metric: Metric, lookups: seq<Lookup>, i: nat, required: seq<string>, instances: seq<string>,
                    names: Names, pick: Picker)
    requires i < |lookups|
  {
    var before := AskLookups(metric, lookups[..i], required, instances, names, pick);
    before.Some? && FoundIndexes(before.value.labels, lookups[i].sourceIndexes) == |lookups[i].sourceIndexes|
  }

  /** The column of the i-th lookup. */
  function Column(metric: Metric, lookups: seq<Lookup>, i: nat, pick: Picker): Node
    requires i < |lookups|
  {
    pick(lookups[i].lookup, metric.oid)
  }

  /** The i-th lookup asks for this key. */
  predicate AsksFor(metric: Metric, lookups: seq<Lookup>, i: nat, required: seq<string>, instances: seq<string>,
                    names: Names, pick: Picker, key: string)
    requires i < |lookups|
  {
    Applies(metric, lookups, i, required, instances, names, pick)
    && key in ColumnKeys(Column(metric, lookups, i, pick).oid, instances)
  }

  /** The i-th lookup adds this label, because some lookup has it as a source. */
  predicate AddsLabel(metric: Metric, lookups: seq<Lookup>, i: nat, required: seq<string>, instances: seq<string>,
                      names: Names, pick: Picker, name: string)
    requires i < |lookups|
  {
    Applies(metric, lookups, i, required, instances, names, pick)
    && name == Sanitize(Column(metric, lookups, i, pick).name) && name in required
  }

  ghost predicate SomeAddsLabel(metric: Metric, lookups: seq<Lookup>, required: seq<string>, instances: seq<string>,
                                names: Names, pick: Picker, name: string) {
    exists i: nat :: i < |lookups| && AddsLabel(metric, lookups, i, required, instances, names, pick, name)
  }

  lemma AskInFront(metric: Metric, lookups: seq<Lookup>, i: nat, required: seq<string>, instances: seq<string>,
                   names: Names, pick: Picker, x: string)
    requires i < |lookups| - 1
    ensures Applies(metric, lookups[..|lookups| - 1], i, required, instances, names, pick)
            == Applies(metric, lookups, i, required, instances, names, pick)
    ensures AsksFor(metric, lookups[..|lookups| - 1], i, required, instances, names, pick, x)
            == AsksFor(metric, lookups, i, required, instances, names, pick, x)
    ensures AddsLabel(metric, lookups[..|lookups| - 1], i, required, instances, names, pick, x)
            == AddsLabel(metric, lookups, i, required, instances, names, pick, x)
  {
    hide AskLookups, FoundIndexes, Sanitize, ColumnKeys;
    assert lookups[..|lookups| - 1][..i] == lookups[..i];
  }

  lemma AskLast(metric: Metric, lookups: seq<Lookup>, required: seq<string>, instances: seq<string>, names: Names,
                pick: Picker, x: string)
    requires lookups != [] && AskLookups(metric, lookups, required, instances, names, pick).Some?
    ensures var n := |lookups| - 1;
            var front := AskLookups(metric, lookups[..n], required, instances, names, pick);
            var all := AskLookups(metric, lookups, required, instances, names, pick).value;
            && front.Some?
            && (x in all.keys <==>
                  x in front.value.keys || AsksFor(metric, lookups, n, required, instances, names, pick, x))
            && (x in all.labels <==>
                  x in front.value.labels || AddsLabel(metric, lookups, n, required, instances, names, pick, x))
            && (Applies(metric, lookups, n, required, instances, names, pick) ==> lookups[n].lookup in names)
  {
    hide FoundIndexes, Sanitize, ColumnKeys, MetricType;
  }

  lemma AskNothing(metric: Metric, required: seq<string>, instances: seq<string>, names: Names, pick: Picker)
    ensures AskLookups(metric, [], required, instances, names, pick) == Some(Asked({}, metric.labels))
  {}

  /** What the lookup loop asks for: the columns of exactly the lookups that are applied. The labels it works with are
      the metric's own and those applied lookups add. */
  lemma {:induction false} AskedColumns(metric: Metric, lookups: seq<Lookup>, required: seq<string>,
                                        instances: seq<string>, names: Names, pick: Picker, x: string)
    requires AskLookups(metric, lookups, required, instances, names, pick).Some?
    ensures var a := AskLookups(metric, lookups, required, instances, names, pick).value;
            && (x in a.keys <==>
                  exists i: nat :: i < |lookups| && AsksFor(metric, lookups, i, required, instances, names, pick, x))
            && (x in a.labels <==>
                  x in metric.labels || SomeAddsLabel(metric, lookups, required, instances, names, pick, x))
            && (forall i: nat :: i < |lookups| && Applies(metric, lookups, i, required, instances, names, pick) ==>
                lookups[i].lookup in names)
  {
    hide AskLookups, Applies, AsksFor, AddsLabel;
    if lookups == [] {
      assert AskLookups(metric, lookups, required, instances, names, pick) == Some(Asked({}, metric.labels)) by {
        AskNothing(metric, required, instances, names, pick);
      }
    } else {
      var n := |lookups| - 1;
      AskLast(metric, lookups, required, instances, names, pick, x);
      AskedColumns(metric, lookups[..n], required, instances, names, pick, x);
      forall i: nat | i < n
        ensures Applies(metric, lookups[..n], i, required, instances, names, pick)
                == Applies(metric, lookups, i, required, instances, names, pick)
        ensures AsksFor(metric, lookups[..n], i, required, instances, names, pick, x)
                == AsksFor(metric, lookups, i, required, instances, names, pick, x)
        ensures AddsLabel(metric, lookups[..n], i, required, instances, names, pick, x)
                == AddsLabel(metric, lookups, i, required, instances, names, pick, x)
      {
        AskInFront(metric, lookups, i, required, instances, names, pick, x);
      }
    }
  }

  /** The type object before an address column; addresses are read together with it. */
  function SiblingKeys(metric: Metric, instances: seq<string>, names: Names): set<string> {
    if metric.typ != "InetAddress" && metric.typ != "InetAddressMissingSize" then {}
    else
      var prev := Oid.PrevOid(metric.oid);
      if prev !in names || names[prev].convention != "InetAddressType" then {} else ColumnKeys(prev, instances)
  }

  /** The lookup columns of all metrics; None when a lookup is in error. */
  function LookupKeys(metrics: seq<Metric>, lookups: seq<Lookup>, r: Roots, names: Names, pick: Picker)
    : Option<set<string>>
  {
    if metrics == [] then Some({})
    else
      var n := |metrics| - 1;
      match LookupKeys(metrics[..n], lookups, r, names, pick)
      case None => None
      case Some(front) =>
        match AskLookups(metrics[n], lookups, RequiredAsIndex(lookups), InstancesOf(r, metrics[n].oid), names, pick)
        case None => None
        case Some(a) => Some(front + a.keys)
  }

  function AllSiblingKeys(metrics: seq<Metric>, r: Roots, names: Names): set<string> {
    if metrics == [] then {}
    else
      var n := |metrics| - 1;
      AllSiblingKeys(metrics[..n], r, names) + SiblingKeys(metrics[n], InstancesOf(r, metrics[n].oid), names)
  }

  lemma AskFails(metric: Metric, lookups: seq<Lookup>, required: seq<string>, instances: seq<string>, names: Names,
                 pick: Picker, n: nat)
    requires n <= |lookups| && AskLookups(metric, lookups[..n], required, instances, names, pick) == None
    ensures AskLookups(metric, lookups, required, instances, names, pick) == None
  {
    var failed := (front: seq<Lookup>) => AskLookups(metric, front, required, instances, names, pick) == None;
    StaysFailed(lookups, n, failed);
  }

  /** The lookup loop of one metric. */
  method ApplyLookups(metric: Metric, lookups: seq<Lookup>, requiredAsIndex: seq<string>, instances: seq<string>,
                      names: Names, pick: Picker, need: set<string>) returns (ok: bool, needToWalk: set<string>)
    ensures var a := AskLookups(metric, lookups, requiredAsIndex, instances, names, pick);
            ok == a.Some? && (ok ==> needToWalk == need + a.value.keys)
  {
    hide FoundIndexes, ColumnKeys, Sanitize, MetricType;
    needToWalk := need;
    var labels := metric.labels;
    ghost var keys: set<string> := {};
    for i := 0 to |lookups|
      invariant AskLookups(metric, lookups[..i], requiredAsIndex, instances, names, pick) == Some(Asked(keys, labels))
      invariant needToWalk == need + keys
    {
      assert lookups[..i + 1][..i] == lookups[..i];
      var foundIndexes := CountFound(labels, lookups[i].sourceIndexes);
      if foundIndexes == |lookups[i].sourceIndexes| {
        if lookups[i].lookup !in names || MetricType(pick(lookups[i].lookup, metric.oid).typ) == None {
          AskFails(metric, lookups, requiredAsIndex, instances, names, pick, i + 1);
          return false, needToWalk;
        }
        var indexNode := pick(lookups[i].lookup, metric.oid);
        if Sanitize(indexNode.name) in requiredAsIndex {
          labels := labels + [Sanitize(indexNode.name)];
        }
        needToWalk := AddColumn(needToWalk, indexNode.oid, instances);
        keys := keys + ColumnKeys(indexNode.oid, instances);
      }
    }
    assert lookups[..|lookups|] == lookups;
    ok := true;
  }

  /** The lookup loop over all metrics. */
  method AddLookupKeys(metrics: seq<Metric>, lookups: seq<Lookup>, r: Roots, names: Names, pick: Picker,
                       need: set<string>)
    returns (ok: bool, needToWalk: set<string>)
    ensures var asked := LookupKeys(metrics, lookups, r, names, pick);
            ok == asked.Some? && (ok ==> needToWalk == need + asked.value)
  {
    hide AskLookups, RequiredAsIndex, InstancesOf;
    needToWalk := need;
    var requiredAsIndex := RequiredAsIndex(lookups);
    for i := 0 to |metrics|
      invariant LookupKeys(metrics[..i], lookups, r, names, pick).Some?
      invariant needToWalk == need + LookupKeys(metrics[..i], lookups, r, names, pick).value
    {
      assert metrics[..i + 1][..i] == metrics[..i];
      var instances := InstancesOf(r, metrics[i].oid);
      ok, needToWalk := ApplyLookups(metrics[i], lookups, requiredAsIndex, instances, names, pick, needToWalk);
      if !ok {
        StaysFailed(metrics, i + 1, (front: seq<Metric>) => LookupKeys(front, lookups, r, names, pick) == None);
        return;
      }
    }
    assert metrics[..|metrics|] == metrics;
    ok := true;
  }

  /** The InetAddress loop over all metrics. */
  method AddSiblingKeys(metrics: seq<Metric>, r: Roots, names: Names, need: set<string>)
    returns (needToWalk: set<string>)
    ensures needToWalk == need + AllSiblingKeys(metrics, r, names)
  {
    hide InstancesOf, ColumnKeys;
    needToWalk := need;
    for i := 0 to |metrics|
      invariant needToWalk == need + AllSiblingKeys(metrics[..i], r, names)
    {
      assert metrics[..i + 1][..i] == metrics[..i];
      var metric := metrics[i];
      if metric.typ == "InetAddress" || metric.typ == "InetAddressMissingSize" {
        var prevOid := Oid.PrevOid(metric.oid);
        if prevOid in names && names[prevOid].convention == "InetAddressType" {
          needToWalk := AddColumn(needToWalk, prevOid, InstancesOf(r, metric.oid));
        }
      }
    }
    assert metrics[..|metrics|] == metrics;
  }

  // ---------------------------------------------------------------- gets and walks

  datatype Fetch = Fetch(gets: seq<string>, walks: seq<string>)

  predicate IsGetKey(k: string) { k != [] && k[|k| - 1] == '.' }

  function SplitKeys(keys: seq<string>): Fetch {
    if keys == [] then Fetch([], [])
    else
      var n := |keys| - 1;
      var front := SplitKeys(keys[..n]);
      if IsGetKey(keys[n]) then Fetch(front.gets + [keys[n][..|keys[n]| - 1]], front.walks)
      else Fetch(front.gets, front.walks + [keys[n]])
  }

  /** An enumeration of a set, in any order. */
  ghost predicate Enumerates(order: seq<string>, s: set<string>) {
    (forall x :: x in order <==> x in s) && forall i, j :: 0 <= i < j < |order| ==> order[i] != order[j]
  }

  method Enumerate(s: set<string>) returns (order: seq<string>)
    ensures Enumerates(order, s)
  {
    order := [];
    var left := s;
    while left != {}
      invariant left <= s && Enumerates(order, s - left)
      decreases left
    {
      var x :| x in left;
      order := order + [x];
      left := left - {x};
    }
  }

  /** Everything the configuration asks for, before the final reduction. */
  function Need(m: Module, root: Node, names: Names, pick: Picker): Option<set<string>> {
    match Resolve(m.walk, names)
    case None => None
    case Some(resolved) =>
      match RootsOf(Sweep(SortStrings(resolved)), root, names)
      case None => None
      case Some(r) =>
        match MetricsOf(PreorderAll(r.nodes), m, names)
        case None => None
        case Some(metrics) =>
          match LookupKeys(metrics, m.lookups, r, names, pick)
          case None => None
          case Some(asked) => Some(r.keys + asked + AllSiblingKeys(metrics, r, names))
  }

  method CollectNeed(m: Module, root: Node, names: Names, pick: Picker) returns (ok: bool, needToWalk: set<string>)
    ensures Need(m, root, names, pick) == if ok then Some(needToWalk) else None
  {
    hide Resolve, RootsOf, MetricsOf, LookupKeys, AllSiblingKeys, PreorderAll, Sweep, SortStrings;
    needToWalk := {};
    var toWalk;
    ok, toWalk := ResolveNames(m.walk, names);
    if !ok { return; }
    toWalk := MinimizeOids(toWalk);
    var r := FindRoots(toWalk, root, names);
    if r == None { return false, {}; }
    var metrics := FindMetrics(PreorderAll(r.value.nodes), m, names);
    if metrics == None { return false, {}; }
    ok, needToWalk := AddLookupKeys(metrics.value, m.lookups, r.value, names, pick, r.value.keys);
    if !ok { return; }
    needToWalk := AddSiblingKeys(metrics.value, r.value, names, needToWalk);
  }

  method SeparateKeys(keys: seq<string>) returns (fetch: Fetch)
    ensures fetch == SplitKeys(keys)
  {
    fetch := Fetch([], []);
    for i := 0 to |keys|
      invariant fetch == SplitKeys(keys[..i])
    {
      assert keys[..i + 1][..i] == keys[..i];
      var k := keys[i];
      if IsGetKey(k) {
        fetch := fetch.(gets := fetch.gets + [k[..|k| - 1]]);
      } else {
        fetch := fetch.(walks := fetch.walks + [k]);
      }
    }
    assert keys[..|keys|] == keys;
  }

  /** generateConfigModule: the final plan is the reduced list, split at the trailing dots, whatever order the keys
      come in. */
  method Generate(m: Module, root: Node, names: Names, pick: Picker) returns (ok: bool, fetch: Fetch)
    ensures ok == Need(m, root, names, pick).Some?
    ensures ok ==> var need := Need(m, root, names, pick).value;
                   forall order :: Enumerates(order, need) ==> fetch == SplitKeys(Sweep(SortStrings(order)))
  {
    hide Need, Sweep, SortStrings, SplitKeys, Enumerates, IsMinimized;
    fetch := Fetch([], []);
    var needToWalk;
    ok, needToWalk := CollectNeed(m, root, names, pick);
    if !ok { return; }
    var oids := Enumerate(needToWalk);
    var keys := MinimizeOids(oids);
    fetch := SeparateKeys(keys);
    forall order | Enumerates(order, needToWalk) ensures SortStrings(order) == SortStrings(oids) {
      SortedEnumerationsAgree(order, oids, needToWalk);
    }
  }

  lemma DistinctSorted(s: seq<string>)
    requires Sorted(s) && forall x :: multiset(s)[x] <= 1
    ensures Increasing(s)
  {
    forall i, j | 0 <= i < j < |s| ensures s[i] != s[j] {
      TwoCount(s, i, j);
    }
  }

  lemma TwoCount(s: seq<string>, i: nat, j: nat)
    requires i < j < |s|
    ensures s[i] == s[j] ==> multiset(s)[s[i]] >= 2
  {
    var a, b := s[..j], s[j..];
    assert s == a + b && a[i] == s[i] && b[0] == s[j];
    assert s[i] in multiset(a) && s[j] in multiset(b);
    assert multiset(s)[s[i]] == multiset(a)[s[i]] + multiset(b)[s[i]];
  }

  lemma {:induction false} EnumerationCounts(order: seq<string>, x: string)
    requires forall i, j :: 0 <= i < j < |order| ==> order[i] != order[j]
    ensures multiset(order)[x] <= 1
  {
    if order != [] {
      var front, last := order[..|order| - 1], order[|order| - 1];
      EnumerationCounts(front, x);
      assert order == front + [last];
      assert last !in front;
    }
  }

  lemma SortedEnumerationsAgree(a: seq<string>, b: seq<string>, s: set<string>)
    requires Enumerates(a, s) && Enumerates(b, s)
    ensures SortStrings(a) == SortStrings(b)
  {
    SortStringsSorted(a);
    SortStringsSorted(b);
    forall x ensures multiset(a)[x] <= 1 && multiset(b)[x] <= 1 {
      EnumerationCounts(a, x);
      EnumerationCounts(b, x);
    }
    DistinctSorted(SortStrings(a));
    DistinctSorted(SortStrings(b));
    IncreasingUnique(SortStrings(a), SortStrings(b));
  }
}
