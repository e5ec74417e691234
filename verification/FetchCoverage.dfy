/** What the generated plan is worth: everything asked for is fetched, nothing twice, nothing else. */
module FetchCoverage {
  import opened Text
  import opened OidSet
  import opened MibTree
  import opened FetchPlan
  import Oid

  // ---------------------------------------------------------------- the shape of keys

  /** An OID to walk, or an OID with the dot that marks a get. */
  predicate IsKey(k: string) { IsOid(k) || (IsGetKey(k) && IsOid(k[..|k| - 1])) }

  lemma OidsAreHigh(s: string)
    requires IsKey(s)
    ensures NothingBelowDot(s) && s != []
  {}

  /** Gluing the rest of one OID to another OID. */
  lemma GraftIsOid(a: string, b: string, suffix: string)
    requires IsOid(a + suffix) && IsOid(b) && suffix != [] && suffix[0] == '.'
    ensures IsOid(b + suffix)
  {
    var s, t := a + suffix, b + suffix;
    forall i | |b| <= i < |t| ensures t[i] == s[i - |b| + |a|] {}
    forall i | 0 <= i < |t| ensures IsDigit(t[i]) || t[i] == '.' {
      if i < |b| { assert t[i] == b[i]; }
    }
    forall i | 0 <= i < |t| - 1 ensures !(t[i] == '.' && t[i + 1] == '.') {
      if i < |b| - 1 {
        assert t[i] == b[i] && t[i + 1] == b[i + 1];
      } else if i == |b| - 1 {
        assert t[i] == b[|b| - 1];
      } else {
        assert t[i] == s[i - |b| + |a|] && t[i + 1] == s[i + 1 - |b| + |a|];
      }
    }
  }

  lemma ScalarKey(oid: string)
    requires IsOid(oid)
    ensures IsKey(oid + ".0.")
  {}

  lemma GetKey(oid: string)
    requires IsOid(oid)
    ensures IsKey(oid + ".")
  {}

  /** Index suffixes stored for table instances. */
  ghost predicate IsSuffix(s: string) { s != [] && s[0] == '.' && exists a :: IsOid(a + s) }

  lemma ColumnKeysAreKeys(column: string, instances: seq<string>)
    requires IsOid(column) && forall i :: i in instances ==> IsSuffix(i)
    ensures forall k :: k in ColumnKeys(column, instances) ==> IsKey(k)
  {
    forall i | 0 <= i < |instances| ensures IsKey(column + instances[i] + ".") {
      assert IsSuffix(instances[i]);
      var a :| IsOid(a + instances[i]);
      GraftIsOid(a, column, instances[i]);
      GetKey(column + instances[i]);
    }
  }

  // ---------------------------------------------------------------- every key of the list is one

  /** What the configuration and the MIB tree are assumed to be. */
  ghost predicate Sane(m: Module, root: Node, names: Names, pick: Picker) {
    && WellFormed(root) && NamesTree(names, root)
    && (forall w :: w in m.walk && w !in names ==> IsOid(w))
    && (forall l, o :: l in names ==> pick(l, o) in Preorder(root))
  }

  lemma NodesHaveOids(n: Node, root: Node)
    requires WellFormed(root) && n in Preorder(root)
    ensures IsOid(n.oid)
  {
    SubtreeIsBelow(root, n);
  }

  /** What a configured entry stands for. */
  ghost predicate StandsFor(w: string, o: string, names: Names) {
    IsOid(o) && o == if w in names then names[w].oid else w
  }

  lemma NamedOid(w: string, root: Node, names: Names)
    requires WellFormed(root) && NamesTree(names, root) && (w !in names ==> IsOid(w))
    ensures StandsFor(w, if w in names then names[w].oid else w, names)
  {
    if w in names { NodesHaveOids(names[w], root); }
  }

  lemma {:induction false} ResolvedAreOids(walk: seq<string>, root: Node, names: Names)
    requires WellFormed(root) && NamesTree(names, root) && Resolve(walk, names).Some?
    requires forall w :: w in walk && w !in names ==> IsOid(w)
    ensures |Resolve(walk, names).value| == |walk|
    ensures forall i :: 0 <= i < |walk| ==> StandsFor(walk[i], Resolve(walk, names).value[i], names)
  {
    hide WellFormed, NamesTree, IsOid, StandsFor;
    if walk != [] {
      var n := |walk| - 1;
      var front := walk[..n];
      ResolvedAreOids(front, root, names);
      NamedOid(walk[n], root, names);
      forall i | 0 <= i < n ensures StandsFor(walk[i], Resolve(walk, names).value[i], names) {
        assert StandsFor(front[i], Resolve(front, names).value[i], names);
      }
    }
  }

  ghost predicate GoodRoots(r: Roots, root: Node) {
    && (forall k :: k in r.keys ==> IsKey(k))
    && (forall o, i :: o in r.instances && i in r.instances[o] ==> IsSuffix(i))
    && (forall n :: n in r.nodes ==> n in Preorder(root))
  }

  lemma ClassifiedNode(oid: string, root: Node, names: Names)
    requires WellFormed(root) && NamesTree(names, root) && Classify(oid, root, names) != NotFound
    ensures Classify(oid, root, names).node in Preorder(root)
  {
    hide WellFormed, NamesTree, Preorder, IsMetric, Search;
    if oid in names {
      NamedInTree(oid, root, names);
    } else {
      InstanceSuffix(oid, root, names);
    }
  }

  lemma NamedInTree(k: string, root: Node, names: Names)
    requires NamesTree(names, root) && k in names
    ensures names[k] in Preorder(root)
  {}

  lemma AddRootGood(r: Roots, root: Node, names: Names, oid: string)
    requires WellFormed(root) && NamesTree(names, root) && IsOid(oid) && GoodRoots(r, root)
    requires Classify(oid, root, names) != NotFound
    ensures GoodRoots(AddRoot(r, oid, Classify(oid, root, names)), root)
  {
    hide Classify, WellFormed, NamesTree, IsKey, Preorder, RemoveFirst;
    var kind := Classify(oid, root, names);
    ClassifiedNode(oid, root, names);
    GetKey(oid);
    ScalarKey(oid);
    OidIsKey(oid);
    var index := if kind.Instance? then RemoveFirst(oid, kind.node.oid) else oid;
    if kind.Instance? {
      InstanceSuffix(oid, root, names);
      assert IsSuffix(index);
    }
    InstancesGood(r, oid, kind, index);
  }

  lemma OidIsKey(oid: string)
    requires IsOid(oid)
    ensures IsKey(oid)
  {}

  lemma InstancesGood(r: Roots, oid: string, kind: Kind, index: string)
    requires kind != NotFound && forall o, i :: o in r.instances && i in r.instances[o] ==> IsSuffix(i)
    requires kind.Instance? ==> index == RemoveFirst(oid, kind.node.oid) && IsSuffix(index)
    ensures forall o, i :: o in AddRoot(r, oid, kind).instances && i in AddRoot(r, oid, kind).instances[o] ==>
            IsSuffix(i)
  {}

  /** A minimised OID has been understood and put on the list. */
  ghost predicate RootKept(oid: string, root: Node, names: Names, keys: set<string>) {
    Classify(oid, root, names) != NotFound && WalkKey(oid, Classify(oid, root, names)) in keys
  }

  lemma RootKeptMore(oid: string, root: Node, names: Names, keys: set<string>, more: set<string>)
    requires RootKept(oid, root, names, keys) && keys <= more
    ensures RootKept(oid, root, names, more)
  {}

  lemma RootsStep(toWalk: seq<string>, root: Node, names: Names)
    requires toWalk != [] && RootsOf(toWalk, root, names).Some?
    ensures var n := |toWalk| - 1;
            var front, kind := RootsOf(toWalk[..n], root, names), Classify(toWalk[n], root, names);
            && front.Some? && kind != NotFound
            && RootsOf(toWalk, root, names).value == AddRoot(front.value, toWalk[n], kind)
            && front.value.keys <= RootsOf(toWalk, root, names).value.keys
            && RootKept(toWalk[n], root, names, RootsOf(toWalk, root, names).value.keys)
  {}

  lemma {:induction false} RootsAreGood(toWalk: seq<string>, root: Node, names: Names)
    requires WellFormed(root) && NamesTree(names, root) && forall o :: o in toWalk ==> IsOid(o)
    requires RootsOf(toWalk, root, names).Some?
    ensures GoodRoots(RootsOf(toWalk, root, names).value, root)
    ensures forall i :: 0 <= i < |toWalk| ==> RootKept(toWalk[i], root, names, RootsOf(toWalk, root, names).value.keys)
  {
    hide *;
    if toWalk == [] {
      NoRootsGood(root, names);
    } else {
      var n := |toWalk| - 1;
      var front := toWalk[..n];
      RootsStep(toWalk, root, names);
      RootsAreGood(front, root, names);
      AddRootGood(RootsOf(front, root, names).value, root, names, toWalk[n]);
      var all := RootsOf(toWalk, root, names).value.keys;
      forall i | 0 <= i < n ensures RootKept(toWalk[i], root, names, all) {
        RootKeptMore(front[i], root, names, RootsOf(front, root, names).value.keys, all);
      }
    }
  }

  lemma NoRootsGood(root: Node, names: Names)
    ensures RootsOf([], root, names) == Some(Roots({}, map[], [])) && GoodRoots(Roots({}, map[], []), root)
  {}

  lemma {:induction false} MetricsInTree(nodes: seq<Node>, m: Module, root: Node, names: Names)
    requires WellFormed(root) && MetricsOf(nodes, m, names).Some? && forall n :: n in nodes ==> n in Preorder(root)
    ensures forall k :: k in MetricsOf(nodes, m, names).value ==> IsOid(k.oid)
  {
    hide Preorder, BuildIndexes;
    if nodes != [] {
      var n := |nodes| - 1;
      MetricsInTree(nodes[..n], m, root, names);
      NodesHaveOids(nodes[n], root);
    }
  }

  lemma {:induction false} SubtreeNodesInTree(nodes: seq<Node>, root: Node)
    requires WellFormed(root) && forall n :: n in nodes ==> n in Preorder(root)
    ensures forall n :: n in PreorderAll(nodes) ==> n in Preorder(root)
  {
    forall n | n in PreorderAll(nodes) ensures n in Preorder(root) {
      InPreorderAll(nodes, n);
      var i :| 0 <= i < |nodes| && n in Preorder(nodes[i]);
      PreorderNested(root, nodes[i], n);
    }
  }

  lemma {:induction false} PreorderNested(root: Node, a: Node, b: Node)
    requires a in Preorder(root) && b in Preorder(a)
    ensures b in Preorder(root)
    decreases root
  {
    if a != root {
      InPreorderAll(root.children, a);
      var i :| 0 <= i < |root.children| && a in Preorder(root.children[i]);
      PreorderNested(root.children[i], a, b);
      InPreorderAll(root.children, b);
    }
  }

  lemma {:induction false} AskedAreKeys(metric: Metric, lookups: seq<Lookup>, required: seq<string>,
                                        instances: seq<string>, root: Node, names: Names, pick: Picker)
    requires WellFormed(root) && (forall l, o :: l in names ==> pick(l, o) in Preorder(root))
    requires forall i :: i in instances ==> IsSuffix(i)
    requires AskLookups(metric, lookups, required, instances, names, pick).Some?
    ensures forall k :: k in AskLookups(metric, lookups, required, instances, names, pick).value.keys ==> IsKey(k)
  {
    hide IsKey, IsSuffix, ColumnKeys, FoundIndexes, Sanitize, MetricType, Preorder;
    if lookups != [] {
      var n := |lookups| - 1;
      AskedAreKeys(metric, lookups[..n], required, instances, root, names, pick);
      if lookups[n].lookup in names {
        var node := pick(lookups[n].lookup, metric.oid);
        NodesHaveOids(node, root);
        ColumnKeysAreKeys(node.oid, instances);
      }
    }
  }

  lemma PrevOidIsNoLabel(oid: string)
    requires IsOid(oid)
    ensures !IsLabel(Oid.PrevOid(oid))
  {}

  lemma SiblingsAreKeys(metric: Metric, instances: seq<string>, root: Node, names: Names)
    requires WellFormed(root) && NamesTree(names, root) && IsOid(metric.oid)
    requires forall i :: i in instances ==> IsSuffix(i)
    ensures forall k :: k in SiblingKeys(metric, instances, names) ==> IsKey(k)
  {
    hide IsKey, IsSuffix, ColumnKeys, Preorder;
    var prev := Oid.PrevOid(metric.oid);
    PrevOidIsNoLabel(metric.oid);
    if prev in names {
      NodesHaveOids(names[prev], root);
      ColumnKeysAreKeys(prev, instances);
    }
  }

  // ---------------------------------------------------------------- what is on the list

  lemma {:induction false} LookupKeysAreKeys(metrics: seq<Metric>, lookups: seq<Lookup>, r: Roots, root: Node,
                                             names: Names, pick: Picker)
    requires WellFormed(root) && (forall l, o :: l in names ==> pick(l, o) in Preorder(root)) && GoodRoots(r, root)
    requires LookupKeys(metrics, lookups, r, names, pick).Some?
    ensures forall k :: k in LookupKeys(metrics, lookups, r, names, pick).value ==> IsKey(k)
  {
    hide WellFormed, Preorder, IsKey, AskLookups, IsSuffix;
    if metrics != [] {
      var n := |metrics| - 1;
      LookupKeysAreKeys(metrics[..n], lookups, r, root, names, pick);
      AskedAreKeys(metrics[n], lookups, RequiredAsIndex(lookups), InstancesOf(r, metrics[n].oid), root, names, pick);
    }
  }

  lemma {:induction false} AllSiblingsAreKeys(metrics: seq<Metric>, r: Roots, root: Node, names: Names)
    requires WellFormed(root) && NamesTree(names, root) && GoodRoots(r, root)
    requires forall m :: m in metrics ==> IsOid(m.oid)
    ensures forall k :: k in AllSiblingKeys(metrics, r, names) ==> IsKey(k)
  {
    hide WellFormed, NamesTree, IsKey, IsSuffix, IsOid, SiblingKeys;
    if metrics != [] {
      var n := |metrics| - 1;
      AllSiblingsAreKeys(metrics[..n], r, root, names);
      SiblingsAreKeys(metrics[n], InstancesOf(r, metrics[n].oid), root, names);
    }
  }

  // ---------------------------------------------------------------- metrics and their keys

  /** What the list has for a node found from a configured OID: its subtree, the instance 0 of a metric without
      indexes, or instances of one with indexes. */
  ghost predicate RootListed(r: Roots, n: Node) {
    || (n.oid in r.keys && !IsGetKey(n.oid))
    || (IsMetric(n) && if n.indexes == [] then n.oid + ".0." in r.keys else InstancesOf(r, n.oid) != [])
  }

  ghost predicate RootsListed(r: Roots) {
    && (forall n :: n in r.nodes ==> RootListed(r, n))
    && (forall o, i :: i in InstancesOf(r, o) ==> o + i + "." in r.keys)
  }

  lemma AddRootListed(r: Roots, root: Node, names: Names, oid: string)
    requires WellFormed(root) && NamesTree(names, root) && IsOid(oid) && Classify(oid, root, names) != NotFound
            && RootsListed(r)
    ensures RootsListed(AddRoot(r, oid, Classify(oid, root, names)))
  {
    hide WellFormed, NamesTree, IsMetric, RemoveFirst, Classify;
    var kind := Classify(oid, root, names);
    var next := AddRoot(r, oid, kind);
    NodeOfKind(oid, root, names);
    forall n | n in next.nodes ensures RootListed(next, n) {
      if n != kind.node { assert RootListed(r, n); }
    }
    forall o, i | i in InstancesOf(next, o) ensures o + i + "." in next.keys {
      if i in InstancesOf(r, o) {
        assert o + i + "." in r.keys;
      }
    }
  }

  /** The node a kept OID denotes, and that its key is an OID of that node. */
  lemma NodeOfKind(oid: string, root: Node, names: Names)
    requires WellFormed(root) && NamesTree(names, root) && IsOid(oid) && Classify(oid, root, names) != NotFound
    ensures var kind := Classify(oid, root, names);
            && !IsGetKey(oid)
            && (kind.Subtree? || kind.Scalar? ==> kind.node.oid == oid)
            && (kind.Scalar? ==> IsMetric(kind.node) && kind.node.indexes == [])
            && (kind.Instance? ==> IsMetric(kind.node) && kind.node.indexes != [])
            && (kind.Instance? ==> kind.node.oid + RemoveFirst(oid, kind.node.oid) == oid)
  {
    hide IsMetric, Preorder, WellFormed, Search, RemoveFirst, NamesTree;
    assert !IsGetKey(oid);
    if oid in names {
      NamedByOid(oid, root, names);
    } else {
      InstanceSuffix(oid, root, names);
    }
  }

  lemma NamedByOid(oid: string, root: Node, names: Names)
    requires NamesTree(names, root) && IsOid(oid) && oid in names
    ensures names[oid].oid == oid
  {
    hide Preorder;
    assert !IsLabel(oid);
  }

  lemma {:induction false} RootsAreListed(toWalk: seq<string>, root: Node, names: Names)
    requires WellFormed(root) && NamesTree(names, root) && forall o :: o in toWalk ==> IsOid(o)
    requires RootsOf(toWalk, root, names).Some?
    ensures RootsListed(RootsOf(toWalk, root, names).value)
  {
    hide WellFormed, NamesTree, IsOid, Classify, AddRoot, RootListed;
    if toWalk != [] {
      var n := |toWalk| - 1;
      RootsStep(toWalk, root, names);
      RootsAreListed(toWalk[..n], root, names);
      AddRootListed(RootsOf(toWalk[..n], root, names).value, root, names, toWalk[n]);
    }
  }

  lemma {:induction false} MetricIsNode(nodes: seq<Node>, m: Module, names: Names, j: nat) returns (n: Node)
    requires MetricsOf(nodes, m, names).Some? && j < |MetricsOf(nodes, m, names).value|
    ensures n in nodes && n.oid == MetricsOf(nodes, m, names).value[j].oid
  {
    hide IsMetric, BuildIndexes, Sanitize;
    var k := |nodes| - 1;
    var front := MetricsOf(nodes[..k], m, names).value;
    if j < |front| {
      n := MetricIsNode(nodes[..k], m, names, j);
    } else {
      n := nodes[k];
    }
  }

  /** The stages of a run that did not fail. */
  datatype Stages = Stages(resolved: seq<string>, toWalk: seq<string>, roots: Roots, metrics: seq<Metric>,
      asked: set<string>)

  ghost predicate AreStages(s: Stages, m: Module, root: Node, names: Names, pick: Picker) {
    && Resolve(m.walk, names) == Some(s.resolved)
    && s.toWalk == Sweep(SortStrings(s.resolved))
    && RootsOf(s.toWalk, root, names) == Some(s.roots)
    && MetricsOf(PreorderAll(s.roots.nodes), m, names) == Some(s.metrics)
    && LookupKeys(s.metrics, m.lookups, s.roots, names, pick) == Some(s.asked)
    && Need(m, root, names, pick) == Some(s.roots.keys + s.asked + AllSiblingKeys(s.metrics, s.roots, names))
  }

  lemma StagesExist(m: Module, root: Node, names: Names, pick: Picker) returns (s: Stages)
    requires Need(m, root, names, pick).Some?
    ensures AreStages(s, m, root, names, pick)
  {
    hide Resolve, RootsOf, MetricsOf, LookupKeys, AllSiblingKeys, Sweep, SortStrings, PreorderAll;
    var resolved := Resolve(m.walk, names).value;
    var toWalk := Sweep(SortStrings(resolved));
    var roots := RootsOf(toWalk, root, names).value;
    var metrics := MetricsOf(PreorderAll(roots.nodes), m, names).value;
    s := Stages(resolved, toWalk, roots, metrics, LookupKeys(metrics, m.lookups, roots, names, pick).value);
  }

  lemma SweptAreOids(resolved: seq<string>)
    requires forall o :: o in resolved ==> IsOid(o)
    ensures forall o :: o in Sweep(SortStrings(resolved)) ==> IsOid(o)
    ensures IsMinimized(resolved, Sweep(SortStrings(resolved)))
  {
    hide IsOid, IsMinimized, NothingBelowDot, Outermost;
    SortStringsSorted(resolved);
    forall o | o in resolved ensures NothingBelowDot(o) {
      OidIsKey(o);
      OidsAreHigh(o);
    }
    SweepMinimizes(SortStrings(resolved));
    SameMembersMinimized(SortStrings(resolved), resolved, Sweep(SortStrings(resolved)));
  }

  lemma SameMembersMinimized(a: seq<string>, b: seq<string>, r: seq<string>)
    requires IsMinimized(a, r) && forall x :: x in a <==> x in b
    ensures IsMinimized(b, r)
  {}

  lemma NeedIsKeys(s: Stages, m: Module, root: Node, names: Names, pick: Picker)
    requires Sane(m, root, names, pick) && AreStages(s, m, root, names, pick)
    ensures forall k :: k in Need(m, root, names, pick).value ==> IsKey(k)
    ensures IsMinimized(s.resolved, s.toWalk)
    ensures |s.resolved| == |m.walk| && forall i :: 0 <= i < |m.walk| ==> StandsFor(m.walk[i], s.resolved[i], names)
    ensures forall metric :: metric in s.metrics ==> IsOid(metric.oid)
    ensures forall i :: 0 <= i < |s.toWalk| ==> RootKept(s.toWalk[i], root, names, s.roots.keys)
  {
    hide WellFormed, NamesTree, IsOid, IsKey, Resolve, RootsOf, MetricsOf, LookupKeys, AllSiblingKeys, Sweep,
         SortStrings, PreorderAll, Preorder, Need, IsMinimized, RootKept;
    ResolvedAreOids(m.walk, root, names);
    assert forall o :: o in s.resolved ==> IsOid(o);
    SweptAreOids(s.resolved);
    RootsAreGood(s.toWalk, root, names);
    SubtreeNodesInTree(s.roots.nodes, root);
    MetricsInTree(PreorderAll(s.roots.nodes), m, root, names);
    LookupKeysAreKeys(s.metrics, m.lookups, s.roots, root, names, pick);
    AllSiblingsAreKeys(s.metrics, s.roots, root, names);
  }

  // ---------------------------------------------------------------- the plan fetches it

  /** A get key's OID is fetched by itself or inside a walk; a walk key's whole subtree is inside a walk. */
  ghost predicate Fetched(f: Fetch, k: string) {
    if IsGetKey(k) then k[..|k| - 1] in f.gets || Walked(f, k[..|k| - 1])
    else Walked(f, k)
  }

  ghost predicate Walked(f: Fetch, oid: string) { exists w :: w in f.walks && Covers(w, oid) }

  /** No get lies in a walked subtree, no walk lies in another, and nothing is listed twice. */
  ghost predicate NoOverlap(f: Fetch) {
    && (forall g, w :: g in f.gets && w in f.walks ==> !Covers(w, g))
    && (forall v, w :: v in f.walks && w in f.walks && Covers(v, w) ==> v == w)
    && (forall i, j :: 0 <= i < j < |f.gets| ==> f.gets[i] != f.gets[j])
    && (forall i, j :: 0 <= i < j < |f.walks| ==> f.walks[i] != f.walks[j])
  }

  lemma {:induction false} SplitKeysContents(keys: seq<string>)
    requires forall i, j :: 0 <= i < j < |keys| ==> keys[i] != keys[j]
    ensures var f := SplitKeys(keys);
            && (forall g :: g in f.gets <==> g + "." in keys)
            && (forall w :: w in f.walks <==> w in keys && !IsGetKey(w))
            && (forall i, j :: 0 <= i < j < |f.gets| ==> f.gets[i] != f.gets[j])
            && (forall i, j :: 0 <= i < j < |f.walks| ==> f.walks[i] != f.walks[j])
  {
    if keys != [] {
      var n := |keys| - 1;
      var front, last := keys[..n], keys[n];
      SplitKeysContents(front);
      assert keys == front + [last] && last !in front;
      var f := SplitKeys(keys);
      if IsGetKey(last) {
        assert last[..|last| - 1] + "." == last;
        forall g ensures g in f.gets <==> g + "." in keys {
          assert (g + ".")[..|g|] == g;
          assert g + "." == last <==> g == last[..|last| - 1];
        }
      } else {
        forall g ensures g + "." != last { assert IsGetKey(g + "."); }
      }
    }
  }

  /** Among keys, only a walk key covers anything but itself. */
  lemma CoveringKey(c: string, k: string)
    requires IsKey(c) && IsKey(k) && Covers(c, k) && c != k
    ensures !IsGetKey(c)
    ensures IsGetKey(k) ==> Covers(c, k[..|k| - 1])
  {
    CoversMeans(c, k);
    assert c + "." <= k;
    if IsGetKey(c) {
      assert k[|c| - 1] == (c + ".")[|c| - 1] == '.' && k[|c|] == (c + ".")[|c|] == '.';
      NoDoubleDot(k, |c| - 1);
    }
    if IsGetKey(k) {
      var x := k[..|k| - 1];
      assert x + "." == k;
      assert c + "." <= x + ".";
    }
  }

  lemma NoDoubleDot(k: string, i: nat)
    requires IsKey(k) && i + 1 < |k|
    ensures !(k[i] == '.' && k[i + 1] == '.')
  {}

  lemma EveryKeyFetched(need: seq<string>, kept: seq<string>, f: Fetch, k: string)
    requires IsMinimized(need, kept) && f == SplitKeys(kept) && k in need && forall x :: x in need ==> IsKey(x)
    ensures Fetched(f, k)
  {
    hide IsKey, Covers, SplitKeys;
    SplitKeysContents(kept);
    MinimizedCovers(need, kept, k);
    var c :| c in kept && Covers(c, k);
    assert Outermost(need, c);
    if c == k {
      KeptIsFetched(kept, f, k);
    } else {
      CoveringKey(c, k);
      assert c in f.walks;
    }
  }

  lemma KeptIsFetched(kept: seq<string>, f: Fetch, k: string)
    requires k in kept
    requires (forall g :: g in f.gets <==> g + "." in kept) && (forall w :: w in f.walks <==> w in kept && !IsGetKey(w))
    ensures Fetched(f, k)
  {
    if IsGetKey(k) {
      assert k[..|k| - 1] + "." == k;
    } else {
      CoversItself(k);
    }
  }

  lemma CoversGetToo(w: string, g: string)
    ensures Covers(w, g) ==> Covers(w, g + ".")
  {}

  lemma PlanHasNoOverlap(need: seq<string>, kept: seq<string>, f: Fetch)
    requires IsMinimized(need, kept) && f == SplitKeys(kept) && forall x :: x in need ==> IsKey(x)
    ensures NoOverlap(f)
  {
    SplitKeysContents(kept);
    forall g, w | g in f.gets && w in f.walks ensures !Covers(w, g) {
      assert Outermost(need, g + ".") && IsGetKey(g + ".") && w in need;
      CoversGetToo(w, g);
    }
    forall v, w | v in f.walks && w in f.walks && Covers(v, w) ensures v == w {
      assert Outermost(need, w) && v in need;
    }
  }

  /** The generated plan fetches every key on the list, has no overlap, and asks for nothing that is not on the list. */
  lemma PlanIsExact(m: Module, root: Node, names: Names, pick: Picker, order: seq<string>, f: Fetch)
    requires Sane(m, root, names, pick) && Need(m, root, names, pick).Some?
    requires Enumerates(order, Need(m, root, names, pick).value) && f == SplitKeys(Sweep(SortStrings(order)))
    ensures forall k :: k in Need(m, root, names, pick).value ==> Fetched(f, k)
    ensures NoOverlap(f)
    ensures forall g :: g in f.gets ==> g + "." in Need(m, root, names, pick).value
    ensures forall w :: w in f.walks ==> w in Need(m, root, names, pick).value && !IsGetKey(w)
  {
    hide Need, AreStages, Sane, IsKey, Fetched, NoOverlap, SplitKeys, Sweep, SortStrings;
    var s := StagesExist(m, root, names, pick);
    NeedIsKeys(s, m, root, names, pick);
    var need := Need(m, root, names, pick).value;
    var kept := Sweep(SortStrings(order));
    KeysMinimized(order);
    forall k | k in need ensures Fetched(f, k) { EveryKeyFetched(order, kept, f, k); }
    PlanHasNoOverlap(order, kept, f);
    SplitKeysContents(kept);
    assert forall x :: x in kept ==> x in order;
  }

  /** The list has this OID itself, or a subtree it is in. */
  ghost predicate AskedFor(need: set<string>, oid: string) {
    oid + "." in need || exists w :: w in need && !IsGetKey(w) && Covers(w, oid)
  }

  /** An OID is fetched exactly when it is asked for. */
  lemma FetchedExactly(m: Module, root: Node, names: Names, pick: Picker, order: seq<string>, f: Fetch, oid: string)
    requires Sane(m, root, names, pick) && Need(m, root, names, pick).Some?
    requires Enumerates(order, Need(m, root, names, pick).value) && f == SplitKeys(Sweep(SortStrings(order)))
    ensures oid in f.gets || Walked(f, oid) <==> AskedFor(Need(m, root, names, pick).value, oid)
  {
    hide Sane, Need, Enumerates, SplitKeys, Sweep, SortStrings, NoOverlap, Covers;
    var need := Need(m, root, names, pick).value;
    PlanIsExact(m, root, names, pick, order, f);
    if oid + "." in need {
      assert Fetched(f, oid + ".");
      assert (oid + ".")[..|oid|] == oid;
    } else if AskedFor(need, oid) {
      var w :| w in need && !IsGetKey(w) && Covers(w, oid);
      assert Fetched(f, w);
      var v :| v in f.walks && Covers(v, w);
      CoversTransitive(v, w, oid);
    }
  }

  lemma KeysMinimized(order: seq<string>)
    requires forall k :: k in order ==> IsKey(k)
    ensures IsMinimized(order, Sweep(SortStrings(order)))
  {
    SortStringsSorted(order);
    forall k | k in order ensures NothingBelowDot(k) { OidsAreHigh(k); }
    SweepMinimizes(SortStrings(order));
    SameMembersMinimized(SortStrings(order), order, Sweep(SortStrings(order)));
  }

  /** The kept OID at or above a configured one, and its key on the list. */
  lemma RootOfEntry(m: Module, root: Node, names: Names, pick: Picker, i: nat) returns (o: string, t: string)
    requires Sane(m, root, names, pick) && Need(m, root, names, pick).Some? && i < |m.walk|
    ensures StandsFor(m.walk[i], o, names) && Covers(t, o) && IsOid(t)
    ensures RootKept(t, root, names, Need(m, root, names, pick).value)
  {
    hide Need, Sane, IsKey, Sweep, SortStrings, Resolve, RootsOf, MetricsOf, LookupKeys, WellFormed, NamesTree, IsOid,
         IsMinimized, AllSiblingKeys, Covers, StandsFor, Outermost;
    var s := StagesExist(m, root, names, pick);
    NeedIsKeys(s, m, root, names, pick);
    o := s.resolved[i];
    assert StandsFor(m.walk[i], o, names);
    MinimizedCovers(s.resolved, s.toWalk, o);
    t :| t in s.toWalk && Covers(t, o);
    assert RootKept(t, root, names, s.roots.keys);
    KeptIsOid(m, root, names, s.resolved, s.toWalk, t);
  }

  lemma KeptIsOid(m: Module, root: Node, names: Names, resolved: seq<string>, toWalk: seq<string>, t: string)
    requires |resolved| == |m.walk| && forall i :: 0 <= i < |m.walk| ==> StandsFor(m.walk[i], resolved[i], names)
    requires IsMinimized(resolved, toWalk) && t in toWalk
    ensures IsOid(t)
  {}

  /** Configured OIDs are fetched: each is at or below a kept one; a subtree is walked as a whole, a table instance is
      fetched at its own OID, a scalar at instance 0. */
  lemma ConfiguredIsFetched(m: Module, root: Node, names: Names, pick: Picker, order: seq<string>, f: Fetch, i: nat)
    returns (o: string, t: string)
    requires Sane(m, root, names, pick) && Need(m, root, names, pick).Some? && i < |m.walk|
    requires Enumerates(order, Need(m, root, names, pick).value) && f == SplitKeys(Sweep(SortStrings(order)))
    ensures StandsFor(m.walk[i], o, names) && Covers(t, o)
    ensures if t in names then
              names[t].oid == t
              && if IsMetric(names[t]) && names[t].indexes == [] then t + ".0" in f.gets || Walked(f, t + ".0")
                 else Walked(f, o)
            else HasColumn(t, root) && (t in f.gets || Walked(f, t))
  {
    hide HasColumn, IsMetric, WellFormed, NamesTree, Need, Sane, SplitKeys, Sweep, SortStrings, Classify, Enumerates,
         NoOverlap, Covers, StandsFor, Fetched;
    o, t := RootOfEntry(m, root, names, pick, i);
    PlanIsExact(m, root, names, pick, order, f);
    KeyMeaning(f, t, Classify(t, root, names), o);
    SaneTree(m, root, names, pick);
    KeptMeans(t, root, names);
  }

  lemma SaneTree(m: Module, root: Node, names: Names, pick: Picker)
    requires Sane(m, root, names, pick)
    ensures WellFormed(root) && NamesTree(names, root)
  {}

  /** A kept OID in terms of the tree. */
  lemma KeptMeans(t: string, root: Node, names: Names)
    requires WellFormed(root) && NamesTree(names, root) && IsOid(t) && Classify(t, root, names) != NotFound
    ensures var kind := Classify(t, root, names);
            if t in names then
              && names[t].oid == t
              && (IsMetric(names[t]) && names[t].indexes == [] <==> kind.Scalar?)
              && (!(IsMetric(names[t]) && names[t].indexes == []) <==> kind.Subtree?)
            else kind.Instance? && HasColumn(t, root)
  {
    hide IsMetric, WellFormed, Classify, IsColumnOf;
    ClassifyMeans(t, root, names);
    if t in names {
      NamedByOid(t, root, names);
    } else {
      assert HasColumn(t, root);
      var n :| IsColumnOf(n, t, root);
    }
  }

  lemma KeyMeaning(f: Fetch, t: string, kind: Kind, o: string)
    requires kind != NotFound && Fetched(f, WalkKey(t, kind)) && Covers(t, o)
    requires kind.Subtree? ==> !IsGetKey(t)
    ensures match kind
            case NotFound => false
            case Subtree(_) => Walked(f, o)
            case Instance(_) => t in f.gets || Walked(f, t)
            case Scalar(_) => t + ".0" in f.gets || Walked(f, t + ".0")
  {
    match kind
    case Subtree(_) =>
      var w :| w in f.walks && Covers(w, t);
      CoversTransitive(w, t, o);
    case Instance(_) =>
      assert (t + ".")[..|t|] == t;
    case Scalar(_) =>
      assert (t + ".0.")[..|t + ".0"|] == t + ".0";
  }

  /** A metric's variables are fetched: all of them, or instance 0 of a metric without indexes, or the instances
      asked for of one with indexes. */
  ghost predicate MetricFetched(f: Fetch, n: Node, instances: seq<string>) {
    || Walked(f, n.oid)
    || (n.indexes == [] && (n.oid + ".0" in f.gets || Walked(f, n.oid + ".0")))
    || (n.indexes != [] && instances != [] && forall i :: i in instances ==>
            n.oid + i in f.gets || Walked(f, n.oid + i))
  }

  /** The OID is properly below a metric that was kept. */
  ghost predicate BelowMetric(r: Roots, oid: string) {
    exists k :: 0 <= k < |r.nodes| && IsMetric(r.nodes[k]) && r.nodes[k].oid != oid && Covers(r.nodes[k].oid, oid)
  }

  /** Every metric of the module is fetched, unless it lies below another metric: the configuration then named a
      scalar or an instance of that one, and only that is fetched. (Scalars and columns of well-formed MIBs have nothing
      below.) */
  lemma MetricsAreFetched(m: Module, root: Node, names: Names, pick: Picker, order: seq<string>, f: Fetch,
                          s: Stages, j: nat)
    requires Sane(m, root, names, pick) && AreStages(s, m, root, names, pick) && j < |s.metrics|
    requires Enumerates(order, Need(m, root, names, pick).value) && f == SplitKeys(Sweep(SortStrings(order)))
    ensures var oid := s.metrics[j].oid;
            && oid in names && names[oid].oid == oid
            && (MetricFetched(f, names[oid], InstancesOf(s.roots, oid)) || BelowMetric(s.roots, oid))
  {
    hide Sane, Need, Enumerates, SplitKeys, Sweep, SortStrings, MetricFetched, BelowMetric, RootsListed, Resolve,
         RootsOf, MetricsOf, LookupKeys, AllSiblingKeys, PreorderAll, Fetched, NoOverlap, Covers;
    PlanIsExact(m, root, names, pick, order, f);
    var n, k := RootAbove(m, root, names, pick, s, j);
    FetchedBelow(f, s.roots, n, k, Need(m, root, names, pick).value);
  }

  lemma RootAbove(m: Module, root: Node, names: Names, pick: Picker, s: Stages, j: nat) returns (n: Node, k: Node)
    requires Sane(m, root, names, pick) && AreStages(s, m, root, names, pick) && j < |s.metrics|
    ensures n in s.roots.nodes && Covers(n.oid, s.metrics[j].oid) && RootsListed(s.roots)
    ensures k.oid == s.metrics[j].oid && k.oid in names && names[k.oid] == k && (n.oid == k.oid ==> n == k)
    ensures s.roots.keys <= Need(m, root, names, pick).value
  {
    hide IsOid, IsKey, Resolve, RootsOf, MetricsOf, LookupKeys, AllSiblingKeys, Sweep, SortStrings, WellFormed,
         NamesTree, PreorderAll, Preorder, Need, Covers, RootListed, RootsListed, IsMinimized, RootKept;
    k := MetricIsNode(PreorderAll(s.roots.nodes), m, names, j);
    InPreorderAll(s.roots.nodes, k);
    var i :| 0 <= i < |s.roots.nodes| && k in Preorder(s.roots.nodes[i]);
    n := s.roots.nodes[i];
    ResolvedAreOids(m.walk, root, names);
    assert forall o :: o in s.resolved ==> IsOid(o);
    SweptAreOids(s.resolved);
    RootsAreListed(s.toWalk, root, names);
    RootsAreGood(s.toWalk, root, names);
    assert GoodRoots(s.roots, root);
    SubtreeIsBelow(root, n);
    SubtreeIsBelow(n, k);
    PreorderNested(root, n, k);
    InNames(n, root, names);
    InNames(k, root, names);
  }

  lemma InNames(n: Node, root: Node, names: Names)
    requires NamesTree(names, root) && n in Preorder(root)
    ensures n.oid in names && names[n.oid] == n
  {}

  lemma FetchedBelow(f: Fetch, r: Roots, n: Node, k: Node, need: set<string>)
    requires RootsListed(r) && n in r.nodes && Covers(n.oid, k.oid) && r.keys <= need && (n.oid == k.oid ==> n == k)
    requires forall x :: x in need ==> Fetched(f, x)
    ensures MetricFetched(f, k, InstancesOf(r, k.oid)) || BelowMetric(r, k.oid)
  {
    hide Covers, IsMetric;
    assert RootListed(r, n);
    var oid := k.oid;
    if n.oid in r.keys && !IsGetKey(n.oid) {
      assert Fetched(f, n.oid);
      var w :| w in f.walks && Covers(w, n.oid);
      CoversTransitive(w, n.oid, oid);
    } else if n == k {
      if n.indexes == [] {
        assert Fetched(f, oid + ".0.");
        assert (oid + ".0.")[..|oid + ".0"|] == oid + ".0";
      } else {
        forall i | i in InstancesOf(r, oid) ensures oid + i in f.gets || Walked(f, oid + i) {
          assert Fetched(f, oid + i + ".");
          assert (oid + i + ".")[..|oid + i|] == oid + i;
        }
      }
    }
  }

  /** A column is fetched for the instances asked for, or walked as a whole when there are none. */
  ghost predicate ColumnFetched(f: Fetch, column: string, instances: seq<string>) {
    if instances == [] then Walked(f, column)
    else forall i :: i in instances ==> column + i in f.gets || Walked(f, column + i)
  }

  lemma KeysFetchColumn(f: Fetch, column: string, instances: seq<string>)
    requires IsOid(column) && forall k :: k in ColumnKeys(column, instances) ==> Fetched(f, k)
    ensures ColumnFetched(f, column, instances)
  {
    hide Walked;
    if instances == [] {
      assert column in ColumnKeys(column, instances) && Fetched(f, column) && !IsGetKey(column);
    } else {
      forall i | i in instances ensures column + i in f.gets || Walked(f, column + i) {
        var n :| 0 <= n < |instances| && instances[n] == i;
        var k := column + instances[n] + ".";
        assert k in ColumnKeys(column, instances) && Fetched(f, k);
        assert k[..|k| - 1] == column + i;
      }
    }
  }

  /** An address column whose previous column holds address types. */
  predicate HasTypeColumn(metric: Metric, names: Names) {
    var prev := Oid.PrevOid(metric.oid);
    && (metric.typ == "InetAddress" || metric.typ == "InetAddressMissingSize")
    && prev in names && names[prev].convention == "InetAddressType"
  }

  /** Every metric's lookups and its address type are fetched: the column of each lookup that is applied, and the type
      column before an address, at the metric's configured instances or as a whole. */
  lemma LookupsAreFetched(m: Module, root: Node, names: Names, pick: Picker, order: seq<string>, f: Fetch,
                          s: Stages, j: nat)
    requires Sane(m, root, names, pick) && AreStages(s, m, root, names, pick) && j < |s.metrics|
    requires Enumerates(order, Need(m, root, names, pick).value) && f == SplitKeys(Sweep(SortStrings(order)))
    ensures var metric := s.metrics[j];
            var instances, required := InstancesOf(s.roots, metric.oid), RequiredAsIndex(m.lookups);
            && (forall i: nat :: i < |m.lookups| && Applies(metric, m.lookups, i, required, instances, names, pick) ==>
                  ColumnFetched(f, Column(metric, m.lookups, i, pick).oid, instances))
            && (HasTypeColumn(metric, names) ==> ColumnFetched(f, Oid.PrevOid(metric.oid), instances))
  {
    hide Need, Applies, Column, ColumnFetched, SiblingKeys, HasTypeColumn, IsOid, WellFormed, NamesTree, Preorder,
         Fetched, NoOverlap, SplitKeys, Sweep, SortStrings, Resolve, RootsOf, MetricsOf, LookupKeys, AllSiblingKeys,
         PreorderAll, InstancesOf, Enumerates, IsKey, RequiredAsIndex, RootKept, IsMinimized, StandsFor;
    var metric, required := s.metrics[j], RequiredAsIndex(m.lookups);
    var instances := InstancesOf(s.roots, metric.oid);
    PlanIsExact(m, root, names, pick, order, f);
    MetricKeysListed(s.metrics, m.lookups, s.roots, names, pick, j);
    NeedIsKeys(s, m, root, names, pick);
    var need := Need(m, root, names, pick).value;
    forall i: nat | i < |m.lookups| && Applies(metric, m.lookups, i, required, instances, names, pick)
      ensures ColumnFetched(f, Column(metric, m.lookups, i, pick).oid, instances)
    {
      ColumnIsListed(metric, m.lookups, i, required, instances, root, names, pick);
      KeysFetchColumn(f, Column(metric, m.lookups, i, pick).oid, instances);
    }
    if HasTypeColumn(metric, names) {
      SiblingIsListed(metric, instances, root, names);
      KeysFetchColumn(f, Oid.PrevOid(metric.oid), instances);
    }
  }

  lemma ColumnIsListed(metric: Metric, lookups: seq<Lookup>, i: nat, required: seq<string>, instances: seq<string>,
                       root: Node, names: Names, pick: Picker)
    requires WellFormed(root) && (forall l, o :: l in names ==> pick(l, o) in Preorder(root)) && i < |lookups|
    requires AskLookups(metric, lookups, required, instances, names, pick).Some?
    requires Applies(metric, lookups, i, required, instances, names, pick)
    ensures IsOid(Column(metric, lookups, i, pick).oid)
    ensures var asked := AskLookups(metric, lookups, required, instances, names, pick).value.keys;
            ColumnKeys(Column(metric, lookups, i, pick).oid, instances) <= asked
  {
    hide AskLookups, ColumnKeys, Applies, Preorder, WellFormed;
    AskedColumns(metric, lookups, required, instances, names, pick, "");
    NodesHaveOids(Column(metric, lookups, i, pick), root);
    forall k | k in ColumnKeys(Column(metric, lookups, i, pick).oid, instances)
      ensures k in AskLookups(metric, lookups, required, instances, names, pick).value.keys
    {
      AskedColumns(metric, lookups, required, instances, names, pick, k);
      assert AsksFor(metric, lookups, i, required, instances, names, pick, k);
    }
  }

  lemma SiblingIsListed(metric: Metric, instances: seq<string>, root: Node, names: Names)
    requires WellFormed(root) && NamesTree(names, root) && IsOid(metric.oid)
    requires HasTypeColumn(metric, names)
    ensures var prev := Oid.PrevOid(metric.oid);
            IsOid(prev) && ColumnKeys(prev, instances) == SiblingKeys(metric, instances, names)
  {
    hide ColumnKeys, Preorder, WellFormed, IsOid;
    var prev := Oid.PrevOid(metric.oid);
    PrevOidIsNoLabel(metric.oid);
    NodesHaveOids(names[prev], root);
  }

  lemma {:induction false} MetricKeysListed(metrics: seq<Metric>, lookups: seq<Lookup>, r: Roots, names: Names,
                                            pick: Picker, j: nat)
    requires j < |metrics| && LookupKeys(metrics, lookups, r, names, pick).Some?
    ensures var instances := InstancesOf(r, metrics[j].oid);
            var asked := AskLookups(metrics[j], lookups, RequiredAsIndex(lookups), instances, names, pick);
            && asked.Some? && asked.value.keys <= LookupKeys(metrics, lookups, r, names, pick).value
            && SiblingKeys(metrics[j], instances, names) <= AllSiblingKeys(metrics, r, names)
  {
    hide AskLookups, SiblingKeys;
    var n := |metrics| - 1;
    if j < n {
      MetricKeysListed(metrics[..n], lookups, r, names, pick, j);
    }
  }

  /** The assumptions can be met: configuring the one scalar of a small tree plans a get of its instance 0. */
  lemma ScalarPlan() returns (m: Module, root: Node, names: Names, pick: Picker)
    ensures Sane(m, root, names, pick) && Need(m, root, names, pick) == Some({"1.3.0."})
  {
    root, names := SMALL_TREE, SMALL_NAMES;
    m := Module(["sysUpTime"], [], {});
    pick := (l: string, o: string) => SMALL_SCALAR;
    SmallTreeIsSane(m, pick);
    SmallNeed(m, pick);
  }

  const SMALL_SCALAR := Node("1.3", "sysUpTime", "TIMETICKS", "ACCESS_READONLY", "", 0, map[], [], false, [])
  const SMALL_TREE := Node("1", "iso", "OTHER", "ACCESS_UNKNOWN", "", 0, map[], [], false, [SMALL_SCALAR])
  const SMALL_NAMES: Names := map["1" := SMALL_TREE, "iso" := SMALL_TREE, "1.3" := SMALL_SCALAR,
      "sysUpTime" := SMALL_SCALAR]

  lemma SmallTreeIsSane(m: Module, pick: Picker)
    requires m.walk == ["sysUpTime"] && forall l, o :: pick(l, o) == SMALL_SCALAR
    ensures Sane(m, SMALL_TREE, SMALL_NAMES, pick)
  {
    SmallTreeIsWellFormed();
    SmallNodes();
    hide WellFormed, Preorder, IsOid;
    assert forall n :: n in Preorder(SMALL_TREE) <==> n == SMALL_TREE || n == SMALL_SCALAR;
    assert NamesTree(SMALL_NAMES, SMALL_TREE);
  }

  lemma SmallTreeIsWellFormed()
    ensures WellFormed(SMALL_TREE)
  {
    assert AllDigits("3") && "1.3"[..2] == "1." && "1.3"[2..] == "3";
  }

  lemma SmallNodes()
    ensures Preorder(SMALL_TREE) == [SMALL_TREE, SMALL_SCALAR]
  {
    assert Preorder(SMALL_SCALAR) == [SMALL_SCALAR];
    assert PreorderAll([SMALL_SCALAR]) == [SMALL_SCALAR];
  }

  lemma SmallNeed(m: Module, pick: Picker)
    requires m == Module(["sysUpTime"], [], {})
    ensures Need(m, SMALL_TREE, SMALL_NAMES, pick) == Some({"1.3.0."})
  {
    SmallResolved(m);
    SmallRoots();
    var r, metrics := Roots({"1.3.0."}, map[], [SMALL_SCALAR]), [Metric("1.3", "gauge", [])];
    SmallMetrics(m);
    NoLookupsNoKeys(metrics[0], r, SMALL_NAMES, pick);
    hide Resolve, Sweep, SortStrings, RootsOf, MetricsOf, LookupKeys, PreorderAll;
    assert AllSiblingKeys(metrics, r, SMALL_NAMES) == {} by { assert metrics[..0] == []; }
    hide AllSiblingKeys;
    assert r.keys + {} + {} == {"1.3.0."};
  }

  lemma SmallResolved(m: Module)
    requires m.walk == ["sysUpTime"]
    ensures Resolve(m.walk, SMALL_NAMES) == Some(["1.3"]) && Sweep(SortStrings(["1.3"])) == ["1.3"]
  {
    assert Sweep(SortStrings(["1.3"])) == ["1.3"];
    hide Sweep, SortStrings;
    assert m.walk[..0] == [] && "sysUpTime"[0] != '.' && [] + ["1.3"] == ["1.3"];
  }

  lemma SmallRoots()
    ensures RootsOf(["1.3"], SMALL_TREE, SMALL_NAMES) == Some(Roots({"1.3.0."}, map[], [SMALL_SCALAR]))
  {
    hide Classify;
    SmallKind();
    SmallRoot();
    assert ["1.3"][..0] == [];
  }

  lemma SmallKind()
    ensures Classify("1.3", SMALL_TREE, SMALL_NAMES) == Scalar(SMALL_SCALAR)
  {}

  lemma SmallRoot()
    ensures AddRoot(Roots({}, map[], []), "1.3", Scalar(SMALL_SCALAR)) == Roots({"1.3.0."}, map[], [SMALL_SCALAR])
  {
    assert "1.3" + ".0." == "1.3.0.";
  }

  lemma SmallMetrics(m: Module)
    requires m.ignored == {}
    ensures MetricsOf(PreorderAll([SMALL_SCALAR]), m, SMALL_NAMES) == Some([Metric("1.3", "gauge", [])])
  {
    assert PreorderAll([SMALL_SCALAR]) == [SMALL_SCALAR] by { assert Preorder(SMALL_SCALAR) == [SMALL_SCALAR]; }
    var metrics := [Metric("1.3", "gauge", [])];
    assert MetricOf(SMALL_SCALAR, m, SMALL_NAMES) == Some(metrics);
    assert [SMALL_SCALAR][..0] == [] && [] + metrics == metrics;
  }

  lemma NoLookupsNoKeys(metric: Metric, r: Roots, names: Names, pick: Picker)
    ensures LookupKeys([metric], [], r, names, pick) == Some({})
  {
    var none: set<string> := {};
    assert [metric][..0] == [] && none + none == none;
  }
}
