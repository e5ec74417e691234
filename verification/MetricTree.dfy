/** The metric trie on the heap, and the lookup that walks it, proved against a linear scan. */
module MetricTree {
  import opened Text
  import opened Config
  import opened Oid

  function Path(m: Metric): (p: seq<int>)
    ensures p != []
  {
    OidToList(m.oid)
  }

  /** Linear search: of the metrics whose OID is a prefix, the one with the shortest OID, the last listed among
      equals. */
  function Scan(metrics: seq<Metric>, oid: seq<int>): Option<Metric> {
    if metrics == [] then None
    else
      var best := Scan(metrics[..|metrics| - 1], oid);
      var m := metrics[|metrics| - 1];
      if Path(m) <= oid && (best.None? || |Path(m)| <= |Path(best.value)|) then Some(m) else best
  }

  /** The metric at exactly this OID, the last listed one. */
  function MetricAt(metrics: seq<Metric>, p: seq<int>): Option<Metric> {
    if metrics == [] then None
    else if Path(metrics[|metrics| - 1]) == p then Some(metrics[|metrics| - 1])
    else MetricAt(metrics[..|metrics| - 1], p)
  }

  lemma {:induction false} MetricAtExact(metrics: seq<Metric>, p: seq<int>)
    ensures MetricAt(metrics, p).Some? ==> Path(MetricAt(metrics, p).value) == p
    ensures MetricAt(metrics, p).Some? <==> exists i :: 0 <= i < |metrics| && Path(metrics[i]) == p
  {
    if metrics != [] {
      var front := metrics[..|metrics| - 1];
      MetricAtExact(front, p);
      if i :| 0 <= i < |metrics| && Path(metrics[i]) == p {
        assert i < |front| ==> Path(front[i]) == p;
      }
    }
  }

  /** No metric at any prefix of the OID up to length j. */
  ghost predicate NoneUpTo(metrics: seq<Metric>, oid: seq<int>, j: nat) {
    j <= |oid| && forall k :: 0 <= k <= j ==> MetricAt(metrics, oid[..k]) == None
  }

  lemma NoneUpToNext(metrics: seq<Metric>, oid: seq<int>, j: nat)
    requires NoneUpTo(metrics, oid, j) && j < |oid|
    ensures MetricAt(metrics, oid[..j + 1]) == None ==> NoneUpTo(metrics, oid, j + 1)
    ensures MetricAt(metrics, oid[..j + 1]).Some? ==> Scan(metrics, oid) == MetricAt(metrics, oid[..j + 1])
  {
    if MetricAt(metrics, oid[..j + 1]).Some? {
      ScanFinds(metrics, oid, j + 1);
    }
  }

  /** What Scan finds, said through MetricAt: the shortest prefix with a metric. */
  lemma {:induction false} ScanFinds(metrics: seq<Metric>, oid: seq<int>, j: nat)
    requires j <= |oid|
    requires forall k :: 0 <= k < j ==> MetricAt(metrics, oid[..k]) == None
    requires MetricAt(metrics, oid[..j]).Some?
    ensures Scan(metrics, oid) == MetricAt(metrics, oid[..j])
  {
    var front, m := metrics[..|metrics| - 1], metrics[|metrics| - 1];
    forall k | 0 <= k < j ensures MetricAt(front, oid[..k]) == None { assert MetricAt(metrics, oid[..k]) == None; }
    if Path(m) <= oid {
      var k := |Path(m)|;
      assert oid[..k] == Path(m);
      assert MetricAt(metrics, Path(m)) == Some(m) && j <= k;
    }
    if MetricAt(front, oid[..j]).Some? {
      ScanFinds(front, oid, j);
      MetricAtExact(front, oid[..j]);
    } else {
      ScanLonger(front, oid, j);
    }
  }

  /** With no metric at the prefixes up to length j, Scan finds nothing that short. */
  lemma {:induction false} ScanLonger(metrics: seq<Metric>, oid: seq<int>, j: nat)
    requires NoneUpTo(metrics, oid, j)
    ensures Scan(metrics, oid).Some? ==> j < |Path(Scan(metrics, oid).value)| <= |oid|
  {
    if metrics != [] {
      var front, m := metrics[..|metrics| - 1], metrics[|metrics| - 1];
      forall k | 0 <= k <= j ensures MetricAt(front, oid[..k]) == None { assert MetricAt(metrics, oid[..k]) == None; }
      ScanLonger(front, oid, j);
      if Path(m) <= oid {
        var k := |Path(m)|;
        assert oid[..k] == Path(m);
        assert MetricAt(metrics, Path(m)) == Some(m) && j < k;
      }
    }
  }

  /** Metric i is a prefix of the OID, and no other prefix is shorter, or as short and listed later. */
  ghost predicate Beats(metrics: seq<Metric>, oid: seq<int>, i: nat)
    requires i < |metrics|
  {
    && Path(metrics[i]) <= oid
    && forall k :: 0 <= k < |metrics| && Path(metrics[k]) <= oid ==>
         |Path(metrics[i])| < |Path(metrics[k])| || (|Path(metrics[i])| == |Path(metrics[k])| && k <= i)
  }

  /** Scan in words: nothing iff no metric is a prefix; otherwise a listed prefix that none beats. */
  lemma {:induction false} ScanChooses(metrics: seq<Metric>, oid: seq<int>) returns (i: int)
    ensures Scan(metrics, oid).None? ==> forall k :: 0 <= k < |metrics| ==> !(Path(metrics[k]) <= oid)
    ensures Scan(metrics, oid).Some? ==>
              0 <= i < |metrics| && Beats(metrics, oid, i) && metrics[i] == Scan(metrics, oid).value
  {
    if metrics == [] {
      return -1;
    }
    var n := |metrics| - 1;
    var front, m := metrics[..n], metrics[n];
    i := ScanChooses(front, oid);
    var best := Scan(front, oid);
    forall k | 0 <= k < n ensures Path(metrics[k]) == Path(front[k]) {}
    if Path(m) <= oid && (best.None? || |Path(m)| <= |Path(best.value)|) {
      forall k | 0 <= k < |metrics| && Path(metrics[k]) <= oid ensures |Path(m)| <= |Path(metrics[k])| {
        if k < n { assert Path(front[k]) <= oid; }
      }
      i := n;
    } else if best.Some? {
      BeatsMore(metrics, oid, i);
    }
  }

  lemma BeatsMore(metrics: seq<Metric>, oid: seq<int>, i: nat)
    requires i < |metrics| - 1 && Beats(metrics[..|metrics| - 1], oid, i)
    requires Path(metrics[|metrics| - 1]) <= oid ==> |Path(metrics[i])| < |Path(metrics[|metrics| - 1])|
    ensures Beats(metrics, oid, i)
  {}

  // ---------------------------------------------------------------- the heap

  class MetricNode {
    var metric: Option<Metric>
    var children: map<int, MetricNode>

    constructor ()
      ensures metric == None && children == map[]
    {
      metric := None;
      children := map[];
    }
  }

  type Nodes = map<seq<int>, MetricNode>

  /** `nodes` names every node of a trie by its path: children are exactly the paths one longer, and no node has two
      names. */
  ghost predicate Shape(nodes: Nodes)
    reads nodes.Values`children
  {
    && [] in nodes
    && (forall p :: p in nodes ==> HasParent(nodes, p) && KnowsChildren(nodes, p))
    && (forall p, q :: p in nodes && q in nodes && nodes[p] == nodes[q] ==> p == q)
  }

  ghost predicate HasParent(nodes: Nodes, p: seq<int>)
    reads nodes.Values`children
  {
    p != [] ==> p[..|p| - 1] in nodes && p[|p| - 1] in nodes[p[..|p| - 1]].children
  }

  ghost predicate KnowsChildren(nodes: Nodes, p: seq<int>)
    requires p in nodes
    reads nodes.Values`children
  {
    forall k :: k in nodes[p].children ==> p + [k] in nodes && nodes[p].children[k] == nodes[p + [k]]
  }

  /** Every node holds the last listed metric with its path, and every metric has a node. */
  ghost predicate Holds(nodes: Nodes, metrics: seq<Metric>)
    reads nodes.Values`metric
  {
    && (forall p :: p in nodes ==> nodes[p].metric == MetricAt(metrics, p))
    && (forall i :: 0 <= i < |metrics| ==> Path(metrics[i]) in nodes)
  }

  /** One step down the trie from `head`, adding the child if it is missing. */
  method Descend(ghost nodes: Nodes, ghost p: seq<int>, head: MetricNode, o: int)
    returns (next: MetricNode, ghost nodes': Nodes)
    requires Shape(nodes) && p in nodes && nodes[p] == head
    modifies head
    ensures Shape(nodes') && p + [o] in nodes' && nodes'[p + [o]] == next
    ensures forall q :: q in nodes ==> q in nodes' && nodes'[q] == nodes[q] && nodes[q].metric == old(nodes[q].metric)
    ensures forall q :: q in nodes' && q !in nodes ==> q == p + [o] && fresh(nodes'[q]) && nodes'[q].metric == None
  {
    nodes' := nodes;
    ghost var c := p + [o];
    assert c[..|p|] == p;
    assert HasParent(nodes, p) && KnowsChildren(nodes, p);
    if o !in head.children {
      assert c !in nodes by {
        assert c in nodes ==> HasParent(nodes, c);
      }
      var child := new MetricNode();
      head.children := head.children[o := child];
      nodes' := nodes[c := child];
      forall q | q in nodes' ensures HasParent(nodes', q) && KnowsChildren(nodes', q) {
        if q != c {
          assert old(HasParent(nodes, q)) && old(KnowsChildren(nodes, q));
          assert q == p || nodes[q] != head;
        }
      }
    }
    next := head.children[o];
  }

  /** The nodes of a metric's path, from the root down. */
  method DescendAll(ghost nodes: Nodes, root: MetricNode, path: seq<int>) returns (head: MetricNode, ghost grown: Nodes)
    requires Shape(nodes) && [] in nodes && nodes[[]] == root
    modifies nodes.Values
    ensures Shape(grown) && path in grown && grown[path] == head
    ensures forall q :: q in nodes ==> q in grown && grown[q] == nodes[q] && nodes[q].metric == old(nodes[q].metric)
    ensures forall q :: q in grown && q !in nodes ==> fresh(grown[q]) && grown[q].metric == None
  {
    hide Shape;
    head, grown := root, nodes;
    for j := 0 to |path|
      invariant Shape(grown) && path[..j] in grown && grown[path[..j]] == head
      invariant forall q :: q in nodes ==> q in grown && grown[q] == nodes[q] && nodes[q].metric == old(nodes[q].metric)
      invariant forall q :: q in grown && q !in nodes ==> fresh(grown[q]) && grown[q].metric == None
    {
      assert path[..j] + [path[j]] == path[..j + 1];
      head, grown := Descend(grown, path[..j], head, path[j]);
    }
    assert path[..|path|] == path;
  }

  /** One round of buildMetricTree's loop: walk down the metric's OID and leave the metric at its end. */
  method InsertMetric(ghost nodes: Nodes, root: MetricNode, ghost done: seq<Metric>, metric: Metric)
    returns (ghost grown: Nodes)
    requires Shape(nodes) && nodes[[]] == root && Holds(nodes, done)
    modifies nodes.Values
    ensures Shape(grown) && [] in grown && grown[[]] == root && Holds(grown, done + [metric])
    ensures fresh(grown.Values - nodes.Values)
  {
    var path := OidToList(metric.oid);
    var head;
    head, grown := DescendAll(nodes, root, path);
    forall q | q in grown ensures grown[q].metric == MetricAt(done, q) {
      if q !in nodes { MetricAtExact(done, q); }
    }
    head.metric := Some(metric);
    assert forall q :: q in grown && grown[q] == head ==> q == path;
    forall q | q in grown ensures grown[q].metric == MetricAt(done + [metric], q) {
      assert (done + [metric])[..|done|] == done;
    }
    forall i | 0 <= i < |done + [metric]| ensures Path((done + [metric])[i]) in grown {
      assert i < |done| ==> Path(done[i]) in nodes;
    }
  }

  method NewTree() returns (root: MetricNode, ghost nodes: Nodes)
    ensures Shape(nodes) && nodes == map[[] := root] && Holds(nodes, [])
    ensures fresh(root)
  {
    root := new MetricNode();
    nodes := map[[] := root];
  }

  /** buildMetricTree: the whole list, in order. */
  method BuildMetricTree(metrics: seq<Metric>) returns (root: MetricNode, ghost nodes: Nodes)
    ensures Shape(nodes) && [] in nodes && nodes[[]] == root && Holds(nodes, metrics)
    ensures fresh(nodes.Values)
  {
    hide Shape, Holds;
    root, nodes := NewTree();
    assert metrics[..0] == [];
    for i := 0 to |metrics|
      invariant Shape(nodes) && [] in nodes && nodes[[]] == root && Holds(nodes, metrics[..i])
      invariant fresh(nodes.Values)
    {
      assert metrics[..i] + [metrics[i]] == metrics[..i + 1];
      nodes := InsertMetric(nodes, root, metrics[..i], metrics[i]);
    }
    assert metrics[..|metrics|] == metrics;
  }

  lemma {:induction false} PrefixesHaveNodes(nodes: Nodes, p: seq<int>, k: nat)
    requires Shape(nodes) && p in nodes && k <= |p|
    ensures p[..k] in nodes
    decreases |p|
  {
    if k < |p| {
      assert HasParent(nodes, p);
      PrefixesHaveNodes(nodes, p[..|p| - 1], k);
      assert p[..|p| - 1][..k] == p[..k];
    } else {
      assert p[..k] == p;
    }
  }

  lemma NothingBelow(nodes: Nodes, metrics: seq<Metric>, oid: seq<int>, j: nat)
    requires Shape(nodes) && Holds(nodes, metrics) && NoneUpTo(metrics, oid, j) && oid[..j] !in nodes
    ensures Scan(metrics, oid) == None
  {
    hide Shape, Scan, MetricAt;
    ScanLonger(metrics, oid, j);
    if Scan(metrics, oid).Some? {
      var i := ScanChooses(metrics, oid);
      assert Path(metrics[i])[..j] == oid[..j];
      PrefixesHaveNodes(nodes, Path(metrics[i]), j);
    }
  }

  /** The loop stands at `head` after i sub-identifiers, and no metric has been passed. */
  ghost predicate Reached(nodes: Nodes, metrics: seq<Metric>, oid: seq<int>, i: nat, head: MetricNode) {
    i <= |oid| && oid[..i] in nodes && nodes[oid[..i]] == head && NoneUpTo(metrics, oid, i)
  }

  /** What the trie knows one step below a node. */
  lemma StepDown(nodes: Nodes, metrics: seq<Metric>, p: seq<int>, o: int, c: seq<int>)
    requires Shape(nodes) && Holds(nodes, metrics) && p in nodes && c == p + [o]
    ensures o in nodes[p].children <==> c in nodes
    ensures c in nodes ==> nodes[c] == nodes[p].children[o] && nodes[c].metric == MetricAt(metrics, c)
    ensures c !in nodes ==> MetricAt(metrics, c) == None
  {
    assert KnowsChildren(nodes, p);
    assert c[..|p|] == p;
    assert c in nodes ==> HasParent(nodes, c);
    MetricAtExact(metrics, c);
  }

  lemma ReachedNext(nodes: Nodes, metrics: seq<Metric>, oid: seq<int>, i: nat, head: MetricNode)
    requires Shape(nodes) && Holds(nodes, metrics) && Reached(nodes, metrics, oid, i, head) && i < |oid|
    ensures oid[i] !in head.children ==> Scan(metrics, oid) == None
    ensures oid[i] in head.children ==>
              var child := head.children[oid[i]];
              if child.metric == None then Reached(nodes, metrics, oid, i + 1, child)
              else child.metric == Scan(metrics, oid) == MetricAt(metrics, oid[..i + 1])
  {
    var c := oid[..i + 1];
    StepDown(nodes, metrics, oid[..i], oid[i], c);
    NoneUpToNext(metrics, oid, i);
    hide Shape, Holds, Scan, MetricAt, NoneUpTo;
    if c !in nodes {
      NothingBelow(nodes, metrics, oid, i + 1);
    }
  }

  lemma FoundAt(metrics: seq<Metric>, oid: seq<int>, j: nat)
    requires j <= |oid|
    ensures var m := MetricAt(metrics, oid[..j]);
            m.Some? ==> Path(m.value) + oid[j..] == oid
  {}

  /** The match loop of collect: down the trie to the first node with a metric, handing over the rest of the OID as
      indexes. */
  method MatchMetric(root: MetricNode, ghost nodes: Nodes, ghost metrics: seq<Metric>, oid: seq<int>)
    returns (metric: Option<Metric>, indexOids: seq<int>)
    requires Shape(nodes) && nodes[[]] == root && Holds(nodes, metrics)
    ensures metric == Scan(metrics, oid)
    ensures metric.Some? ==> Path(metric.value) + indexOids == oid
  {
    MetricAtExact(metrics, []);
    assert oid[..0] == [];
    assert Reached(nodes, metrics, oid, 0, root);
    hide *;
    var head: MetricNode := root;
    for i := 0 to |oid|
      invariant Reached(nodes, metrics, oid, i, head)
    {
      ReachedNext(nodes, metrics, oid, i, head);
      if oid[i] !in head.children {
        return None, [];
      }
      var child := head.children[oid[i]];
      if child.metric != None {
        FoundAt(metrics, oid, i + 1);
        return child.metric, oid[i + 1..];
      }
      head := child;
    }
    WholeOidPassed(nodes, metrics, oid, head);
    return None, [];
  }

  lemma WholeOidPassed(nodes: Nodes, metrics: seq<Metric>, oid: seq<int>, head: MetricNode)
    requires Reached(nodes, metrics, oid, |oid|, head)
    ensures Scan(metrics, oid) == None
  {
    ScanLonger(metrics, oid, |oid|);
  }
}
