/** The generator's MIB tree: searching it by OID text and classifying what a configured OID denotes. */
module MibTree {
  import opened Text
  import opened OidSet

  datatype Node = Node(
    oid: string,
    name: string,
    typ: string,
    access: string,
    convention: string,
    fixedSize: nat,
    enumValues: map<int, string>,
    indexes: seq<string>,
    impliedIndex: bool,
    children: seq<Node>)

  // ---------------------------------------------------------------- tree shape

  /** Numbers separated by single dots. */
  predicate IsOid(s: string) {
    && s != [] && s[0] != '.' && s[|s| - 1] != '.'
    && (forall i :: 0 <= i < |s| ==> IsDigit(s[i]) || s[i] == '.')
    && (forall i :: 0 <= i < |s| - 1 ==> !(s[i] == '.' && s[i + 1] == '.'))
  }

  /** The child's OID is the parent's with one more number. */
  predicate IsChildOid(child: string, parent: string) {
    && |child| > |parent| + 1
    && child[..|parent| + 1] == parent + "."
    && AllDigits(child[|parent| + 1..])
  }

  predicate WellFormed(n: Node)
    decreases n
  {
    && IsOid(n.oid)
    && (forall i :: 0 <= i < |n.children| ==> IsChildOid(n.children[i].oid, n.oid) && WellFormed(n.children[i]))
    && (forall i, j :: 0 <= i < j < |n.children| ==> n.children[i].oid != n.children[j].oid)
  }

  /** The nodes in walkNode's order. */
  function Preorder(n: Node): seq<Node>
    decreases n, 1
  {
    [n] + PreorderAll(n.children)
  }

  function PreorderAll(ns: seq<Node>): seq<Node>
    decreases ns, 0
  {
    if ns == [] then [] else Preorder(ns[0]) + PreorderAll(ns[1..])
  }

  lemma {:induction false} InPreorderAll(ns: seq<Node>, m: Node)
    ensures m in PreorderAll(ns) <==> exists i :: 0 <= i < |ns| && m in Preorder(ns[i])
  {
    if ns != [] {
      InPreorderAll(ns[1..], m);
      if m in PreorderAll(ns[1..]) {
        var i :| 0 <= i < |ns[1..]| && m in Preorder(ns[1..][i]);
        assert m in Preorder(ns[i + 1]);
      }
      if i :| 0 <= i < |ns| && m in Preorder(ns[i]) {
        assert i > 0 ==> m in Preorder(ns[1..][i - 1]);
      }
    }
  }

  lemma {:induction false} SubtreeIsBelow(n: Node, m: Node)
    requires WellFormed(n) && m in Preorder(n)
    ensures Covers(n.oid, m.oid) && WellFormed(m)
    decreases n
  {
    if m != n {
      InPreorderAll(n.children, m);
      var i :| 0 <= i < |n.children| && m in Preorder(n.children[i]);
      SubtreeIsBelow(n.children[i], m);
      ChildIsBelow(n.children[i].oid, n.oid);
      CoversTransitive(n.oid, n.children[i].oid, m.oid);
    }
  }

  lemma ChildIsBelow(child: string, parent: string)
    requires IsChildOid(child, parent)
    ensures Covers(parent, child)
  {}

  // ---------------------------------------------------------------- searching

  /** searchNodeTree. */
  function Search(oid: string, n: Node): Option<Node>
    decreases n, 1
  {
    if !(n.oid + "." <= oid + ".") then None
    else
      var below := SearchAll(oid, n.children);
      if below.Some? then below else Some(n)
  }

  function SearchAll(oid: string, ns: seq<Node>): Option<Node>
    decreases ns, 0
  {
    if ns == [] then None
    else
      var found := Search(oid, ns[0]);
      if found.Some? then found else SearchAll(oid, ns[1..])
  }

  /** n is in the tree, is at or above the OID, and every node of the tree at or above the OID is at or above n. */
  ghost predicate Deepest(n: Node, oid: string, nodes: seq<Node>) {
    n in nodes && Covers(n.oid, oid) && forall m :: m in nodes && Covers(m.oid, oid) ==> Covers(m.oid, n.oid)
  }

  /** Two different children of one node cannot both be above an OID. */
  lemma OneBranch(a: string, b: string, parent: string, oid: string)
    requires IsChildOid(a, parent) && IsChildOid(b, parent) && Covers(a, oid) && Covers(b, oid)
    ensures a == b
  {
    NotLonger(a, b, parent, oid);
    NotLonger(b, a, parent, oid);
    assert a == (oid + ".")[..|a|] && b == (oid + ".")[..|b|];
  }

  lemma NotLonger(a: string, b: string, parent: string, oid: string)
    requires IsChildOid(a, parent) && IsChildOid(b, parent) && Covers(a, oid) && Covers(b, oid)
    ensures |b| <= |a|
  {
    var u, k := oid + ".", |parent| + 1;
    assert u[|a|] == (a + ".")[|a|] == '.';
    forall i | k <= i < |b| ensures u[i] != '.' {
      assert u[i] == (b + ".")[i] == b[i] == b[k..][i - k];
    }
  }

  lemma {:induction false} SearchAllFinds(oid: string, ns: seq<Node>, parent: string)
    requires forall i :: 0 <= i < |ns| ==> WellFormed(ns[i]) && IsChildOid(ns[i].oid, parent)
    requires forall i, j :: 0 <= i < j < |ns| ==> ns[i].oid != ns[j].oid
    ensures SearchAll(oid, ns).None? ==> forall m :: m in PreorderAll(ns) ==> !Covers(m.oid, oid)
    ensures SearchAll(oid, ns).Some? ==> Deepest(SearchAll(oid, ns).value, oid, PreorderAll(ns))
    decreases ns, 0
  {
    if ns != [] {
      var head, tail := ns[0], ns[1..];
      SearchFinds(oid, head);
      SearchAllFinds(oid, tail, parent);
      if Search(oid, head).Some? {
        forall m | m in PreorderAll(tail) ensures !Covers(m.oid, oid) {
          InPreorderAll(tail, m);
          var i :| 0 <= i < |tail| && m in Preorder(tail[i]);
          SubtreeIsBelow(tail[i], m);
          if Covers(m.oid, oid) {
            CoversTransitive(tail[i].oid, m.oid, oid);
            OneBranch(head.oid, tail[i].oid, parent, oid);
          }
        }
      } else {
        forall m | m in Preorder(head) ensures !Covers(m.oid, oid) {
          SubtreeIsBelow(head, m);
          if Covers(m.oid, oid) { CoversTransitive(head.oid, m.oid, oid); }
        }
      }
    }
  }

  /** searchNodeTree finds the longest match: the deepest node at or above the OID, nothing exactly when the root is
      not above it. */
  lemma {:induction false} SearchFinds(oid: string, n: Node)
    requires WellFormed(n)
    ensures Search(oid, n).None? <==> !Covers(n.oid, oid)
    ensures Search(oid, n).Some? ==> Deepest(Search(oid, n).value, oid, Preorder(n))
    decreases n, 1
  {
    if Covers(n.oid, oid) {
      SearchAllFinds(oid, n.children, n.oid);
      var r := Search(oid, n).value;
      assert r in Preorder(n);
      SubtreeIsBelow(n, r);
    }
  }

  // ---------------------------------------------------------------- classifying

  /** metricType: the sample type of an object type, None for unsupported ones. */
  function MetricType(t: string): Option<string> {
    if t in {"InetAddress", "InetAddressMissingSize", "LldpPortId"} then Some(t)
    else if t in {"gauge", "INTEGER", "GAUGE", "TIMETICKS", "UINTEGER", "UNSIGNED32", "INTEGER32"} then Some("gauge")
    else if t in {"counter", "COUNTER", "COUNTER64"} then Some("counter")
    else if t in {"OctetString", "OCTETSTR", "OBJID"} then Some("OctetString")
    else if t == "BITSTRING" then Some("Bits")
    else if t in {"InetAddressIPv4", "IpAddr", "IPADDR", "NETADDR"} then Some("InetAddressIPv4")
    else if t in {"PhysAddress48", "DisplayString", "Float", "Double", "InetAddressIPv6", "DateAndTime",
                  "ParseDateAndTime", "NTPTimeStamp", "EnumAsInfo", "EnumAsStateSet"} then Some(t)
    else None
  }

  predicate MetricAccess(a: string) {
    a in {"ACCESS_READONLY", "ACCESS_READWRITE", "ACCESS_CREATE", "ACCESS_NOACCESS"}
  }

  predicate IsMetric(n: Node) { MetricType(n.typ).Some? && MetricAccess(n.access) }

  datatype Kind = NotFound | Scalar(node: Node) | Instance(node: Node) | Subtree(node: Node)

  type Names = map<string, Node>

  /** getMetricNode. */
  function Classify(oid: string, root: Node, names: Names): Kind {
    if oid in names then
      if IsMetric(names[oid]) && names[oid].indexes == [] then Scalar(names[oid]) else Subtree(names[oid])
    else match Search(oid, root)
      case None => NotFound
      case Some(n) => if IsMetric(n) && n.indexes != [] then Instance(n) else NotFound
  }

  /** strings.Replace(s, old, "", 1). */
  function RemoveFirst(s: string, part: string): string {
    if part <= s then s[|part|..]
    else if s == [] then []
    else [s[0]] + RemoveFirst(s[1..], part)
  }

  /** A descriptor, possibly with its module's name in front: it starts with a letter. */
  predicate IsLabel(s: string) { s != [] && ('a' <= s[0] <= 'z' || 'A' <= s[0] <= 'Z') }

  /** The map of prepareTree: every node under its OID, a node under every label, and nothing but nodes of the tree. */
  ghost predicate NamesTree(names: Names, root: Node) {
    && (forall n :: n in Preorder(root) ==> n.oid in names && names[n.oid] == n && n.name in names)
    && (forall k :: k in names ==> names[k] in Preorder(root) && (k == names[k].oid || IsLabel(k)))
  }

  lemma InstanceIsFound(oid: string, root: Node, names: Names)
    requires WellFormed(root) && NamesTree(names, root) && Classify(oid, root, names).Instance?
    ensures oid !in names && Search(oid, root) == Some(Classify(oid, root, names).node)
  {}

  lemma NodeIsNamed(n: Node, root: Node, names: Names)
    requires NamesTree(names, root) && n in Preorder(root)
    ensures n.oid in names
  {}

  lemma SuffixOf(oid: string, n: string)
    requires Covers(n, oid) && oid != n
    ensures var index := RemoveFirst(oid, n);
            n + index == oid && index != [] && index[0] == '.'
  {
    CoversMeans(n, oid);
    assert n <= n + "." <= oid;
    assert oid[..|n|] == n && oid[|n|] == '.';
  }

  /** The stored index of a table instance: the node's OID followed by it is the configured OID, and it starts with a
      dot. */
  lemma InstanceSuffix(oid: string, root: Node, names: Names)
    requires WellFormed(root) && NamesTree(names, root) && Classify(oid, root, names).Instance?
    ensures var n := Classify(oid, root, names).node;
            var index := RemoveFirst(oid, n.oid);
            && n in Preorder(root) && n.oid + index == oid && index != [] && index[0] == '.'
            && Deepest(n, oid, Preorder(root))
  {
    hide WellFormed, NamesTree, Classify, Search, Preorder, RemoveFirst, Covers;
    InstanceIsFound(oid, root, names);
    SearchFinds(oid, root);
    var n := Classify(oid, root, names).node;
    NodeIsNamed(n, root, names);
    SuffixOf(oid, n.oid);
  }

  /** Whatever follows a column's OID and a dot is taken for a table instance, digits or not. */
  lemma AnyTextIsInstance(column: Node, root: Node, names: Names, rest: string)
    requires root.children == [column] && column.children == [] && IsChildOid(column.oid, root.oid)
    requires IsMetric(column) && column.indexes != [] && column.oid + "." + rest !in names
    ensures Classify(column.oid + "." + rest, root, names) == Instance(column)
  {
    hide IsMetric;
    var oid := column.oid + "." + rest;
    assert column.oid + "." <= oid <= oid + ".";
    assert SearchAll(oid, column.children) == None;
    assert Search(oid, column) == Some(column);
    assert root.oid + "." <= column.oid;
    assert (oid + ".")[..|root.oid| + 1] == column.oid[..|root.oid| + 1];
    assert SearchAll(oid, root.children) == Some(column);
    assert Search(oid, root) == Some(column);
  }

  /** So a configuration can defeat the reduction: of an instance, one with a character below the dot after it, and one
      below the first, all are accepted and all are kept. */
  lemma ReductionDefeated(column: Node, root: Node, names: Names)
    requires root.children == [column] && column.children == [] && IsChildOid(column.oid, root.oid)
    requires IsMetric(column) && column.indexes != []
    requires forall rest :: column.oid + "." + rest !in names
    ensures var s := [column.oid + ".5", column.oid + ".5-x", column.oid + ".5.7"];
            && (forall i :: 0 <= i < 3 ==> Classify(s[i], root, names) == Instance(column))
            && Sweep(SortStrings(s)) == s && Covers(s[0], s[2])
  {
    hide IsMetric, Classify, IsChildOid, Covers, Sorted, SortStrings, Sweep;
    var c := column.oid;
    LowCharacterDefeatsSweep(c);
    SortSorted(c + ".5", c + ".5-x", c + ".5.7");
    assert c + "." + "5" == c + ".5" && c + "." + "5-x" == c + ".5-x" && c + "." + "5.7" == c + ".5.7";
    AnyTextIsInstance(column, root, names, "5");
    AnyTextIsInstance(column, root, names, "5-x");
    AnyTextIsInstance(column, root, names, "5.7");
  }

  lemma SortSorted(a: string, b: string, d: string)
    requires Sorted([a, b, d])
    ensures SortStrings([a, b, d]) == [a, b, d]
  {
    hide AtMost;
    var s := [a, b, d];
    assert AtMost(s[0], s[1]) && AtMost(s[1], s[2]);
    assert s[1..] == [b, d] && [b, d][1..] == [d] && [d][1..] == [];
    assert SortStrings([d]) == [d];
    assert SortStrings([b, d]) == [b, d];
  }

  // ---------------------------------------------------------------- what an OID is, in terms of the tree

  /** The deepest node of the tree at or above the OID, if that is a column of a table. */
  ghost predicate IsColumnOf(n: Node, oid: string, root: Node) {
    Deepest(n, oid, Preorder(root)) && IsMetric(n) && n.indexes != []
  }

  ghost predicate HasColumn(oid: string, root: Node) { exists n :: IsColumnOf(n, oid, root) }

  lemma OneDeepest(a: Node, b: Node, oid: string, root: Node, names: Names)
    requires NamesTree(names, root) && Deepest(a, oid, Preorder(root)) && Deepest(b, oid, Preorder(root))
    ensures a == b
  {
    hide Preorder, Covers;
    assert Covers(a.oid, b.oid) && Covers(b.oid, a.oid);
    SameOid(a.oid, b.oid);
    assert names[a.oid] == a && names[b.oid] == b;
  }

  lemma SameOid(a: string, b: string)
    requires Covers(a, b) && Covers(b, a)
    ensures a == b
  {
    CoversAtMost(a, b);
    CoversAtMost(b, a);
    AtMostAntisymmetric(a, b);
  }

  /** A name of the tree is a scalar if it is a metric without indexes, otherwise a subtree; any other OID is an
      instance of the column above it, or nothing. */
  lemma ClassifyMeans(oid: string, root: Node, names: Names)
    requires WellFormed(root) && NamesTree(names, root)
    ensures oid in names ==>
              Classify(oid, root, names)
              == if IsMetric(names[oid]) && names[oid].indexes == [] then Scalar(names[oid]) else Subtree(names[oid])
    ensures oid !in names ==>
              var kind := Classify(oid, root, names);
              && (kind == NotFound <==> !HasColumn(oid, root))
              && forall n :: IsColumnOf(n, oid, root) ==> kind == Instance(n)
  {
    hide IsMetric, Preorder, WellFormed, Search, NamesTree, Deepest;
    if oid !in names {
      SearchFinds(oid, root);
      var found := Search(oid, root);
      if found.Some? {
        forall n | IsColumnOf(n, oid, root) ensures n == found.value { OneDeepest(n, found.value, oid, root, names); }
        assert IsMetric(found.value) && found.value.indexes != [] ==> IsColumnOf(found.value, oid, root);
      } else {
        forall n ensures !IsColumnOf(n, oid, root) {
          if IsColumnOf(n, oid, root) { NothingDeepest(n, oid, root); }
        }
      }
    }
  }

  lemma NothingDeepest(n: Node, oid: string, root: Node)
    requires WellFormed(root) && Deepest(n, oid, Preorder(root))
    ensures Covers(root.oid, oid)
  {
    hide Covers;
    SubtreeIsBelow(root, n);
    CoversTransitive(root.oid, n.oid, oid);
  }
}
