/** The pass of prepareTree that copies a table entry's indexes down to everything below it, on the mutable tree. */
module IndexCopy {

  /** The two fields the pass copies. */
  datatype Keys = Keys(indexes: seq<string>, impliedIndex: bool)

  class MibNode {
    const children: seq<MibNode>
    ghost const Repr: set<MibNode>
    var indexes: seq<string>
    var impliedIndex: bool

    /** The children are trees of their own, apart from each other and from this node. */
    ghost predicate IsTree()
      decreases Repr
    {
      && this in Repr
      && (forall i :: 0 <= i < |children| ==>
            children[i].Repr < Repr && this !in children[i].Repr && children[i].IsTree())
      && (forall i, j :: 0 <= i < j < |children| ==> children[i].Repr !! children[j].Repr)
      && (forall m :: m in Repr ==> m == this || exists i :: 0 <= i < |children| && m in children[i].Repr)
    }

    constructor (children: seq<MibNode>, indexes: seq<string>, impliedIndex: bool)
      requires forall i :: 0 <= i < |children| ==> children[i].IsTree()
      requires forall i, j :: 0 <= i < j < |children| ==> children[i].Repr !! children[j].Repr
      ensures IsTree() && this.children == children && Own() == Keys(indexes, impliedIndex)
      ensures Repr == {this} + set i, m | 0 <= i < |children| && m in children[i].Repr :: m
    {
      this.children := children;
      this.indexes := indexes;
      this.impliedIndex := impliedIndex;
      this.Repr := {this} + set i, m | 0 <= i < |children| && m in children[i].Repr :: m;
    }

    ghost function Own(): Keys
      reads this
    {
      Keys(indexes, impliedIndex)
    }

    /** The child whose tree m is in. */
    ghost function Branch(m: MibNode): (i: nat)
      requires IsTree() && m in Repr && m != this
      ensures i < |children| && m in children[i].Repr
    {
      var i :| 0 <= i < |children| && m in children[i].Repr; i
    }

    /** The keys of the first node with indexes on the way from this node down to m; m's own when there is none. */
    ghost function Inherited(m: MibNode): Keys
      requires IsTree() && m in Repr
      reads Repr
      decreases Repr
    {
      if indexes != [] || m == this then Own() else children[Branch(m)].Inherited(m)
    }

    lemma {:induction false} BelowIsTree(b: MibNode)
      requires IsTree() && b in Repr
      ensures b.IsTree() && b.Repr <= Repr
      decreases Repr
    {
      if b != this {
        var i := Branch(b);
        children[i].BelowIsTree(b);
      }
    }

    /** a is m or above it in this tree, and has indexes. */
    ghost predicate HasAbove(a: MibNode, m: MibNode)
      reads Repr
    {
      a in Repr && m in a.Repr && a.indexes != []
    }

    /** So a node inherits from its outermost ancestor-or-self with indexes, the one all others are in the tree of;
        it keeps its own keys if there is none. */
    lemma {:induction false} InheritsFromOutermost(m: MibNode)
      requires IsTree() && m in Repr
      ensures if exists a :: HasAbove(a, m) then
                exists a :: HasAbove(a, m) && Inherited(m) == a.Own() && forall b :: HasAbove(b, m) ==> b in a.Repr
              else Inherited(m) == m.Own()
      decreases Repr
    {
      if indexes != [] {
        assert HasAbove(this, m);
      } else if m == this {
        forall b ensures !HasAbove(b, m) { OnlyRootHolds(b); }
      } else {
        var child := children[Branch(m)];
        child.InheritsFromOutermost(m);
        forall b ensures HasAbove(b, m) <==> child.HasAbove(b, m) { AboveInBranch(b, m); }
      }
    }

    lemma OnlyRootHolds(b: MibNode)
      requires IsTree()
      ensures b in Repr && this in b.Repr ==> b == this
    {
      if b in Repr && b != this {
        children[Branch(b)].BelowIsTree(b);
      }
    }

    lemma AboveInBranch(b: MibNode, m: MibNode)
      requires IsTree() && m in Repr && m != this && indexes == []
      ensures HasAbove(b, m) <==> children[Branch(m)].HasAbove(b, m)
    {
      var i := Branch(m);
      if HasAbove(b, m) {
        var j := Branch(b);
        children[j].BelowIsTree(b);
        if j != i { Apart(i, j); }
      }
    }

    /** One call of the copying function. */
    method CopyToChildren()
      requires IsTree()
      modifies set i | 0 <= i < |children| :: children[i]
      ensures forall i :: 0 <= i < |children| ==>
                children[i].Own() == if old(indexes) != [] then old(Own()) else old(children[i].Own())
    {
      if indexes == [] { return; }
      for i := 0 to |children|
        invariant forall k :: 0 <= k < |children| ==>
                    children[k].Own() == if k < i then old(Own()) else old(children[k].Own())
      {
        assert forall k :: 0 <= k < |children| && k != i ==> children[k] != children[i] by {
          forall k | 0 <= k < |children| && k != i ensures children[k] != children[i] { Apart(k, i); }
        }
        assert this != children[i];
        children[i].indexes := indexes;
        children[i].impliedIndex := impliedIndex;
      }
    }

    lemma Apart(i: nat, j: nat)
      requires IsTree() && i < |children| && j < |children| && i != j
      ensures children[i] != children[j] && children[i].Repr !! children[j].Repr
    {}

    lemma BranchIs(i: nat, m: MibNode)
      requires IsTree() && i < |children| && m in children[i].Repr
      ensures m in Repr && m != this && Branch(m) == i && children[i].IsTree()
    {}

    /** Nothing inherited changes while the tree's fields stay the same. */
    twostate lemma InheritedSame(m: MibNode)
      requires IsTree() && m in Repr && forall k :: k in Repr ==> k.Own() == old(k.Own())
      ensures Inherited(m) == old(Inherited(m))
      decreases Repr
    {
      if indexes == [] && m != this {
        var c := children[Branch(m)];
        assert c.Repr < Repr;
        c.InheritedSame(m);
      }
    }

    /** The i-th child after the copying: it has this node's keys if there are any, and nothing below it has changed. */
    twostate predicate Copied(i: nat)
      requires IsTree() && i < |children|
      reads this, children[i].Repr
    {
      && children[i].IsTree() && this.Own() == old(this.Own())
      && children[i].Own() == (if old(indexes) != [] then old(Own()) else old(children[i].Own()))
      && forall k :: k in children[i].Repr && k != children[i] ==> k.Own() == old(k.Own())
    }

    /** After the copying, a child's view of what is below it is what its parent's was before. */
    twostate lemma InheritedAfterCopy(i: nat)
      requires IsTree() && i < |children| && Copied(i)
      ensures forall m :: m in children[i].Repr ==> m in Repr && children[i].Inherited(m) == old(Inherited(m))
    {
      forall m | m in children[i].Repr ensures m in Repr && m != this && Branch(m) == i { BranchIs(i, m); }
      if old(indexes) == [] {
        forall m | m in children[i].Repr ensures children[i].Inherited(m) == old(children[i].Inherited(m)) {
          children[i].InheritedSame(m);
        }
      }
    }

    /** Every child's subtree is walked in turn. */
    method WalkChildren()
      requires IsTree()
      modifies set i, m | 0 <= i < |children| && m in children[i].Repr :: m
      ensures forall i, m :: 0 <= i < |children| && m in children[i].Repr ==> m.Own() == old(children[i].Inherited(m))
      decreases Repr, 0
    {
      for i := 0 to |children|
        invariant forall k, m :: 0 <= k < i && m in children[k].Repr ==> m.Own() == old(children[k].Inherited(m))
        invariant forall k, m :: i <= k < |children| && m in children[k].Repr ==> m.Own() == old(m.Own())
      {
        forall m | m in children[i].Repr ensures children[i].Inherited(m) == old(children[i].Inherited(m)) {
          children[i].InheritedSame(m);
        }
        forall k | 0 <= k < |children| && k != i ensures children[k].Repr !! children[i].Repr { Apart(k, i); }
        children[i].CopyDown();
      }
    }

    /** One call of the copying function, seen from below. */
    method Visit()
      requires IsTree()
      modifies Repr
      ensures Own() == old(Own())
      ensures forall i, m :: 0 <= i < |children| && m in children[i].Repr ==>
                m in Repr && children[i].Inherited(m) == old(Inherited(m))
    {
      CopyToChildren();
      forall i | 0 <= i < |children|
        ensures forall m :: m in children[i].Repr ==> m in Repr && children[i].Inherited(m) == old(Inherited(m))
      {
        forall k | 0 <= k < |children| && k != i ensures children[k] !in children[i].Repr { Apart(k, i); }
        InheritedAfterCopy(i);
      }
    }

    /** walkNode with the copying function: every node ends up with the keys of its outermost ancestor-or-self that had
        indexes before the pass, and keeps its own when there is none. */
    method CopyDown()
      requires IsTree()
      modifies Repr
      ensures forall m :: m in Repr ==> m.Own() == old(Inherited(m))
      decreases Repr, 1
    {
      Visit();
      WalkChildren();
      assert Own() == old(Own());
    }
  }
}
