/** Choosing elements of a list, in order. */
module Lists {
  import opened Text

  function Keep<T(!new)>(s: seq<T>, p: T -> bool): (r: seq<T>)
    ensures |r| <= |s|
    ensures forall x :: x in r <==> x in s && p(x)
  {
    if s == [] then [] else Keep(s[..|s| - 1], p) + (if p(s[|s| - 1]) then [s[|s| - 1]] else [])
  }

  lemma KeepOne<T(!new)>(s: seq<T>, x: T, p: T -> bool)
    ensures Keep(s + [x], p) == Keep(s, p) + if p(x) then [x] else []
  {}

  lemma KeepNone<T(!new)>(p: T -> bool)
    ensures Keep([], p) == []
  {}

  lemma {:induction false} KeepAppend<T(!new)>(a: seq<T>, b: seq<T>, p: T -> bool)
    ensures Keep(a + b, p) == Keep(a, p) + Keep(b, p)
  {
    hide Keep;
    if b == [] {
      KeepNone(p);
      assert a + b == a && Keep(a, p) + [] == Keep(a, p);
    } else {
      var front, last := b[..|b| - 1], b[|b| - 1];
      KeepAppend(a, front, p);
      KeepOne(a + front, last, p);
      KeepOne(front, last, p);
      assert a + b == a + front + [last] && b == front + [last];
      var end := if p(last) then [last] else [];
      assert Keep(a, p) + Keep(front, p) + end == Keep(a, p) + (Keep(front, p) + end);
    }
  }

  lemma KeepFirst<T(!new)>(s: seq<T>, p: T -> bool)
    requires s != []
    ensures Keep(s, p) == (if p(s[0]) then [s[0]] else []) + Keep(s[1..], p)
  {
    hide Keep;
    var none: seq<T> := [];
    KeepOne(none, s[0], p);
    KeepNone(p);
    KeepAppend([s[0]], s[1..], p);
    assert s == [s[0]] + s[1..] && none + [s[0]] == [s[0]];
    var first := if p(s[0]) then [s[0]] else [];
    assert none + first == first;
  }

  lemma {:induction false} KeepTwice<T(!new)>(s: seq<T>, p: T -> bool, q: T -> bool)
    ensures Keep(Keep(s, p), q) == Keep(s, Both(p, q))
  {
    if s != [] {
      var front, last := s[..|s| - 1], s[|s| - 1];
      KeepTwice(front, p, q);
      KeepAppend(Keep(front, p), if p(last) then [last] else [], q);
      assert [last][..0] == [];
    }
  }

  lemma {:induction false} KeepAll<T(!new)>(s: seq<T>, p: T -> bool)
    ensures Keep(s, p) == s <==> forall x :: x in s ==> p(x)
  {
    if s != [] {
      var front, last := s[..|s| - 1], s[|s| - 1];
      KeepAll(front, p);
      assert s == front + [last];
    }
  }

  lemma {:induction false} KeepSame<T(!new)>(s: seq<T>, p: T -> bool, q: T -> bool)
    requires forall x :: x in s ==> p(x) == q(x)
    ensures Keep(s, p) == Keep(s, q)
  {
    if s != [] { KeepSame(s[..|s| - 1], p, q); }
  }

  function Both<T>(p: T -> bool, q: T -> bool): T -> bool { x => p(x) && q(x) }

  /** The places of the elements of s that meet p, in order. */
  ghost predicate PlacesOf<T(!new)>(s: seq<T>, p: T -> bool, at: seq<nat>) {
    && (forall k :: 0 <= k < |at| ==> at[k] < |s|)
    && (forall j, k :: 0 <= j < k < |at| ==> at[j] < at[k])
    && (forall i: nat :: i < |s| ==> (p(s[i]) <==> i in at))
  }

  ghost predicate ReadAt<T(!new)>(s: seq<T>, at: seq<nat>, r: seq<T>)
    requires forall k :: 0 <= k < |at| ==> at[k] < |s|
  {
    |r| == |at| && forall k :: 0 <= k < |r| ==> r[k] == s[at[k]]
  }

  /** r is every occurrence in s of what meets p, and nothing else, in the order of s. */
  ghost predicate Selected<T(!new)>(s: seq<T>, p: T -> bool, r: seq<T>) {
    exists at: seq<nat> :: PlacesOf(s, p, at) && ReadAt(s, at, r)
  }

  lemma {:induction false} KeepPlaces<T(!new)>(s: seq<T>, p: T -> bool) returns (at: seq<nat>)
    ensures PlacesOf(s, p, at) && ReadAt(s, at, Keep(s, p))
  {
    if s == [] {
      at := [];
    } else {
      var n := |s| - 1;
      var front := KeepPlaces(s[..n], p);
      at := front + if p(s[n]) then [n] else [];
      PlacesNext(s, p, front);
      forall k | 0 <= k < |at| ensures Keep(s, p)[k] == s[at[k]] {
        if k < |front| { assert Keep(s[..n], p)[k] == s[..n][front[k]]; }
      }
    }
  }

  lemma PlacesNext<T(!new)>(s: seq<T>, p: T -> bool, front: seq<nat>)
    requires s != [] && PlacesOf(s[..|s| - 1], p, front)
    ensures PlacesOf(s, p, front + if p(s[|s| - 1]) then [|s| - 1] else [])
  {
    var n := |s| - 1;
    var at := front + if p(s[n]) then [n] else [];
    forall i: nat | i < |s| ensures p(s[i]) <==> i in at {
      assert n !in front;
      if i < n { assert s[..n][i] == s[i]; }
    }
  }

  lemma KeepSelects<T(!new)>(s: seq<T>, p: T -> bool)
    ensures Selected(s, p, Keep(s, p))
  {
    var at := KeepPlaces(s, p);
  }

  lemma SelectedSame<T(!new)>(s: seq<T>, p: T -> bool, q: T -> bool, r: seq<T>)
    requires Selected(s, p, r) && forall x :: x in s ==> p(x) == q(x)
    ensures Selected(s, q, r)
  {
    var at: seq<nat> :| PlacesOf(s, p, at) && ReadAt(s, at, r);
    PlacesSame(s, p, q, at);
  }

  lemma PlacesSame<T(!new)>(s: seq<T>, p: T -> bool, q: T -> bool, at: seq<nat>)
    requires PlacesOf(s, p, at) && forall x :: x in s ==> p(x) == q(x)
    ensures PlacesOf(s, q, at)
  {}
}
