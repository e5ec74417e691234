/** Reducing a list of overlapping OID subtrees to its outermost members (generator side, OIDs as text). */
module OidSet {
  import opened Text

  // ---------------------------------------------------------------- the order of Go strings

  /** a <= b, byte by byte. */
  predicate AtMost(a: string, b: string) {
    if a == [] then true
    else if b == [] then false
    else if a[0] != b[0] then a[0] < b[0]
    else AtMost(a[1..], b[1..])
  }

  lemma {:induction false} AtMostTotal(a: string, b: string)
    ensures AtMost(a, b) || AtMost(b, a)
  {
    if a != [] && b != [] { AtMostTotal(a[1..], b[1..]); }
  }

  lemma {:induction false} AtMostAntisymmetric(a: string, b: string)
    requires AtMost(a, b) && AtMost(b, a)
    ensures a == b
  {
    if a != [] && b != [] {
      AtMostAntisymmetric(a[1..], b[1..]);
      assert a == [a[0]] + a[1..] && b == [b[0]] + b[1..];
    }
  }

  lemma {:induction false} AtMostTransitive(a: string, b: string, c: string)
    requires AtMost(a, b) && AtMost(b, c)
    ensures AtMost(a, c)
  {
    if a != [] && b != [] && c != [] && a[0] == b[0] == c[0] { AtMostTransitive(a[1..], b[1..], c[1..]); }
  }

  lemma {:induction false} PrefixAtMost(a: string, b: string)
    requires a <= b
    ensures AtMost(a, b)
  {
    if a != [] { PrefixAtMost(a[1..], b[1..]); }
  }

  predicate Sorted(s: seq<string>) { forall i, j :: 0 <= i <= j < |s| ==> AtMost(s[i], s[j]) }

  function Insert(x: string, s: seq<string>): (r: seq<string>)
    ensures multiset(r) == multiset(s) + multiset{x}
  {
    if s == [] || AtMost(x, s[0]) then [x] + s
    else
      assert s == [s[0]] + s[1..];
      [s[0]] + Insert(x, s[1..])
  }

  lemma {:induction false} InsertSorted(x: string, s: seq<string>)
    requires Sorted(s)
    ensures Sorted(Insert(x, s))
  {
    AtMostTotal(x, x);
    if s == [] {
    } else if AtMost(x, s[0]) {
      forall j | 0 <= j < |s| ensures AtMost(x, s[j]) { AtMostTransitive(x, s[0], s[j]); }
    } else {
      AtMostTotal(x, s[0]);
      InsertSorted(x, s[1..]);
      var tail := Insert(x, s[1..]);
      forall j | 0 <= j < |tail| ensures AtMost(s[0], tail[j]) {
        assert tail[j] in multiset(tail);
        assert tail[j] == x || tail[j] in s[1..];
      }
      AtMostTotal(s[0], s[0]);
    }
  }

  /** sort.Strings. */
  function SortStrings(s: seq<string>): (r: seq<string>)
    ensures multiset(r) == multiset(s)
  {
    if s == [] then []
    else
      assert s == [s[0]] + s[1..];
      Insert(s[0], SortStrings(s[1..]))
  }

  lemma {:induction false} SortStringsSorted(s: seq<string>)
    ensures Sorted(SortStrings(s))
    ensures forall x :: x in SortStrings(s) <==> x in s
  {
    if s != [] {
      SortStringsSorted(s[1..]);
      InsertSorted(s[0], SortStrings(s[1..]));
    }
    forall x ensures x in SortStrings(s) <==> x in s {
      assert x in multiset(SortStrings(s)) <==> x in multiset(s);
    }
  }

  // ---------------------------------------------------------------- subtrees

  /** b is a or lies below it: equal, or a followed by a dot is a prefix of b. */
  predicate Covers(a: string, b: string) { a + "." <= b + "." }

  lemma CoversMeans(a: string, b: string)
    ensures Covers(a, b) <==> a == b || a + "." <= b
  {
    if a + "." <= b + "." {
      if |a| == |b| {
        assert (a + ".")[..|a|] == a && (b + ".")[..|b|] == b;
      } else {
        assert a + "." == (b + ".")[..|a| + 1] == b[..|a| + 1];
      }
    }
    if a + "." <= b {
      assert (b + ".")[..|a| + 1] == b[..|a| + 1];
    }
  }

  lemma CoversTransitive(a: string, b: string, c: string)
    requires Covers(a, b) && Covers(b, c)
    ensures Covers(a, c)
  {}

  lemma CoversAtMost(a: string, b: string)
    requires Covers(a, b)
    ensures AtMost(a, b)
  {
    CoversMeans(a, b);
    if a + "." <= b { assert a == b[..|a|]; }
    PrefixAtMost(a, b);
  }

  /** No character sorts below the dot: true of digits, dots and letters. */
  predicate NothingBelowDot(s: string) { forall i :: 0 <= i < |s| ==> s[i] >= '.' }

  /** A subtree is one contiguous block of the sorted list, right after its root. */
  lemma {:induction false} SubtreeContiguous(a: string, b: string, c: string)
    requires AtMost(a, b) && AtMost(b, c) && Covers(a, c) && NothingBelowDot(b)
    ensures Covers(a, b)
  {
    if a == [] {
      assert (c + ".")[0] == '.';
      if b != [] { assert b[0] == '.'; }
    } else {
      assert (a + ".")[0] == a[0] && (c + ".")[0] == a[0];
      assert (a + ".")[1..] == a[1..] + "." && (c + ".")[1..] == c[1..] + "." && (b + ".")[1..] == b[1..] + ".";
      SubtreeContiguous(a[1..], b[1..], c[1..]);
      assert a + "." == [a[0]] + (a[1..] + ".") && b + "." == [b[0]] + (b[1..] + ".");
    }
  }

  /** A member that no other member covers. */
  ghost predicate Outermost(oids: seq<string>, x: string) {
    x in oids && forall y :: y in oids && Covers(y, x) ==> y == x
  }

  predicate Increasing(s: seq<string>) { forall i, j :: 0 <= i < j < |s| ==> AtMost(s[i], s[j]) && s[i] != s[j] }

  /** The outcome of the reduction: the outermost members, each once, in order. */
  ghost predicate IsMinimized(oids: seq<string>, r: seq<string>) {
    Increasing(r) && forall x :: x in r <==> Outermost(oids, x)
  }

  /** The sweep over the sorted list: keep what the last kept OID does not cover. */
  function Sweep(s: seq<string>): (kept: seq<string>)
    ensures s != [] ==> kept != []
    ensures forall x :: x in kept ==> x in s
  {
    if s == [] then []
    else
      var n := |s| - 1;
      var kept := Sweep(s[..n]);
      if kept != [] && Covers(kept[|kept| - 1], s[n]) then kept else kept + [s[n]]
  }

  /** minimizeOids. */
  method MinimizeOids(oids: seq<string>) returns (minimized: seq<string>)
    ensures minimized == Sweep(SortStrings(oids))
    ensures IsMinimized(oids, minimized) <==> Contiguous(SortStrings(oids))
    ensures (forall x :: x in oids ==> NothingBelowDot(x)) ==> IsMinimized(oids, minimized)
  {
    hide SortStrings, IsMinimized, Contiguous, NothingBelowDot;
    var sorted := SortStrings(oids);
    var prevOid := "";
    minimized := [];
    for i := 0 to |sorted|
      invariant minimized == Sweep(sorted[..i])
      invariant prevOid == if i == 0 then "" else minimized[|minimized| - 1] + "."
    {
      assert sorted[..i + 1][..i] == sorted[..i];
      if !(prevOid <= sorted[i] + ".") || prevOid == "" {
        minimized := minimized + [sorted[i]];
        prevOid := sorted[i] + ".";
      }
    }
    assert sorted[..|sorted|] == sorted;
    SortedSweep(oids);
  }

  lemma SortedSweep(oids: seq<string>)
    ensures IsMinimized(oids, Sweep(SortStrings(oids))) <==> Contiguous(SortStrings(oids))
    ensures (forall x :: x in oids ==> NothingBelowDot(x)) ==> Contiguous(SortStrings(oids))
  {
    var sorted := SortStrings(oids);
    SortStringsSorted(oids);
    hide SortStrings, Sweep, Covers, NothingBelowDot, Contiguous, Sorted;
    SweepMinimizesExactly(sorted);
    assert forall x :: Outermost(oids, x) <==> Outermost(sorted, x);
    if forall x :: x in oids ==> NothingBelowDot(x) {
      SweepMinimizes(sorted);
    }
  }

  lemma CoversItself(x: string)
    ensures Covers(x, x) && AtMost(x, x)
  {}

  /** The subtree of an outermost member is not interrupted. */
  ghost predicate Contiguous(s: seq<string>) {
    forall i, j, k :: 0 <= i <= j <= k < |s| && Outermost(s, s[i]) && Covers(s[i], s[k]) ==> Covers(s[i], s[j])
  }

  /** Two OIDs above a third lie on one line. */
  lemma Comparable(a: string, b: string, x: string)
    requires Covers(a, x) && Covers(b, x)
    ensures Covers(a, b) || Covers(b, a)
  {
    if |a| <= |b| {
      assert a + "." == (x + ".")[..|a| + 1] == (b + ".")[..|a| + 1];
    } else {
      assert b + "." == (x + ".")[..|b| + 1] == (a + ".")[..|b| + 1];
    }
  }

  lemma OutermostAbove(s: seq<string>, a: string, b: string, x: string)
    requires Outermost(s, a) && Outermost(s, b) && Covers(a, x) && Covers(b, x)
    ensures a == b
  {
    Comparable(a, b, x);
  }

  /** The last OID kept, its place, and that it covers everything from there on. */
  lemma {:induction false} SweepLast(s: seq<string>) returns (p: nat)
    requires s != []
    ensures p < |s| && Sweep(s)[|Sweep(s)| - 1] == s[p]
    ensures forall q :: p <= q < |s| ==> Covers(s[p], s[q])
  {
    var n := |s| - 1;
    CoversItself(s[n]);
    var kept := Sweep(s[..n]);
    if kept != [] && Covers(kept[|kept| - 1], s[n]) {
      p := SweepLast(s[..n]);
    } else {
      p := n;
    }
  }

  lemma {:induction false} SweepMonotone(s: seq<string>, n: nat)
    requires n <= |s|
    ensures Sweep(s[..n]) <= Sweep(s)
  {
    if n < |s| {
      SweepMonotone(s[..|s| - 1], n);
      assert s[..|s| - 1][..n] == s[..n];
    } else {
      assert s[..n] == s;
    }
  }

  lemma KeptOutermostMeansContiguous(s: seq<string>)
    requires Sorted(s) && forall x :: x in Sweep(s) ==> Outermost(s, x)
    ensures Contiguous(s)
  {
    hide Outermost, Covers, AtMost, Sweep;
    forall i, j, k | 0 <= i <= j <= k < |s| && Outermost(s, s[i]) && Covers(s[i], s[k]) ensures Covers(s[i], s[j]) {
      var t := s[..k + 1];
      var p := SweepLast(t);
      SweepMonotone(s, k + 1);
      assert t[p] in Sweep(s);
      assert Covers(t[p], t[k]);
      OutermostAbove(s, s[i], s[p], s[k]);
      if j < p {
        AtMostAntisymmetric(s[i], s[j]);
        CoversItself(s[i]);
      } else {
        assert Covers(t[p], t[j]);
      }
    }
  }

  /** What lies above a member stands before it, so later members do not matter. */
  lemma OutermostInFront(s: seq<string>, n: nat, x: string)
    requires Sorted(s) && n <= |s| && x in s[..n]
    ensures Outermost(s[..n], x) <==> Outermost(s, x)
  {
    if Outermost(s[..n], x) {
      forall y | y in s && Covers(y, x) ensures y == x {
        var i :| 0 <= i < n && s[i] == x;
        var j :| 0 <= j < |s| && s[j] == y;
        if j >= n {
          CoversAtMost(y, x);
          AtMostAntisymmetric(x, y);
        } else {
          assert s[..n][j] == y;
        }
      }
    }
  }

  /** In a contiguous list, what the last kept OID does not cover is new and outermost. */
  lemma NewIsOutermost(s: seq<string>, kept: seq<string>)
    requires s != [] && Sorted(s) && Contiguous(s)
    requires kept != [] && IsMinimized(s[..|s| - 1], kept) && !Covers(kept[|kept| - 1], s[|s| - 1])
    ensures s[|s| - 1] !in kept && Outermost(s, s[|s| - 1])
  {
    hide Covers, AtMost;
    var n := |s| - 1;
    var front, x, last := s[..n], s[n], kept[|kept| - 1];
    CoversItself(x);
    forall y | y in front ensures !Covers(y, x) {
      if Covers(y, x) {
        MinimizedCovers(front, kept, y);
        var o :| o in kept && Covers(o, y);
        CoversTransitive(o, y, x);
        LastIsCovered(s, kept, o);
      }
    }
    assert x !in front;
    forall y | y in s && Covers(y, x) ensures y == x {
      assert y in front || y == x;
    }
  }

  lemma LastIsCovered(s: seq<string>, kept: seq<string>, o: string)
    requires s != [] && Sorted(s) && Contiguous(s) && kept != [] && IsMinimized(s[..|s| - 1], kept)
    requires o in kept && Covers(o, s[|s| - 1])
    ensures o == kept[|kept| - 1]
  {
    hide Covers, AtMost;
    var n := |s| - 1;
    var front, last := s[..n], kept[|kept| - 1];
    assert last in kept && Outermost(front, o) && Outermost(front, last);
    OutermostInFront(s, n, o);
    var i :| 0 <= i < n && s[i] == o;
    var j :| 0 <= j < n && s[j] == last;
    if i <= j {
      assert Covers(s[i], s[j]);
    } else if o != last {
      assert AtMost(o, last) && AtMost(last, o);
      AtMostAntisymmetric(o, last);
    }
  }

  lemma {:induction false} ContiguousMinimizes(s: seq<string>)
    requires Sorted(s) && Contiguous(s)
    ensures IsMinimized(s, Sweep(s))
  {
    if s != [] {
      hide Covers, AtMost, Outermost;
      var n := |s| - 1;
      var front := s[..n];
      forall y | y in front ensures Outermost(front, y) <==> Outermost(s, y) { OutermostInFront(s, n, y); }
      assert Contiguous(front) by {
        forall i, j, k | 0 <= i <= j <= k < n && Outermost(front, front[i]) && Covers(front[i], front[k])
          ensures Covers(front[i], front[j]) { assert Covers(s[i], s[j]); }
      }
      ContiguousMinimizes(front);
      AddOne(s, Sweep(front));
    }
  }

  lemma AddOne(s: seq<string>, kept: seq<string>)
    requires s != [] && Sorted(s) && Contiguous(s) && kept == Sweep(s[..|s| - 1])
    requires IsMinimized(s[..|s| - 1], kept)
    requires forall y :: y in s[..|s| - 1] ==> (Outermost(s[..|s| - 1], y) <==> Outermost(s, y))
    ensures IsMinimized(s, Sweep(s))
  {
    SweepStep(s);
    hide IsMinimized, AtMost, Outermost, Covers, Contiguous, Sorted, Sweep;
    if kept == [] {
      assert s == [s[0]];
      OnlyIsMinimized(s[0]);
    } else if Covers(kept[|kept| - 1], s[|s| - 1]) {
      CoveredAddsNothing(s, kept);
    } else {
      NewIsAdded(s, kept);
    }
  }

  lemma SweepStep(s: seq<string>)
    requires s != []
    ensures var n := |s| - 1;
            var kept := Sweep(s[..n]);
            && (kept == [] ==> n == 0)
            && Sweep(s) == if kept != [] && Covers(kept[|kept| - 1], s[n]) then kept else kept + [s[n]]
  {}

  lemma OnlyIsMinimized(x: string)
    ensures IsMinimized([x], [x])
  {
    CoversItself(x);
  }

  lemma NewIsAdded(s: seq<string>, kept: seq<string>)
    requires s != [] && Sorted(s) && Contiguous(s) && kept != [] && kept == Sweep(s[..|s| - 1])
    requires IsMinimized(s[..|s| - 1], kept) && !Covers(kept[|kept| - 1], s[|s| - 1])
    requires forall y :: y in s[..|s| - 1] ==> (Outermost(s[..|s| - 1], y) <==> Outermost(s, y))
    ensures IsMinimized(s, kept + [s[|s| - 1]])
  {
    hide AtMost, Outermost, Covers, Contiguous, Sweep;
    var n := |s| - 1;
    NewIsOutermost(s, kept);
    OutermostIsMember(s);
    assert forall y :: y in s <==> y == s[n] || y in s[..n];
    forall i | 0 <= i < |kept| ensures AtMost(kept[i], s[n]) && kept[i] != s[n] {
      assert kept[i] in s[..n];
    }
    OutermostIsMember(s[..n]);
  }

  lemma OutermostIsMember(s: seq<string>)
    ensures forall y :: Outermost(s, y) ==> y in s
  {}

  lemma CoveredAddsNothing(s: seq<string>, kept: seq<string>)
    requires s != [] && kept != [] && IsMinimized(s[..|s| - 1], kept) && Covers(kept[|kept| - 1], s[|s| - 1])
    requires forall y :: y in s[..|s| - 1] ==> (Outermost(s[..|s| - 1], y) <==> Outermost(s, y))
    ensures IsMinimized(s, kept)
  {
    hide AtMost, Covers;
    var front, x, last := s[..|s| - 1], s[|s| - 1], kept[|kept| - 1];
    assert last in kept && last in front;
    assert forall y :: y in s <==> y == x || y in front;
  }

  /** The sweep over a sorted list is right exactly when no outermost subtree is interrupted ... */
  lemma SweepMinimizesExactly(s: seq<string>)
    requires Sorted(s)
    ensures IsMinimized(s, Sweep(s)) <==> Contiguous(s)
  {
    hide Sorted, Sweep, Contiguous;
    if IsMinimized(s, Sweep(s)) { KeptOutermostMeansContiguous(s); }
    if Contiguous(s) { ContiguousMinimizes(s); }
  }

  /** ... which none is when no character sorts below the dot. */
  lemma SweepMinimizes(s: seq<string>)
    requires Sorted(s) && forall x :: x in s ==> NothingBelowDot(x)
    ensures IsMinimized(s, Sweep(s)) && Contiguous(s)
  {
    forall i, j, k | 0 <= i <= j <= k < |s| && Outermost(s, s[i]) && Covers(s[i], s[k]) ensures Covers(s[i], s[j]) {
      SubtreeContiguous(s[i], s[j], s[k]);
    }
    SweepMinimizesExactly(s);
  }

  /** Every input is covered by an output. */
  lemma MinimizedCovers(oids: seq<string>, r: seq<string>, x: string)
    requires IsMinimized(oids, r) && x in oids
    ensures exists k :: k in r && Covers(k, x)
    decreases |x|
  {
    if !Outermost(oids, x) {
      var y :| y in oids && Covers(y, x) && y != x;
      CoversMeans(y, x);
      MinimizedCovers(oids, r, y);
      var k :| k in r && Covers(k, y);
      CoversTransitive(k, y, x);
    }
  }

  /** The outcome depends only on which OIDs are in the input, not on their order or repetition. */
  lemma MinimizedUnique(oids: seq<string>, r: seq<string>, oids': seq<string>, r': seq<string>)
    requires IsMinimized(oids, r) && IsMinimized(oids', r')
    requires forall x :: x in oids <==> x in oids'
    ensures r == r'
  {
    forall x ensures x in r <==> x in r' {
      assert Outermost(oids, x) <==> Outermost(oids', x);
    }
    IncreasingUnique(r, r');
  }

  lemma {:induction false} IncreasingUnique(a: seq<string>, b: seq<string>)
    requires Increasing(a) && Increasing(b) && forall x :: x in a <==> x in b
    ensures a == b
  {
    assert |a| > 0 ==> exists x :: x in a by { if |a| > 0 { assert a[0] in a; } }
    assert |b| > 0 ==> exists x :: x in b by { if |b| > 0 { assert b[0] in b; } }
    if a != [] && b != [] {
      assert a[0] in b && b[0] in a;
      var i :| 0 <= i < |b| && b[i] == a[0];
      var j :| 0 <= j < |a| && a[j] == b[0];
      if i > 0 && j > 0 {
        AtMostAntisymmetric(a[0], b[0]);
      }
      assert a[0] == b[0];
      forall x ensures x in a[1..] <==> x in b[1..] {
        assert x in a <==> x == a[0] || x in a[1..];
        assert x in b <==> x == b[0] || x in b[1..];
      }
      IncreasingUnique(a[1..], b[1..]);
      assert a == [a[0]] + a[1..] && b == [b[0]] + b[1..];
    }
  }

  /** The dot sorting lowest matters: with a character below it, an instance below another one is kept. */
  lemma LowCharacterDefeatsSweep(c: string)
    ensures var s := [c + ".5", c + ".5-x", c + ".5.7"];
            Sorted(s) && Sweep(s) == s && Covers(s[0], s[2]) && !Contiguous(s)
  {
    var s := [c + ".5", c + ".5-x", c + ".5.7"];
    LowThree(c);
    SweepThree(s);
    hide Covers, AtMost, Sweep;
    if Contiguous(s) { ContiguousMinimizes(s); }
  }

  lemma LowThree(c: string)
    ensures var a, b, d := c + ".5", c + ".5-x", c + ".5.7";
            Sorted([a, b, d]) && !Covers(a, b) && !Covers(b, d) && Covers(a, d) && a != d
  {
    var a, b, d := c + ".5", c + ".5-x", c + ".5.7";
    LowOrder(c, ".5", ".5-x");
    LowOrder(c, ".5-x", ".5.7");
    AtMostTransitive(a, b, d);
    CoversItself(a);
    CoversItself(b);
    CoversItself(d);
    hide AtMost;
    assert (a + ".")[|c| + 2] == '.' && (b + ".")[|c| + 2] == '-' && (d + ".")[|c| + 2] == '.';
    assert d + "." == a + "." + "7.";
  }

  lemma SweepThree(s: seq<string>)
    requires |s| == 3 && !Covers(s[0], s[1]) && !Covers(s[1], s[2])
    ensures Sweep(s) == s
  {
    hide Covers;
    assert Sweep(s[..1]) == s[..1] by { assert s[..1][..0] == []; }
    assert Sweep(s[..2]) == s[..2] by { assert s[..2][..1] == s[..1]; }
    assert s[..2] + [s[2]] == s;
  }

  lemma {:induction false} LowOrder(c: string, a: string, b: string)
    requires AtMost(a, b)
    ensures AtMost(c + a, c + b)
  {
    if c == [] {
      assert c + a == a && c + b == b;
    } else {
      LowOrder(c[1..], a, b);
      assert (c + a)[1..] == c[1..] + a && (c + b)[1..] == c[1..] + b;
    }
  }
}
