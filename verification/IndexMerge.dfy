/** The generator turns an address type index followed by an address index into one address index,
    because the collector decodes the two together.  What this does to the decoder's position. */
module IndexMerge {
  import opened Text
  import opened Config
  import opened IndexCodec

  /** An index object of a table entry: how it would be decoded, and its textual convention. */
  datatype Entry = Entry(index: Index, convention: string)

  /** combinedTypes: the convention an index of this type must follow. */
  function Subtype(t: Type): Option<string> {
    if t == InetAddress || t == InetAddressMissingSize then Some("InetAddressType")
    else if t == LldpPortId then Some("LldpPortIdSubtype")
    else None
  }

  /** The list built, or the metric given up with a warning, or a slice with a negative bound. */
  datatype Outcome = Merged(indexes: seq<Index>) | Dropped | Panics

  /** One index: append it, replacing the type index before it, or that and the one between. */
  function MergeStep(acc: seq<Index>, prev: string, prev2: string, e: Entry): Outcome {
    match Subtype(e.index.typ)
    case None => Merged(acc + [e.index])
    case Some(needed) =>
      if needed == prev then (if |acc| < 1 then Panics else Merged(acc[..|acc| - 1] + [e.index]))
      else if needed == prev2 then (if |acc| < 2 then Panics else Merged(acc[..|acc| - 2] + [e.index]))
      else Dropped
  }

  function MergeFrom(acc: seq<Index>, prev: string, prev2: string, es: seq<Entry>): Outcome
    decreases |es|
  {
    if es == [] then Merged(acc)
    else match MergeStep(acc, prev, prev2, es[0])
      case Merged(next) => MergeFrom(next, es[0].convention, prev, es[1..])
      case other => other
  }

  /** The index loop of generateConfigModule. */
  method MergeIndexes(es: seq<Entry>) returns (o: Outcome)
    ensures o == MergeFrom([], "", "", es)
  {
    var prevType, prev2Type, indexes := "", "", [];
    for i := 0 to |es|
      invariant MergeFrom(indexes, prevType, prev2Type, es[i..]) == MergeFrom([], "", "", es)
    {
      assert es[i..][1..] == es[i + 1..];
      var step := MergeStep(indexes, prevType, prev2Type, es[i]);
      if !step.Merged? {
        return step;
      }
      indexes := step.indexes;
      prev2Type := prevType;
      prevType := es[i].convention;
    }
    o := Merged(indexes);
  }

  /** Every combined index directly follows its own type index. */
  predicate Adjacent(es: seq<Entry>) { forall i :: 0 <= i < |es| ==> FollowsItsType(es, i) }

  predicate FollowsItsType(es: seq<Entry>, i: nat)
    requires i < |es|
  {
    Subtype(es[i].index.typ).Some? ==>
      i > 0 && es[i - 1].convention == Subtype(es[i].index.typ).value && Subtype(es[i - 1].index.typ).None?
  }

  predicate StartsPair(es: seq<Entry>) { |es| >= 2 && Subtype(es[1].index.typ).Some? }

  /** The list with every type index absorbed by the address index after it. */
  function Paired(es: seq<Entry>): seq<Index>
    decreases |es|
  {
    if es == [] then []
    else if StartsPair(es) then [es[1].index] + Paired(es[2..])
    else [es[0].index] + Paired(es[1..])
  }

  lemma {:induction false} MergePairs(acc: seq<Index>, prev: string, prev2: string, es: seq<Entry>)
    requires Adjacent(es)
    ensures MergeFrom(acc, prev, prev2, es) == Merged(acc + Paired(es))
    decreases |es|
  {
    hide Subtype, Adjacent, MergeFrom, Paired, MergeStep;
    PairedStep(es);
    if es == [] {
      NothingToMerge(acc, prev, prev2);
    } else if StartsPair(es) {
      PairAbsorbed(acc, prev, prev2, es);
      TailAdjacent(es, 2);
      MergePairs(acc + [es[1].index], es[1].convention, es[0].convention, es[2..]);
      assert acc + [es[1].index] + Paired(es[2..]) == acc + ([es[1].index] + Paired(es[2..]));
    } else {
      PlainAppended(acc, prev, prev2, es);
      TailAdjacent(es, 1);
      MergePairs(acc + [es[0].index], es[0].convention, prev, es[1..]);
      assert acc + [es[0].index] + Paired(es[1..]) == acc + ([es[0].index] + Paired(es[1..]));
    }
  }

  lemma PairedStep(es: seq<Entry>)
    ensures es == [] ==> Paired(es) == []
    ensures es != [] && StartsPair(es) ==> Paired(es) == [es[1].index] + Paired(es[2..])
    ensures es != [] && !StartsPair(es) ==> Paired(es) == [es[0].index] + Paired(es[1..])
  {}

  lemma NothingToMerge(acc: seq<Index>, prev: string, prev2: string)
    ensures MergeFrom(acc, prev, prev2, []) == Merged(acc + [])
  {}

  lemma PlainAppended(acc: seq<Index>, prev: string, prev2: string, es: seq<Entry>)
    requires Adjacent(es) && es != []
    ensures MergeFrom(acc, prev, prev2, es) == MergeFrom(acc + [es[0].index], es[0].convention, prev, es[1..])
  {
    FirstIsPlain(es);
  }

  lemma PairAbsorbed(acc: seq<Index>, prev: string, prev2: string, es: seq<Entry>)
    requires Adjacent(es) && StartsPair(es)
    ensures MergeFrom(acc, prev, prev2, es)
            == MergeFrom(acc + [es[1].index], es[1].convention, es[0].convention, es[2..])
  {
    FirstIsPlain(es);
    assert FollowsItsType(es, 1);
    var absorbed := acc + [es[0].index];
    assert absorbed[..|absorbed| - 1] == acc;
    assert es[1..][0] == es[1] && es[1..][1..] == es[2..];
  }

  lemma FirstIsPlain(es: seq<Entry>)
    requires Adjacent(es) && es != []
    ensures Subtype(es[0].index.typ).None?
  {
    assert FollowsItsType(es, 0);
  }

  lemma TailAdjacent(es: seq<Entry>, k: nat)
    requires Adjacent(es) && (k == 1 || k == 2) && k <= |es|
    requires (k == 1 ==> !StartsPair(es)) && (k == 2 ==> StartsPair(es))
    ensures Adjacent(es[k..])
  {
    var tail := es[k..];
    assert k < |es| ==> FollowsItsType(es, k);
    forall i | 0 <= i < |tail| ensures FollowsItsType(tail, i) {
      assert FollowsItsType(es, i + k);
    }
  }

  lemma {:induction false} PairedShrinks(es: seq<Entry>)
    requires es != []
    ensures |Paired(es[1..])| <= |Paired(es)|
    decreases |es|
  {
    if StartsPair(es) {
      assert es[1..][1..] == es[2..];
      if StartsPair(es[1..]) {
        assert es[2..][1..] == es[3..] == es[1..][2..];
        PairedShrinks(es[2..]);
      }
    }
  }

  /** A merge never has more indexes than pairing gives, and fewer once an address comes without its own type. */
  lemma {:induction false} MergeNoLonger(acc: seq<Index>, prev: string, prev2: string, es: seq<Entry>)
    requires MergeFrom(acc, prev, prev2, es).Merged?
    ensures |MergeFrom(acc, prev, prev2, es).indexes| <= |acc| + |Paired(es)|
    ensures es != [] && Subtype(es[0].index.typ).Some? ==>
            |MergeFrom(acc, prev, prev2, es).indexes| < |acc| + |Paired(es)|
    decreases |es|
  {
    hide Subtype;
    if es != [] {
      var next := MergeStep(acc, prev, prev2, es[0]).indexes;
      MergeNoLonger(next, es[0].convention, prev, es[1..]);
      PairedShrinks(es);
    }
  }

  lemma {:induction false} PairingMeansAdjacent(acc: seq<Index>, prev: string, prev2: string, es: seq<Entry>)
    requires MergeFrom(acc, prev, prev2, es) == Merged(acc + Paired(es))
    ensures Adjacent(es)
    decreases |es|
  {
    hide Subtype;
    if es != [] {
      MergeNoLonger(acc, prev, prev2, es);
      var plain := acc + [es[0].index];
      if StartsPair(es) {
        PairTaken(acc, prev, prev2, es);
        PairingMeansAdjacent(acc + [es[1].index], es[1].convention, es[0].convention, es[2..]);
        WholeAdjacent(es, 2);
      } else {
        assert acc + Paired(es) == plain + Paired(es[1..]);
        PairingMeansAdjacent(plain, es[0].convention, prev, es[1..]);
        WholeAdjacent(es, 1);
      }
    }
  }

  lemma PairTaken(acc: seq<Index>, prev: string, prev2: string, es: seq<Entry>)
    requires MergeFrom(acc, prev, prev2, es) == Merged(acc + Paired(es))
    requires StartsPair(es) && Subtype(es[0].index.typ).None?
    ensures es[0].convention == Subtype(es[1].index.typ).value
    ensures var next := acc + [es[1].index];
            MergeFrom(next, es[1].convention, es[0].convention, es[2..]) == Merged(next + Paired(es[2..]))
  {
    TwoSteps(acc, prev, prev2, es);
    PairedStep(es);
    hide MergeFrom, Paired;
    var plain, pair := acc + [es[0].index], acc + [es[1].index];
    assert plain[..|plain| - 1] == acc;
    assert acc + Paired(es) == pair + Paired(es[2..]);
    var step := MergeStep(plain, es[0].convention, prev, es[1]);
    assert step.Merged?;
    MergeNoLonger(step.indexes, es[1].convention, es[0].convention, es[2..]);
  }

  lemma TwoSteps(acc: seq<Index>, prev: string, prev2: string, es: seq<Entry>)
    requires |es| >= 2 && Subtype(es[0].index.typ).None?
    ensures MergeFrom(acc, prev, prev2, es)
            == match MergeStep(acc + [es[0].index], es[0].convention, prev, es[1])
               case Merged(next) => MergeFrom(next, es[1].convention, es[0].convention, es[2..])
               case other => other
  {
    hide Subtype;
    assert es[1..][0] == es[1] && es[1..][1..] == es[2..];
    assert MergeStep(acc, prev, prev2, es[0]) == Merged(acc + [es[0].index]);
  }

  lemma WholeAdjacent(es: seq<Entry>, k: nat)
    requires (k == 1 || k == 2) && k <= |es| && Subtype(es[0].index.typ).None? && Adjacent(es[k..])
    requires k == 2 ==> FollowsItsType(es, 1)
    ensures Adjacent(es)
  {
    forall i | 0 <= i < |es| ensures FollowsItsType(es, i) {
      if i >= k { assert FollowsItsType(es[k..], i - k); }
    }
  }

  /** The merge absorbs every type index into the address after it, and nothing else, exactly when every address
      directly follows its own type. */
  lemma MergeIsPairing(es: seq<Entry>)
    ensures MergeFrom([], "", "", es) == Merged(Paired(es)) <==> Adjacent(es)
  {
    var none: seq<Index> := [];
    assert none + Paired(es) == Paired(es);
    if Adjacent(es) { MergePairs([], "", "", es); }
    if MergeFrom([], "", "", es) == Merged(Paired(es)) { PairingMeansAdjacent([], "", "", es); }
  }

  // ---------------------------------------------------------------- how else a merge can end

  /** What an index does to the list before it. */
  datatype Role = Plain | AbsorbsOne | AbsorbsTwo | TypeMissing

  function RoleOf(es: seq<Entry>, i: nat): Role
    requires i < |es|
  {
    match Subtype(es[i].index.typ)
    case None => Plain
    case Some(needed) =>
      if i >= 1 && es[i - 1].convention == needed then AbsorbsOne
      else if i >= 2 && es[i - 2].convention == needed then AbsorbsTwo
      else TypeMissing
  }

  /** Plain indexes less the ones swallowed two back, among the first n. */
  function Length(es: seq<Entry>, n: nat): int
    requires n <= |es|
  {
    if n == 0 then 0
    else Length(es, n - 1) + match RoleOf(es, n - 1) case Plain => 1 case AbsorbsTwo => -1 case _ => 0
  }

  predicate RunsOff(es: seq<Entry>, i: nat)
    requires i < |es|
  {
    RoleOf(es, i) == AbsorbsTwo && Length(es, i) < 2
  }

  predicate Passes(es: seq<Entry>, n: nat)
    requires n <= |es|
  {
    forall i :: 0 <= i < n ==> RoleOf(es, i) != TypeMissing && !RunsOff(es, i)
  }

  function Back(es: seq<Entry>, i: nat, k: nat): string
    requires i <= |es|
  {
    if i < k || k == 0 then "" else es[i - k].convention
  }

  /** An address that takes two indexes when only one is there, with nothing wrong before it. */
  ghost predicate SlicesBelowZero(es: seq<Entry>) {
    exists n: nat :: n < |es| && Passes(es, n) && RunsOff(es, n)
  }

  lemma StepRole(acc: seq<Index>, es: seq<Entry>, i: nat)
    requires i < |es| && (i > 0 ==> acc != [])
    ensures var step := MergeStep(acc, Back(es, i, 1), Back(es, i, 2), es[i]);
            (step.Merged? ==> step.indexes != []) &&
            match RoleOf(es, i)
            case Plain => step.Merged? && |step.indexes| == |acc| + 1
            case AbsorbsOne => step.Merged? && |step.indexes| == |acc|
            case AbsorbsTwo => if |acc| < 2 then step == Panics else step.Merged? && |step.indexes| == |acc| - 1
            case TypeMissing => step == Dropped
  {}

  lemma StopsHere(es: seq<Entry>, i: nat)
    requires i < |es| && Passes(es, i) && (RoleOf(es, i) == TypeMissing || RunsOff(es, i))
    ensures !Passes(es, |es|) && (SlicesBelowZero(es) <==> RunsOff(es, i))
  {
    hide RoleOf, RunsOff;
  }

  lemma {:induction false} MergeEnds(acc: seq<Index>, es: seq<Entry>, i: nat)
    requires i <= |es| && |acc| == Length(es, i) && Passes(es, i) && (i > 0 ==> acc != [])
    ensures var o := MergeFrom(acc, Back(es, i, 1), Back(es, i, 2), es[i..]);
            && (o.Merged? <==> Passes(es, |es|))
            && (o.Merged? ==> |o.indexes| == Length(es, |es|))
            && (o.Panics? <==> SlicesBelowZero(es))
    decreases |es| - i
  {
    hide RoleOf, MergeStep;
    if i == |es| {
      assert !SlicesBelowZero(es) by { hide RunsOff; }
    } else {
      hide SlicesBelowZero;
      assert es[i..][0] == es[i] && es[i..][1..] == es[i + 1..];
      StepRole(acc, es, i);
      var step := MergeStep(acc, Back(es, i, 1), Back(es, i, 2), es[i]);
      if step.Merged? {
        assert Passes(es, i + 1);
        MergeEnds(step.indexes, es, i + 1);
      } else {
        StopsHere(es, i);
      }
    }
  }

  /** How many indexes before it an index takes the place of. */
  function Drops(role: Role): nat {
    match role
    case AbsorbsOne => 1
    case AbsorbsTwo => 2
    case _ => 0
  }

  /** Which of the first n indexes are in the list built from them: each new one, at the end, and of those before it all
      but the last ones it takes the place of. */
  function Survivors(es: seq<Entry>, n: nat): (at: seq<nat>)
    requires n <= |es|
    ensures forall k :: 0 <= k < |at| ==> at[k] < n
    ensures forall j, k :: 0 <= j < k < |at| ==> at[j] < at[k]
    ensures n > 0 ==> at != [] && at[|at| - 1] == n - 1
  {
    if n == 0 then []
    else
      var before := Survivors(es, n - 1);
      before[..|before| - Min(Drops(RoleOf(es, n - 1)), |before|)] + [n - 1]
  }

  /** Position by position: of the indexes so far the k-th stays exactly when as many come after it as the new one
      drops. */
  lemma StaysExactly(es: seq<Entry>, n: nat, k: nat)
    requires n < |es| && k < |Survivors(es, n)|
    ensures Survivors(es, n)[k] in Survivors(es, n + 1) <==> k + Drops(RoleOf(es, n)) < |Survivors(es, n)|
    ensures k + Drops(RoleOf(es, n)) < |Survivors(es, n)| ==>
              k < |Survivors(es, n + 1)| && Survivors(es, n + 1)[k] == Survivors(es, n)[k]
  {
    hide RoleOf;
    var before := Survivors(es, n);
    var left := |before| - Min(Drops(RoleOf(es, n)), |before|);
    assert Survivors(es, n + 1) == before[..left] + [n];
    if before[k] in before[..left] {
      var j :| 0 <= j < left && before[j] == before[k];
      assert j == k;
    }
  }

  function IndexesAt(es: seq<Entry>, at: seq<nat>): (r: seq<Index>)
    requires forall k :: 0 <= k < |at| ==> at[k] < |es|
    ensures |r| == |at| && forall k :: 0 <= k < |r| ==> r[k] == es[at[k]].index
  {
    seq(|at|, k requires 0 <= k < |at| => es[at[k]].index)
  }

  lemma {:induction false} MergeKeeps(acc: seq<Index>, es: seq<Entry>, i: nat)
    requires i <= |es| && acc == IndexesAt(es, Survivors(es, i))
    ensures var o := MergeFrom(acc, Back(es, i, 1), Back(es, i, 2), es[i..]);
            o.Merged? ==> o.indexes == IndexesAt(es, Survivors(es, |es|))
    decreases |es| - i
  {
    hide RoleOf, MergeStep, Survivors;
    if i < |es| {
      assert es[i..][0] == es[i] && es[i..][1..] == es[i + 1..];
      var step := MergeStep(acc, Back(es, i, 1), Back(es, i, 2), es[i]);
      if step.Merged? {
        StepKeeps(acc, es, i);
        MergeKeeps(step.indexes, es, i + 1);
      }
    }
  }

  lemma StepKeeps(acc: seq<Index>, es: seq<Entry>, i: nat)
    requires i < |es| && acc == IndexesAt(es, Survivors(es, i))
    requires MergeStep(acc, Back(es, i, 1), Back(es, i, 2), es[i]).Merged?
    ensures MergeStep(acc, Back(es, i, 1), Back(es, i, 2), es[i]).indexes == IndexesAt(es, Survivors(es, i + 1))
  {
    hide RoleOf, MergeStep, Survivors, IndexesAt, Drops, Back;
    var before := Survivors(es, i);
    StepDrops(acc, es, i);
    SurvivorsNext(es, i);
    var left := |before| - Drops(RoleOf(es, i));
    IndexesOfKept(es, before, left, i);
  }

  lemma StepDrops(acc: seq<Index>, es: seq<Entry>, i: nat)
    requires i < |es|
    requires MergeStep(acc, Back(es, i, 1), Back(es, i, 2), es[i]).Merged?
    ensures var d := Drops(RoleOf(es, i));
            d <= |acc| && MergeStep(acc, Back(es, i, 1), Back(es, i, 2), es[i]).indexes
                == acc[..|acc| - d] + [es[i].index]
  {
    var d := Drops(RoleOf(es, i));
    if d == 0 { assert acc[..|acc| - d] == acc; }
  }

  lemma SurvivorsNext(es: seq<Entry>, i: nat)
    requires i < |es| && Drops(RoleOf(es, i)) <= |Survivors(es, i)|
    ensures var before := Survivors(es, i); Survivors(es, i + 1) == before[..|before| - Drops(RoleOf(es, i))] + [i]
  {
    hide RoleOf;
  }

  lemma IndexesOfKept(es: seq<Entry>, at: seq<nat>, left: nat, i: nat)
    requires i < |es| && left <= |at| && forall k :: 0 <= k < |at| ==> at[k] < |es|
    ensures IndexesAt(es, at[..left] + [i]) == IndexesAt(es, at)[..left] + [es[i].index]
  {}

  /** The list built consists of the survivors, in order. */
  lemma MergedIsSurvivors(es: seq<Entry>)
    ensures var o := MergeFrom([], "", "", es);
            o.Merged? ==> o.indexes == IndexesAt(es, Survivors(es, |es|))
  {
    assert es[0..] == es && IndexesAt(es, Survivors(es, 0)) == [];
    MergeKeeps([], es, 0);
  }

  /** The list is built exactly when no address lacks a type one or two back and none runs off the list; slicing below
      zero happens exactly at an address that takes two indexes when only one is there. */
  lemma MergeOutcome(es: seq<Entry>)
    ensures var o := MergeFrom([], "", "", es);
            && (o.Merged? <==> Passes(es, |es|))
            && (o.Merged? ==> |o.indexes| == Length(es, |es|))
            && (o.Panics? <==> SlicesBelowZero(es))
  {
    MergeEnds([], es, 0);
    assert es[0..] == es;
  }

  /** A type that needs one before it, and the convention that one must follow. */
  predicate NeedsBefore(t: Type, convention: string) {
    || ((t == InetAddress || t == InetAddressMissingSize) && convention == "InetAddressType")
    || (t == LldpPortId && convention == "LldpPortIdSubtype")
  }

  /** Looking back two indexes can run off the list: one type index serving two addresses makes the generator panic. */
  lemma SharedTypePanics(kind: Entry, address: Entry)
    requires (kind.index.typ == Integer || kind.index.typ == EnumAsInfo)
            && NeedsBefore(address.index.typ, kind.convention)
    requires !NeedsBefore(address.index.typ, address.convention)
    ensures MergeFrom([], "", "", [kind, address, address]) == Panics
  {
    var es := [kind, address, address];
    MergeOutcome(es);
    assert Length(es, 0) == 0 && Length(es, 1) == 1 && Length(es, 2) == 1;
    assert Passes(es, 2) && RunsOff(es, 2);
  }

  /** Looking back two indexes can also swallow an unrelated one: its label disappears from the metric. */
  lemma TypeTwoBackSwallowsIndex(kind: Entry, between: Entry, address: Entry)
    requires (kind.index.typ == Integer || kind.index.typ == EnumAsInfo)
            && NeedsBefore(address.index.typ, kind.convention)
    requires (between.index.typ == Integer || between.index.typ == EnumAsInfo)
            && !NeedsBefore(address.index.typ, between.convention)
    ensures MergeFrom([], "", "", [kind, between, address]) == Merged([address.index])
  {
    var es := [kind, between, address];
    assert RoleOf(es, 0) == Plain && RoleOf(es, 1) == Plain && RoleOf(es, 2) == AbsorbsTwo;
    hide RoleOf, MergeFrom, Passes, Length, Survivors, Subtype;
    LastTakesTwo(es);
    MergeOutcome(es);
    MergedIsSurvivors(es);
    assert IndexesAt(es, [2]) == [address.index];
  }

  lemma LastTakesTwo(es: seq<Entry>)
    requires |es| == 3 && RoleOf(es, 0) == Plain && RoleOf(es, 1) == Plain && RoleOf(es, 2) == AbsorbsTwo
    ensures Passes(es, 3) && Survivors(es, 3) == [2]
  {
    hide RoleOf;
    assert Length(es, 0) == 0 && Length(es, 1) == 1 && Length(es, 2) == 2;
    assert Survivors(es, 0) == [];
    SurvivorsNext(es, 0);
    SurvivorsNext(es, 1);
    SurvivorsNext(es, 2);
  }

  // ---------------------------------------------------------------- alignment with the decoder

  /** The address read as the MIB defines it: a string with its length in front. */
  function AsString(address: Index): Index { address.(typ := OctetString, fixedSize := 0, implied := false) }

  predicate IsTypeIndex(index: Index) { index.typ == Integer || index.typ == EnumAsInfo }

  predicate SizeMatches(kind: nat, size: nat) { (kind == 1 ==> size == 4) && (kind == 2 ==> size == 16) }

  /** The merged index uses the sub-identifiers of the type index and the address index after it, all of them and no
      more, exactly when the address has the size its type calls for; types without a size of their own always do. */
  lemma MergedUsesBoth(oid: SubIds, kind: Index, address: Index)
    requires IsTypeIndex(kind) && address.typ == InetAddress
    ensures var first := DecodeIndex(oid, kind).value;
            var second := DecodeIndex(first.remaining, AsString(address)).value;
            var merged := DecodeIndex(oid, address).value;
            var head := Split(oid, 2).0;
            && (|merged.used| == |first.used| + |second.used| <==> SizeMatches(head[0], head[1]))
            && (SizeMatches(head[0], head[1]) ==>
                  merged.used == first.used + second.used && merged.remaining == second.remaining)
  {
    hide DecodeIndex, Split;
    var (head, body) := Split(oid, 2);
    var (k, rest) := Split(oid, 1);
    var (len, body2) := Split(rest, 1);
    SplitChain(oid, 1, 1);
    var (content, after) := Split(body, len[0]);
    ReadType(oid, kind);
    ReadAsString(rest, address);
    ReadMerged(oid, address);
    SplitChain(oid, 2, len[0]);
    assert head == k + len && body == body2;
    assert k + (len + content) == head + content;
    assert head[0] == k[0] && head[1] == len[0];
  }

  /** Sizes can differ: an IPv4 address of two octets, say, makes the merged index use two sub-identifiers that
      follow. */
  lemma WrongSizeMisaligns(kind: Index, address: Index)
    requires IsTypeIndex(kind) && address.typ == InetAddress
    ensures var oid: SubIds := [1, 2, 10, 20, 7, 8];
            var first := DecodeIndex(oid, kind).value;
            var second := DecodeIndex(first.remaining, AsString(address)).value;
            |DecodeIndex(oid, address).value.used| != |first.used| + |second.used|
  {
    var oid: SubIds := [1, 2, 10, 20, 7, 8];
    MergedUsesBoth(oid, kind, address);
    hide DecodeIndex;
    assert Split(oid, 2).0 == [1, 2];
  }

  lemma ReadType(oid: SubIds, kind: Index)
    requires IsTypeIndex(kind)
    ensures var d := DecodeIndex(oid, kind);
            d.Some? && d.value.used == Split(oid, 1).0 && d.value.remaining == Split(oid, 1).1
  {}

  lemma ReadAsString(oid: SubIds, address: Index)
    ensures var (len, body) := Split(oid, 1);
            var (content, after) := Split(body, len[0]);
            var d := DecodeIndex(oid, AsString(address));
            d.Some? && d.value.used == len + content && d.value.remaining == after
  {}

  lemma ReadMerged(oid: SubIds, address: Index)
    requires address.typ == InetAddress
    ensures var (head, body) := Split(oid, 2);
            var d := DecodeIndex(oid, address);
            && d.Some?
            && (head[0] == 1 ==> d.value.used == head + Split(body, 4).0 && d.value.remaining == Split(body, 4).1)
            && (head[0] == 2 ==> d.value.used == head + Split(body, 16).0 && d.value.remaining == Split(body, 16).1)
            && (head[0] != 1 && head[0] != 2 ==>
                  d.value.used == Split(oid, head[1] + 2).0 && d.value.remaining == Split(oid, head[1] + 2).1)
  {}

  lemma SplitChain(oid: SubIds, a: nat, b: nat)
    ensures var (x, mid) := Split(oid, a);
            var (y, rest) := Split(mid, b);
            Split(oid, a + b) == (x + y, rest)
  {
    var (x, mid) := Split(oid, a);
    var (y, rest) := Split(mid, b);
    assert Split(oid, a + b).0 == x + y;
  }

  /** The indexes as the MIB lists them, every address read as a counted string. */
  function Unmerged(es: seq<Entry>): seq<Index>
    decreases |es|
  {
    if es == [] then []
    else if StartsPair(es) then [es[0].index, AsString(es[1].index)] + Unmerged(es[2..])
    else [es[0].index] + Unmerged(es[1..])
  }

  /** On this row every merged pair is an address type and an address of the size the type calls for. */
  predicate SizesFit(oid: SubIds, es: seq<Entry>)
    decreases |es|
  {
    if es == [] then true
    else if StartsPair(es) then
      && IsTypeIndex(es[0].index) && es[1].index.typ == InetAddress
      && SizeMatches(Split(oid, 2).0[0], Split(oid, 2).0[1])
      && (DecodeIndex(oid, es[1].index).Some? ==> SizesFit(DecodeIndex(oid, es[1].index).value.remaining, es[2..]))
    else DecodeIndex(oid, es[0].index).Some? ==> SizesFit(DecodeIndex(oid, es[0].index).value.remaining, es[1..])
  }

  /** The merge moves no later index: its list uses the same sub-identifiers as the MIB's list and leaves the same
      rest. */
  lemma MergeKeepsAlignment(oid: SubIds, es: seq<Entry>)
    requires Adjacent(es) && SizesFit(oid, es)
    ensures var o := MergeFrom([], "", "", es);
            && o.Merged?
            && var merged := DecodeAll(oid, o.indexes);
               var listed := DecodeAll(oid, Unmerged(es));
               && merged.Some? == listed.Some?
               && (merged.Some? ==>
                     merged.value.1 == listed.value.1 && UsedAll(merged.value.0) == UsedAll(listed.value.0))
  {
    hide DecodeAll, SizesFit, Adjacent;
    MergeIsPairing(es);
    PairedAligned(oid, es);
  }

  lemma {:induction false} PairedAligned(oid: SubIds, es: seq<Entry>)
    requires SizesFit(oid, es)
    ensures var merged := DecodeAll(oid, Paired(es));
            var listed := DecodeAll(oid, Unmerged(es));
            && merged.Some? == listed.Some?
            && (merged.Some? ==> merged.value.1 == listed.value.1 && UsedAll(merged.value.0) == UsedAll(listed.value.0))
    decreases |es|
  {
    hide DecodeIndex, Split;
    if es == [] {
    } else if StartsPair(es) {
      var kind, address := es[0].index, es[1].index;
      MergedUsesBoth(oid, kind, address);
      ReadType(oid, kind);
      var first := DecodeIndex(oid, kind).value;
      ReadAsString(first.remaining, address);
      ReadMerged(oid, address);
      var second := DecodeIndex(first.remaining, AsString(address)).value;
      PairedAligned(second.remaining, es[2..]);
      DecodeTwo(oid, kind, AsString(address), Unmerged(es[2..]), first, second);
      DecodeOne(oid, address, Paired(es[2..]), DecodeIndex(oid, address).value);
      assert [kind, AsString(address)] + Unmerged(es[2..]) == [kind] + ([AsString(address)] + Unmerged(es[2..]));
    } else if DecodeIndex(oid, es[0].index).Some? {
      var d := DecodeIndex(oid, es[0].index).value;
      PairedAligned(d.remaining, es[1..]);
      DecodeOne(oid, es[0].index, Paired(es[1..]), d);
      DecodeOne(oid, es[0].index, Unmerged(es[1..]), d);
    }
  }

  lemma DecodeOne(oid: SubIds, index: Index, indexes: seq<Index>, d: Decoded)
    requires DecodeIndex(oid, index) == Some(d)
    ensures var all := DecodeAll(oid, [index] + indexes);
            var tail := DecodeAll(d.remaining, indexes);
            && all.Some? == tail.Some?
            && (all.Some? ==> all.value.1 == tail.value.1 && UsedAll(all.value.0) == d.used + UsedAll(tail.value.0))
  {
    hide DecodeIndex;
    assert ([index] + indexes)[1..] == indexes;
  }

  lemma DecodeTwo(oid: SubIds, a: Index, b: Index, indexes: seq<Index>, first: Decoded, second: Decoded)
    requires DecodeIndex(oid, a) == Some(first) && DecodeIndex(first.remaining, b) == Some(second)
    ensures var all := DecodeAll(oid, [a] + ([b] + indexes));
            var tail := DecodeAll(second.remaining, indexes);
            && all.Some? == tail.Some?
            && (all.Some? ==>
                  && all.value.1 == tail.value.1
                  && UsedAll(all.value.0) == first.used + second.used + UsedAll(tail.value.0))
  {
    hide DecodeIndex, DecodeAll;
    DecodeOne(first.remaining, b, indexes, second);
    DecodeOne(oid, a, [b] + indexes, first);
  }
}
