/** ScrapeTarget: dynamic filters rewrite what is fetched, then the gets go out in batches and the walks follow. */
module ScrapePlan {
  import opened Text
  import opened OidSet
  import opened Lists

  /** What a returned variable holds; the three exceptions mean that there is no such variable. */
  datatype Content = NoSuchObject | NoSuchInstance | EndOfMibView | Value(text: string)

  datatype Variable = Variable(name: string, content: Content)

  datatype Packet = Packet(error: int, variables: seq<Variable>)

  const NO_ERROR := 0
  const NO_SUCH_NAME := 2

  /** The device, as replies to the n-th walk and the n-th get of a scrape; None is a failed request. */
  datatype Agent = Agent(walk: (nat, string) -> Option<seq<Variable>>, get: (nat, seq<string>) -> Option<Packet>)

  /** A dynamic filter.  Matching its values is regular-expression work and stays a parameter. */
  datatype Filter = Filter(oid: string, targets: seq<string>, values: seq<string>)

  type Matcher = (string, Variable) -> bool

  // The conditions lists are filtered by.

  function In(members: seq<string>): string -> bool { x => x in members }

  function NotIn(members: seq<string>): string -> bool { x => x !in members }

  function NotUnder(target: string): string -> bool { x => !(target <= x) }

  function UnderNone(targets: seq<string>): string -> bool { x => forall t :: t in targets ==> !(t <= x) }

  // ---------------------------------------------------------------- filters

  /** The last number of a variable's name. */
  function IndexOf(name: string): string { var parts := SplitOn('.', name); parts[|parts| - 1] }

  predicate AnyMatch(matches: Matcher, values: seq<string>, v: Variable) {
    exists i :: 0 <= i < |values| && matches(values[i], v)
  }

  function Matching(matches: Matcher, values: seq<string>): Variable -> bool { v => AnyMatch(matches, values, v) }

  function Indices(pdus: seq<Variable>): seq<string> {
    seq(|pdus|, i requires 0 <= i < |pdus| => IndexOf(pdus[i].name))
  }

  function Allowed(matches: Matcher, filter: Filter, pdus: seq<Variable>): seq<string> {
    Indices(Keep(pdus, Matching(matches, filter.values)))
  }

  /** filterAllowedIndices. */
  method FilterAllowedIndices(matches: Matcher, filter: Filter, pdus: seq<Variable>) returns (allowedList: seq<string>)
    ensures allowedList == Allowed(matches, filter, pdus)
    ensures AreMatched(matches, filter.values, pdus, allowedList)
  {
    allowedList := [];
    var p := Matching(matches, filter.values);
    for i := 0 to |pdus|
      invariant allowedList == Indices(Keep(pdus[..i], p))
    {
      assert pdus[..i + 1][..i] == pdus[..i];
      var found := false;
      for k := 0 to |filter.values|
        invariant !found ==> forall j :: 0 <= j < k ==> !matches(filter.values[j], pdus[i])
        invariant found ==> AnyMatch(matches, filter.values, pdus[i])
      {
        if matches(filter.values[k], pdus[i]) {
          found := true;
          break;
        }
      }
      if found {
        allowedList := allowedList + [IndexOf(pdus[i].name)];
      }
    }
    assert pdus[..|pdus|] == pdus;
    AllowedAreMatched(matches, filter, pdus);
  }

  /** The number a name ends with: what follows its last dot, or the whole name. */
  predicate IsLastPart(part: string, name: string) {
    '.' !in part && (part == name || (|part| < |name| && name[|name| - |part| - 1..] == "." + part))
  }

  /** The last numbers of the variables that some value matches, one for each, in order. */
  ghost predicate AreMatched(matches: Matcher, values: seq<string>, pdus: seq<Variable>, indices: seq<string>) {
    exists at: seq<nat> ::
      && PlacesOf(pdus, v => exists i :: 0 <= i < |values| && matches(values[i], v), at)
      && |indices| == |at| && forall k :: 0 <= k < |at| ==> IsLastPart(indices[k], pdus[at[k]].name)
  }

  lemma {:induction false} LastPartOfSplit(name: string)
    ensures IsLastPart(IndexOf(name), name)
  {
    if name != [] {
      LastPartOfSplit(name[1..]);
      var parts, tail := SplitOn('.', name), SplitOn('.', name[1..]);
      var part := IndexOf(name[1..]);
      if name[0] != '.' && |tail| == 1 {
        SingleTail(name);
      } else {
        assert IndexOf(name) == part;
        if part == name[1..] {
          LastIsRest(name);
        } else {
          assert name[|name| - |part| - 1..] == name[1..][|name| - 1 - |part| - 1..];
        }
      }
    }
  }

  lemma {:induction false} UnsplitIsWhole(s: string)
    ensures |SplitOn('.', s)| == 1 <==> '.' !in s
    ensures '.' !in s ==> SplitOn('.', s) == [s]
  {
    if s != [] {
      UnsplitIsWhole(s[1..]);
      if '.' !in s { SplitWhole('.', s); }
    }
  }

  lemma SingleTail(name: string)
    requires name != [] && name[0] != '.' && |SplitOn('.', name[1..])| == 1
    ensures IsLastPart(IndexOf(name), name)
  {
    UnsplitIsWhole(name[1..]);
    SplitWhole('.', name);
  }

  lemma LastIsRest(name: string)
    requires name != [] && IndexOf(name[1..]) == name[1..] && '.' !in name[1..]
    requires !(name[0] != '.' && |SplitOn('.', name[1..])| == 1)
    ensures IsLastPart(name[1..], name)
  {
    UnsplitIsWhole(name[1..]);
    assert name == [name[0]] + name[1..];
  }

  lemma AllowedAreMatched(matches: Matcher, filter: Filter, pdus: seq<Variable>)
    ensures AreMatched(matches, filter.values, pdus, Allowed(matches, filter, pdus))
  {
    hide IndexOf, IsLastPart, Keep;
    var p := Matching(matches, filter.values);
    var at := KeepPlaces(pdus, p);
    forall k | 0 <= k < |at| ensures IsLastPart(Allowed(matches, filter, pdus)[k], pdus[at[k]].name) {
      LastPartOfSplit(pdus[at[k]].name);
    }
    PlacesSame(pdus, p, v => exists i :: 0 <= i < |filter.values| && matches(filter.values[i], v), at);
  }

  function Intersect(a: seq<string>, b: seq<string>): seq<string> { Keep(a, In(b)) }

  /** intersectIndices: the order of a, members of both. */
  method IntersectIndices(a: seq<string>, b: seq<string>) returns (result: seq<string>)
    ensures result == Intersect(a, b)
    ensures Selected(a, x => x in b, result)
  {
    var bSet: set<string> := {};
    for i := 0 to |b|
      invariant forall x :: x in bSet <==> x in b[..i]
    {
      bSet := bSet + {b[i]};
    }
    assert b[..|b|] == b;
    result := [];
    for i := 0 to |a|
      invariant result == Keep(a[..i], In(b))
    {
      assert a[..i + 1][..i] == a[..i];
      if a[i] in bSet {
        result := result + [a[i]];
      }
    }
    assert a[..|a|] == a;
    KeepSelects(a, In(b));
    SelectedSame(a, In(b), x => x in b, result);
  }

  function WalkWithout(walk: seq<string>, targets: seq<string>): seq<string> { Keep(walk, NotIn(targets)) }

  /** updateWalkConfig: exact matches are not walked. */
  method UpdateWalkConfig(walkConfig: seq<string>, targets: seq<string>) returns (newCfg: seq<string>)
    ensures newCfg == WalkWithout(walkConfig, targets)
    ensures Selected(walkConfig, w => w !in targets, newCfg)
  {
    newCfg := [];
    for i := 0 to |walkConfig|
      invariant newCfg == Keep(walkConfig[..i], NotIn(targets))
    {
      assert walkConfig[..i + 1][..i] == walkConfig[..i];
      var found := false;
      for k := 0 to |targets|
        invariant !found ==> walkConfig[i] !in targets[..k]
        invariant found ==> walkConfig[i] in targets
      {
        if walkConfig[i] == targets[k] {
          found := true;
          break;
        }
      }
      assert targets[..|targets|] == targets;
      if !found {
        newCfg := newCfg + [walkConfig[i]];
      }
    }
    assert walkConfig[..|walkConfig|] == walkConfig;
    KeepSelects(walkConfig, NotIn(targets));
    SelectedSame(walkConfig, NotIn(targets), w => w !in targets, newCfg);
  }

  function GetWithout(gets: seq<string>, target: string): seq<string> { Keep(gets, NotUnder(target)) }

  /** updateGetConfig for a single target: gets that have the target's text as a prefix go. */
  method UpdateGetConfig(getConfig: seq<string>, target: string) returns (newCfg: seq<string>)
    ensures newCfg == GetWithout(getConfig, target)
    ensures Selected(getConfig, g => !(target <= g), newCfg)
  {
    newCfg := [];
    for i := 0 to |getConfig|
      invariant newCfg == Keep(getConfig[..i], NotUnder(target))
    {
      assert getConfig[..i + 1][..i] == getConfig[..i];
      if !(target <= getConfig[i]) {
        newCfg := newCfg + [getConfig[i]];
      }
    }
    assert getConfig[..|getConfig|] == getConfig;
    KeepSelects(getConfig, NotUnder(target));
    SelectedSame(getConfig, NotUnder(target), g => !(target <= g), newCfg);
  }

  /** `target.i` for every allowed index. */
  function Rows(target: string, indices: seq<string>): (r: seq<string>)
    ensures |r| == |indices|
  {
    seq(|indices|, i requires 0 <= i < |indices| => target + "." + indices[i])
  }

  /** addAllowedIndices for a single target. */
  method AddAllowedIndices(target: string, allowedList: seq<string>, cfg: seq<string>) returns (newCfg: seq<string>)
    ensures newCfg == cfg + Rows(target, allowedList)
    ensures |newCfg| == |cfg| + |allowedList| && cfg <= newCfg
    ensures forall i :: 0 <= i < |allowedList| ==> newCfg[|cfg| + i] == target + "." + allowedList[i]
  {
    newCfg := cfg;
    for i := 0 to |allowedList|
      invariant newCfg == cfg + Rows(target, allowedList)[..i]
    {
      newCfg := newCfg + [target + "." + allowedList[i]];
    }
  }

  // ---------------------------------------------------------------- combining filters

  /** A filter whose walk succeeded, and the indices it allows. */
  datatype Applied = Applied(targets: seq<string>, allowed: seq<string>)

  /** The filters that take part: the i-th filter asks the i-th walk, and if that fails it has no effect. */
  function Successes(agent: Agent, matches: Matcher, filters: seq<Filter>): seq<Applied> {
    if filters == [] then []
    else
      var n := |filters| - 1;
      Successes(agent, matches, filters[..n]) + AppliedBy(matches, filters[n], agent.walk(n, filters[n].oid))
  }

  function AppliedBy(matches: Matcher, filter: Filter, pdus: Option<seq<Variable>>): seq<Applied> {
    if pdus == None then [] else [Applied(filter.targets, Allowed(matches, filter, pdus.value))]
  }

  lemma SuccessesNext(agent: Agent, matches: Matcher, filters: seq<Filter>, i: nat)
    requires i < |filters|
    ensures Successes(agent, matches, filters[..i + 1])
            == Successes(agent, matches, filters[..i]) + AppliedBy(matches, filters[i], agent.walk(i, filters[i].oid))
  {
    assert filters[..i + 1][..i] == filters[..i];
  }

  /** Members in the order of their first occurrence. */
  function FirstSeen(s: seq<string>): (r: seq<string>)
    ensures forall x :: x in r <==> x in s
    ensures forall i, j :: 0 <= i < j < |r| ==> r[i] != r[j]
  {
    if s == [] then []
    else
      var front := FirstSeen(s[..|s| - 1]);
      assert s == s[..|s| - 1] + [s[|s| - 1]];
      if s[|s| - 1] in front then front else front + [s[|s| - 1]]
  }

  function AllTargets(applied: seq<Applied>): seq<string> {
    if applied == [] then [] else AllTargets(applied[..|applied| - 1]) + applied[|applied| - 1].targets
  }

  /** The indices every filter naming the target allows, in the order of the first of them. */
  function AllowedByAll(applied: seq<Applied>, target: string): seq<string> {
    if applied == [] then []
    else
      var front, last := applied[..|applied| - 1], applied[|applied| - 1];
      if target !in last.targets then AllowedByAll(front, target)
      else if target !in AllTargets(front) then last.allowed
      else Intersect(AllowedByAll(front, target), last.allowed)
  }

  /** AllowedByAll in words. */
  lemma {:induction false} AllowedByAllMeans(applied: seq<Applied>, target: string)
    requires target in AllTargets(applied)
    ensures forall x :: x in AllowedByAll(applied, target) <==>
              forall i :: 0 <= i < |applied| && target in applied[i].targets ==> x in applied[i].allowed
  {
    var n := |applied| - 1;
    var front, last := applied[..n], applied[n];
    NamedByOne(applied, target);
    forall x ensures x in AllowedByAll(applied, target) <==>
                       forall i :: 0 <= i < |applied| && target in applied[i].targets ==> x in applied[i].allowed
    {
      if target in AllTargets(front) {
        AllowedByAllMeans(front, target);
        assert (forall i :: 0 <= i < n && target in front[i].targets ==> x in front[i].allowed)
            <==> (forall i :: 0 <= i < n && target in applied[i].targets ==> x in applied[i].allowed);
      } else {
        forall i | 0 <= i < n ensures target !in applied[i].targets {
          NamedByOne(front, target);
          assert front[i] == applied[i];
        }
      }
    }
  }

  lemma {:induction false} NamedByOne(applied: seq<Applied>, target: string)
    ensures target in AllTargets(applied) <==> exists i :: 0 <= i < |applied| && target in applied[i].targets
  {
    if applied != [] {
      var front := applied[..|applied| - 1];
      NamedByOne(front, target);
      if i :| 0 <= i < |front| && target in front[i].targets { assert target in applied[i].targets; }
      if i :| 0 <= i < |applied| && target in applied[i].targets { assert i < |front| ==> target in front[i].targets; }
    }
  }

  /** Nothing is moved: each member stands where it occurred first. */
  lemma {:induction false} FirstSeenOrder(s: seq<string>) returns (at: seq<nat>)
    ensures |at| == |FirstSeen(s)| && forall k :: 0 <= k < |at| ==>
              at[k] < |s| && s[at[k]] == FirstSeen(s)[k] && s[at[k]] !in s[..at[k]]
    ensures forall j, k :: 0 <= j < k < |at| ==> at[j] < at[k]
  {
    at := [];
    if s != [] {
      var n := |s| - 1;
      at := FirstSeenOrder(s[..n]);
      assert forall k :: 0 <= k < n ==> s[..n][..k] == s[..k];
      if s[n] !in FirstSeen(s[..n]) { at := at + [n]; }
    }
  }

  /** The filters' targets one after the other. */
  lemma {:induction false} AllTargetsInOrder(applied: seq<Applied>)
    ensures AllTargets(applied) == Concat(seq(|applied|, i requires 0 <= i < |applied| => applied[i].targets))
  {
    if applied != [] {
      var n := |applied| - 1;
      var front, lists := applied[..n], seq(|applied|, i requires 0 <= i < |applied| => applied[i].targets);
      AllTargetsInOrder(front);
      assert lists[..n] == seq(|front|, i requires 0 <= i < |front| => front[i].targets);
      ConcatLast(lists);
    }
  }

  lemma {:induction false} ConcatLast<T>(parts: seq<seq<T>>)
    requires parts != []
    ensures Concat(parts) == Concat(parts[..|parts| - 1]) + parts[|parts| - 1]
  {
    if |parts| > 1 {
      ConcatLast(parts[1..]);
      assert parts[1..][..|parts| - 2] == parts[..|parts| - 1][1..];
      assert parts[0] + (Concat(parts[1..][..|parts| - 2]) + parts[|parts| - 1])
          == parts[0] + Concat(parts[1..][..|parts| - 2]) + parts[|parts| - 1];
    } else {
      assert parts[..0] == [] && parts[1..] == [] && parts[0] + [] == [] + parts[0];
    }
  }

  /** A target's indices are in the order of the first filter naming it. */
  lemma {:induction false} AllowedByAllOrder(applied: seq<Applied>, target: string) returns (first: nat)
    requires target in AllTargets(applied)
    ensures first < |applied| && target in applied[first].targets
    ensures forall i :: 0 <= i < first ==> target !in applied[i].targets
    ensures Selected(applied[first].allowed,
                     x => forall i :: 0 <= i < |applied| && target in applied[i].targets ==> x in applied[i].allowed,
                     AllowedByAll(applied, target))
  {
    first := FirstNaming(applied, target);
    var later := InAll(applied, target);
    KeepSelects(applied[first].allowed, later);
    SelectedSame(applied[first].allowed, later,
                 x => forall i :: 0 <= i < |applied| && target in applied[i].targets ==> x in applied[i].allowed,
                 AllowedByAll(applied, target));
  }

  function InAll(applied: seq<Applied>, target: string): string -> bool {
    x => forall i :: 0 <= i < |applied| && target in applied[i].targets ==> x in applied[i].allowed
  }

  lemma {:induction false} FirstNaming(applied: seq<Applied>, target: string) returns (first: nat)
    requires target in AllTargets(applied)
    ensures first < |applied| && target in applied[first].targets
    ensures forall i :: 0 <= i < first ==> target !in applied[i].targets
    ensures AllowedByAll(applied, target) == Keep(applied[first].allowed, InAll(applied, target))
  {
    var n := |applied| - 1;
    var front, last := applied[..n], applied[n];
    if target in AllTargets(front) {
      first := FirstNaming(front, target);
      var list := applied[first].allowed;
      InAllNext(applied, target);
      if target in last.targets {
        KeepTwice(list, InAll(front, target), In(last.allowed));
        KeepSame(list, Both(InAll(front, target), In(last.allowed)), InAll(applied, target));
      } else {
        KeepSame(list, InAll(front, target), InAll(applied, target));
      }
    } else {
      first := n;
      NamedByOne(front, target);
      assert forall i :: 0 <= i < n ==> front[i] == applied[i];
      KeepAll(last.allowed, InAll(applied, target));
    }
  }

  lemma InAllNext(applied: seq<Applied>, target: string)
    requires applied != []
    ensures var n := |applied| - 1;
            forall x :: InAll(applied, target)(x) <==>
                          InAll(applied[..n], target)(x) && (target in applied[n].targets ==> x in applied[n].allowed)
  {
    var n := |applied| - 1;
    forall x
      ensures InAll(applied, target)(x) <==>
                InAll(applied[..n], target)(x) && (target in applied[n].targets ==> x in applied[n].allowed)
    {
      assert applied == applied[..n] + [applied[n]];
      AllOfAppended(applied[..n], applied[n], target, x);
    }
  }

  // ---------------------------------------------------------------- the plan

  datatype Plan = Plan(gets: seq<string>, walks: seq<string>)

  /** What the code does to the gets: target after target, drop what has the target's text as a prefix, then add its
      rows. */
  function RewriteGets(gets: seq<string>, targets: seq<string>, applied: seq<Applied>): seq<string> {
    if targets == [] then gets
    else
      var last := targets[|targets| - 1];
      GetWithout(RewriteGets(gets, targets[..|targets| - 1], applied), last) + Rows(last, AllowedByAll(applied, last))
  }

  function PlanOf(gets: seq<string>, walks: seq<string>, applied: seq<Applied>): Plan {
    Plan(RewriteGets(gets, FirstSeen(AllTargets(applied)), applied), WalkWithout(walks, AllTargets(applied)))
  }

  lemma WalkWithoutMore(walks: seq<string>, a: seq<string>, b: seq<string>)
    ensures WalkWithout(WalkWithout(walks, a), b) == WalkWithout(walks, a + b)
  {
    KeepTwice(walks, NotIn(a), NotIn(b));
    KeepSame(walks, Both(NotIn(a), NotIn(b)), NotIn(a + b));
  }

  /** The map the filter loop builds says for every target what all filters so far allow. */
  ghost predicate Tracks(byTarget: map<string, seq<string>>, filteredTargets: seq<string>, applied: seq<Applied>) {
    && filteredTargets == FirstSeen(AllTargets(applied))
    && (forall t :: t in byTarget <==> t in AllTargets(applied))
    && (forall t :: t in byTarget ==> byTarget[t] == AllowedByAll(applied, t))
  }

  lemma FirstSeenAppend(s: seq<string>, x: string)
    ensures FirstSeen(s + [x]) == if x in s then FirstSeen(s) else FirstSeen(s) + [x]
  {}

  lemma {:induction false} KeepOwn(s: seq<string>, b: seq<string>)
    requires forall x :: x in s ==> x in b
    ensures Intersect(s, b) == s
  {
    KeepAll(s, In(b));
  }

  lemma IntersectTwice(a: seq<string>, b: seq<string>)
    ensures Intersect(Intersect(a, b), b) == Intersect(a, b)
    ensures Intersect(b, b) == b
  {
    KeepOwn(Intersect(a, b), b);
    KeepOwn(b, b);
  }

  /** What holds after the first targets of one more filter. */
  ghost predicate TracksPart(byTarget: map<string, seq<string>>, filteredTargets: seq<string>,
                             applied: seq<Applied>, seen: seq<string>, allowed: seq<string>) {
    && filteredTargets == FirstSeen(AllTargets(applied) + seen)
    && (forall t :: t in byTarget <==> t in AllTargets(applied) || t in seen)
    && (forall t :: t in byTarget ==> byTarget[t] == SoFar(applied, seen, allowed, t))
  }

  function SoFar(applied: seq<Applied>, seen: seq<string>, allowed: seq<string>, t: string): seq<string> {
    if t !in seen then AllowedByAll(applied, t)
    else if t !in AllTargets(applied) then allowed
    else Intersect(AllowedByAll(applied, t), allowed)
  }

  lemma TracksStart(byTarget: map<string, seq<string>>, filteredTargets: seq<string>, applied: seq<Applied>,
                    allowed: seq<string>)
    requires Tracks(byTarget, filteredTargets, applied)
    ensures TracksPart(byTarget, filteredTargets, applied, [], allowed)
  {
    assert AllTargets(applied) + [] == AllTargets(applied);
  }

  lemma TracksEnd(byTarget: map<string, seq<string>>, filteredTargets: seq<string>, applied: seq<Applied>,
                  targets: seq<string>, allowed: seq<string>)
    requires TracksPart(byTarget, filteredTargets, applied, targets, allowed)
    ensures Tracks(byTarget, filteredTargets, applied + [Applied(targets, allowed)])
  {}

  lemma TracksNext(byTarget: map<string, seq<string>>, filteredTargets: seq<string>, applied: seq<Applied>,
                   seen: seq<string>, allowed: seq<string>, t: string)
    requires TracksPart(byTarget, filteredTargets, applied, seen, allowed)
    ensures t in byTarget ==>
              TracksPart(byTarget[t := Intersect(byTarget[t], allowed)], filteredTargets, applied, seen + [t], allowed)
    ensures t !in byTarget ==>
              TracksPart(byTarget[t := allowed], filteredTargets + [t], applied, seen + [t], allowed)
  {
    hide Intersect, AllowedByAll, AllTargets, FirstSeen;
    var before := AllTargets(applied);
    assert before + (seen + [t]) == before + seen + [t];
    FirstSeenAppend(before + seen, t);
    IntersectTwice(AllowedByAll(applied, t), allowed);
    assert forall u :: u in seen + [t] <==> u == t || u in seen;
  }

  /** The inner loop over one filter's targets; a target listed twice changes nothing the second time. */
  method MergeTargets(byTarget: map<string, seq<string>>, filteredTargets: seq<string>, targets: seq<string>,
                      allowedList: seq<string>, ghost applied: seq<Applied>)
    returns (byTarget': map<string, seq<string>>, filteredTargets': seq<string>)
    requires Tracks(byTarget, filteredTargets, applied)
    ensures Tracks(byTarget', filteredTargets', applied + [Applied(targets, allowedList)])
  {
    hide Tracks, TracksPart;
    byTarget', filteredTargets' := byTarget, filteredTargets;
    TracksStart(byTarget, filteredTargets, applied, allowedList);
    assert targets[..0] == [];
    for i := 0 to |targets|
      invariant TracksPart(byTarget', filteredTargets', applied, targets[..i], allowedList)
    {
      var t := targets[i];
      assert targets[..i + 1] == targets[..i] + [t];
      TracksNext(byTarget', filteredTargets', applied, targets[..i], allowedList, t);
      if t in byTarget' {
        var both := IntersectIndices(byTarget'[t], allowedList);
        byTarget' := byTarget'[t := both];
      } else {
        filteredTargets' := filteredTargets' + [t];
        byTarget' := byTarget'[t := allowedList];
      }
    }
    assert targets[..|targets|] == targets;
    TracksEnd(byTarget', filteredTargets', applied, targets, allowedList);
  }

  /** The filter loop. */
  method CombineFilters(agent: Agent, matches: Matcher, filters: seq<Filter>, walks: seq<string>)
    returns (allowedByTarget: map<string, seq<string>>, filteredTargets: seq<string>, newWalk: seq<string>)
    ensures var applied := Successes(agent, matches, filters);
            Tracks(allowedByTarget, filteredTargets, applied) && newWalk == WalkWithout(walks, AllTargets(applied))
  {
    allowedByTarget, filteredTargets, newWalk := map[], [], walks;
    KeepAll(walks, NotIn([]));
    assert Tracks(allowedByTarget, filteredTargets, []);
    hide Tracks, WalkWithout, Allowed, Successes, AllTargets;
    NoFilters(agent, matches);
    assert filters[..0] == [];
    for i := 0 to |filters|
      invariant Tracks(allowedByTarget, filteredTargets, Successes(agent, matches, filters[..i]))
      invariant newWalk == WalkWithout(walks, AllTargets(Successes(agent, matches, filters[..i])))
    {
      ghost var applied := Successes(agent, matches, filters[..i]);
      SuccessesNext(agent, matches, filters, i);
      var pdus := agent.walk(i, filters[i].oid);
      if pdus.Some? {
        var allowedList := FilterAllowedIndices(matches, filters[i], pdus.value);
        newWalk := UpdateWalkConfig(newWalk, filters[i].targets);
        allowedByTarget, filteredTargets := MergeTargets(allowedByTarget, filteredTargets, filters[i].targets,
            allowedList, applied);
        WalkWithoutMore(walks, AllTargets(applied), filters[i].targets);
        AllTargetsAppend(applied, Applied(filters[i].targets, allowedList));
      } else {
        assert applied + [] == applied;
      }
    }
    assert filters[..|filters|] == filters;
  }

  lemma NoFilters(agent: Agent, matches: Matcher)
    ensures Successes(agent, matches, []) == [] && AllTargets([]) == []
  {}

  lemma AllTargetsAppend(applied: seq<Applied>, one: Applied)
    ensures AllTargets(applied + [one]) == AllTargets(applied) + one.targets
  {}

  /** The filter loop and the rewriting after it. */
  method ApplyFilters(agent: Agent, matches: Matcher, filters: seq<Filter>, gets: seq<string>, walks: seq<string>)
    returns (newGet: seq<string>, newWalk: seq<string>)
    ensures Plan(newGet, newWalk) == PlanOf(gets, walks, Successes(agent, matches, filters))
    ensures Selected(walks, w => !IsFiltered(agent, filters, w), newWalk)
    ensures NoneBelowAnother(agent, filters) ==>
              forall g :: g in newGet <==> IsPlannedGet(agent, matches, filters, gets, g)
  {
    hide Successes, AllTargets, AllowedByAll, WalkWithout, GetWithout, Rows, FirstSeen, IsFiltered, IsPlannedGet,
         NoneBelowAnother;
    var allowedByTarget, filteredTargets;
    allowedByTarget, filteredTargets, newWalk := CombineFilters(agent, matches, filters, walks);
    ghost var applied := Successes(agent, matches, filters);
    newGet := gets;
    for i := 0 to |filteredTargets|
      invariant newGet == RewriteGets(gets, filteredTargets[..i], applied)
    {
      var t := filteredTargets[i];
      assert filteredTargets[..i + 1][..i] == filteredTargets[..i];
      newGet := UpdateGetConfig(newGet, t);
      newGet := AddAllowedIndices(t, allowedByTarget[t], newGet);
    }
    assert filteredTargets[..|filteredTargets|] == filteredTargets;
    PlannedWalks(agent, matches, filters, gets, walks);
    if NoneBelowAnother(agent, filters) {
      forall g ensures g in newGet <==> IsPlannedGet(agent, matches, filters, gets, g) {
        PlannedGets(agent, matches, filters, gets, walks, g);
      }
    }
  }

  // ---------------------------------------------------------------- the plan in terms of the filters

  /** Some filter whose walk succeeded names this target. */
  ghost predicate IsFiltered(agent: Agent, filters: seq<Filter>, t: string) {
    exists k :: 0 <= k < |filters| && agent.walk(k, filters[k].oid).Some? && t in filters[k].targets
  }

  /** A variable that some value matches ends in this number. */
  ghost predicate IsMatched(matches: Matcher, values: seq<string>, pdus: seq<Variable>, x: string) {
    exists i :: 0 <= i < |pdus| && (exists j :: 0 <= j < |values| && matches(values[j], pdus[i]))
        && IsLastPart(x, pdus[i].name)
  }

  /** Every such filter naming the target allows the index. */
  ghost predicate IsAllowed(agent: Agent, matches: Matcher, filters: seq<Filter>, t: string, x: string) {
    forall k :: 0 <= k < |filters| && t in filters[k].targets ==>
      var reply := agent.walk(k, filters[k].oid);
      reply.Some? ==> IsMatched(matches, filters[k].values, reply.value, x)
  }

  /** No filtered target has another one's text as a prefix. */
  ghost predicate NoneBelowAnother(agent: Agent, filters: seq<Filter>) {
    forall t, u :: IsFiltered(agent, filters, t) && IsFiltered(agent, filters, u) && t <= u ==> t == u
  }

  /** An original get that has no filtered target as a prefix, or an allowed row of a filtered target. */
  ghost predicate IsPlannedGet(agent: Agent, matches: Matcher, filters: seq<Filter>, gets: seq<string>, g: string) {
    || (g in gets && forall t :: IsFiltered(agent, filters, t) ==> !(t <= g))
    || exists t, x :: IsFiltered(agent, filters, t) && IsAllowed(agent, matches, filters, t, x) && g == t + "." + x
  }

  lemma {:induction false} TargetsAreFiltered(agent: Agent, matches: Matcher, filters: seq<Filter>, t: string)
    ensures t in AllTargets(Successes(agent, matches, filters)) <==> IsFiltered(agent, filters, t)
  {
    if filters != [] {
      var n := |filters| - 1;
      var front, reply := filters[..n], agent.walk(n, filters[n].oid);
      TargetsAreFiltered(agent, matches, front, t);
      hide Allowed, AllTargets, Successes;
      SuccessesNext(agent, matches, filters, n);
      assert filters[..n + 1] == filters;
      FilteredNext(agent, filters, t);
      if reply.Some? {
        AllTargetsAppend(Successes(agent, matches, front),
                Applied(filters[n].targets, Allowed(matches, filters[n], reply.value)));
      } else {
        assert Successes(agent, matches, front) + [] == Successes(agent, matches, front);
      }
    } else {
      assert AllTargets(Successes(agent, matches, filters)) == [];
    }
  }

  lemma FilteredNext(agent: Agent, filters: seq<Filter>, t: string)
    requires filters != []
    ensures var n := |filters| - 1;
            IsFiltered(agent, filters, t) <==>
              IsFiltered(agent, filters[..n], t) || (agent.walk(n, filters[n].oid).Some? && t in filters[n].targets)
  {
    var n := |filters| - 1;
    assert forall k :: 0 <= k < n ==> filters[..n][k] == filters[k];
  }

  /** Walks not named by a filter that took part stay, all of them, in order and as often as before. */
  lemma PlannedWalks(agent: Agent, matches: Matcher, filters: seq<Filter>, gets: seq<string>, walks: seq<string>)
    ensures Selected(walks, w => !IsFiltered(agent, filters, w),
                PlanOf(gets, walks, Successes(agent, matches, filters)).walks)
  {
    hide AllTargets, Successes, IsFiltered, RewriteGets;
    var targets := AllTargets(Successes(agent, matches, filters));
    KeepSelects(walks, NotIn(targets));
    forall w ensures NotIn(targets)(w) == !IsFiltered(agent, filters, w) {
      TargetsAreFiltered(agent, matches, filters, w);
    }
    SelectedSame(walks, NotIn(targets), w => !IsFiltered(agent, filters, w), WalkWithout(walks, targets));
  }

  lemma AllowedIsMatched(matches: Matcher, filter: Filter, pdus: seq<Variable>, x: string)
    ensures x in Allowed(matches, filter, pdus) <==> IsMatched(matches, filter.values, pdus, x)
  {
    hide IsLastPart, IndexOf, Keep;
    var p := Matching(matches, filter.values);
    var at := KeepPlaces(pdus, p);
    assert |Allowed(matches, filter, pdus)| == |at|;
    assert forall k :: 0 <= k < |at| ==> Allowed(matches, filter, pdus)[k] == IndexOf(pdus[at[k]].name);
    hide Allowed, ReadAt;
    if x in Allowed(matches, filter, pdus) {
      var k :| 0 <= k < |at| && IndexOf(pdus[at[k]].name) == x;
      assert p(pdus[at[k]]) && AnyMatch(matches, filter.values, pdus[at[k]]);
      LastPartOfSplit(pdus[at[k]].name);
    }
    if IsMatched(matches, filter.values, pdus, x) {
      var i := MatchedPlace(matches, filter.values, pdus, x);
      assert p(pdus[i]);
      var k :| 0 <= k < |at| && at[k] == i;
      LastPartOfSplit(pdus[i].name);
      OneLastPart(x, IndexOf(pdus[i].name), pdus[i].name);
      assert Allowed(matches, filter, pdus)[k] == x;
    }
  }

  lemma MatchedPlace(matches: Matcher, values: seq<string>, pdus: seq<Variable>, x: string) returns (i: nat)
    requires IsMatched(matches, values, pdus, x)
    ensures i < |pdus| && AnyMatch(matches, values, pdus[i]) && IsLastPart(x, pdus[i].name)
  {
    hide IsLastPart;
    i :| 0 <= i < |pdus| && (exists j :: 0 <= j < |values| && matches(values[j], pdus[i]))
        && IsLastPart(x, pdus[i].name);
  }

  lemma OneLastPart(a: string, b: string, name: string)
    requires IsLastPart(a, name) && IsLastPart(b, name)
    ensures a == b
  {
    LastPartEnds(a, name);
    LastPartEnds(b, name);
  }

  lemma LastPartEnds(part: string, name: string)
    requires IsLastPart(part, name)
    ensures |part| <= |name| && part == name[|name| - |part|..]
    ensures |part| < |name| ==> name[|name| - |part| - 1] == '.'
    ensures forall i :: |name| - |part| <= i < |name| ==> name[i] != '.'
  {
    var k := |name| - |part|;
    if part != name {
      assert name[k - 1..][0] == '.' && name[k - 1..][1..] == part;
    }
    forall i | k <= i < |name| ensures name[i] != '.' { assert name[i] == part[i - k]; }
  }

  lemma {:induction false} AllowedBySuccesses(agent: Agent, matches: Matcher, filters: seq<Filter>, t: string,
                                              x: string)
    ensures var applied := Successes(agent, matches, filters);
            (forall i :: 0 <= i < |applied| && t in applied[i].targets ==> x in applied[i].allowed)
            <==> IsAllowed(agent, matches, filters, t, x)
  {
    if filters != [] {
      var n := |filters| - 1;
      var front, reply := filters[..n], agent.walk(n, filters[n].oid);
      AllowedBySuccesses(agent, matches, front, t, x);
      hide Allowed, IsMatched;
      AllowedNext(agent, matches, filters, t, x);
      var before, all := Successes(agent, matches, front), Successes(agent, matches, filters);
      if reply.Some? {
        AllowedIsMatched(matches, filters[n], reply.value, x);
        assert all == before + [Applied(filters[n].targets, Allowed(matches, filters[n], reply.value))];
        AllOfAppended(before, all[|before|], t, x);
      } else {
        assert all == before;
      }
    }
  }

  lemma AllOfAppended(before: seq<Applied>, one: Applied, t: string, x: string)
    ensures (forall i :: 0 <= i < |before + [one]| && t in (before + [one])[i].targets ==>
              x in (before + [one])[i].allowed)
            <==> (forall i :: 0 <= i < |before| && t in before[i].targets ==> x in before[i].allowed)
                 && (t in one.targets ==> x in one.allowed)
  {
    var all := before + [one];
    assert all[|before|] == one && forall i :: 0 <= i < |before| ==> all[i] == before[i];
  }

  lemma AllowedNext(agent: Agent, matches: Matcher, filters: seq<Filter>, t: string, x: string)
    requires filters != []
    ensures var n := |filters| - 1;
            var reply := agent.walk(n, filters[n].oid);
            IsAllowed(agent, matches, filters, t, x) <==>
              IsAllowed(agent, matches, filters[..n], t, x)
              && (t in filters[n].targets && reply.Some? ==> IsMatched(matches, filters[n].values, reply.value, x))
  {
    hide IsMatched;
    var n := |filters| - 1;
    assert forall k :: 0 <= k < n ==> filters[..n][k] == filters[k];
  }

  lemma PlannedGets(agent: Agent, matches: Matcher, filters: seq<Filter>, gets: seq<string>, walks: seq<string>,
                    g: string)
    requires NoneBelowAnother(agent, filters)
    ensures g in PlanOf(gets, walks, Successes(agent, matches, filters)).gets
            <==> IsPlannedGet(agent, matches, filters, gets, g)
  {
    hide Successes, IsFiltered, IsAllowed, AllowedByAll, AllTargets, RewriteGets, Rows, AllRows, FirstSeen,
         NoneBelowAnother;
    var applied := Successes(agent, matches, filters);
    var targets := FirstSeen(AllTargets(applied));
    forall t ensures t in targets <==> IsFiltered(agent, filters, t) { TargetsAreFiltered(agent, matches, filters, t); }
    PlannedGetsIdealExactly(gets, walks, applied);
    TargetsUnrelated(agent, filters, targets);
    UnrelatedTargetsSurvive(targets, applied);
    assert PlanOf(gets, walks, applied).gets == IdealGets(gets, targets, applied);
    assert g in Keep(gets, UnderNone(targets))
        <==> g in gets && forall t :: IsFiltered(agent, filters, t) ==> !(t <= g);
    RowsAreAllowed(agent, matches, filters, targets, g);
  }

  lemma TargetsUnrelated(agent: Agent, filters: seq<Filter>, targets: seq<string>)
    requires NoneBelowAnother(agent, filters) && forall t :: t in targets ==> IsFiltered(agent, filters, t)
    requires forall i, j :: 0 <= i < j < |targets| ==> targets[i] != targets[j]
    ensures forall i, j :: 0 <= i < |targets| && 0 <= j < |targets| && i != j ==> !(targets[i] <= targets[j])
  {
    hide IsFiltered;
    forall i, j | 0 <= i < |targets| && 0 <= j < |targets| && i != j ensures !(targets[i] <= targets[j]) {
      assert targets[i] in targets && targets[j] in targets && targets[i] != targets[j];
    }
  }

  lemma RowsAreAllowed(agent: Agent, matches: Matcher, filters: seq<Filter>, targets: seq<string>, g: string)
    requires forall t :: t in targets <==> IsFiltered(agent, filters, t)
    ensures g in AllRows(targets, Successes(agent, matches, filters)) <==>
              exists t, x :: IsFiltered(agent, filters, t) && IsAllowed(agent, matches, filters, t, x)
                  && g == t + "." + x
  {
    hide Successes, IsFiltered, IsAllowed, AllowedByAll, Rows, AllRows;
    var applied := Successes(agent, matches, filters);
    InAllRows(targets, applied, g);
    if g in AllRows(targets, applied) {
      var i :| 0 <= i < |targets| && g in Rows(targets[i], AllowedByAll(applied, targets[i]));
      RowIsAllowed(agent, matches, filters, targets[i], g);
    }
    if t, x :| IsFiltered(agent, filters, t) && IsAllowed(agent, matches, filters, t, x) && g == t + "." + x {
      var i :| 0 <= i < |targets| && targets[i] == t;
      AllowedHasRow(agent, matches, filters, t, x);
      assert g in Rows(targets[i], AllowedByAll(applied, targets[i]));
    }
  }

  lemma AllowedMeans(agent: Agent, matches: Matcher, filters: seq<Filter>, t: string, x: string)
    requires IsFiltered(agent, filters, t)
    ensures x in AllowedByAll(Successes(agent, matches, filters), t) <==> IsAllowed(agent, matches, filters, t, x)
  {
    hide Successes, IsFiltered, IsAllowed;
    TargetsAreFiltered(agent, matches, filters, t);
    AllowedByAllMeans(Successes(agent, matches, filters), t);
    AllowedBySuccesses(agent, matches, filters, t, x);
  }

  lemma RowIsAllowed(agent: Agent, matches: Matcher, filters: seq<Filter>, t: string, g: string)
    requires IsFiltered(agent, filters, t) && g in Rows(t, AllowedByAll(Successes(agent, matches, filters), t))
    ensures exists x :: IsAllowed(agent, matches, filters, t, x) && g == t + "." + x
  {
    hide Successes, IsFiltered, IsAllowed, AllowedByAll;
    var allowed := AllowedByAll(Successes(agent, matches, filters), t);
    var k :| 0 <= k < |allowed| && g == t + "." + allowed[k];
    AllowedMeans(agent, matches, filters, t, allowed[k]);
  }

  lemma AllowedHasRow(agent: Agent, matches: Matcher, filters: seq<Filter>, t: string, x: string)
    requires IsFiltered(agent, filters, t) && IsAllowed(agent, matches, filters, t, x)
    ensures t + "." + x in Rows(t, AllowedByAll(Successes(agent, matches, filters), t))
  {
    hide Successes, IsFiltered, IsAllowed, AllowedByAll;
    var allowed := AllowedByAll(Successes(agent, matches, filters), t);
    AllowedMeans(agent, matches, filters, t, x);
    var k :| 0 <= k < |allowed| && allowed[k] == x;
    assert Rows(t, allowed)[k] == t + "." + x;
  }

  // ---------------------------------------------------------------- what the plan should be

  /** The gets no target covers, then every target's allowed rows. */
  function IdealGets(gets: seq<string>, targets: seq<string>, applied: seq<Applied>): seq<string> {
    Keep(gets, UnderNone(targets)) + AllRows(targets, applied)
  }

  function AllRows(targets: seq<string>, applied: seq<Applied>): seq<string> {
    if targets == [] then []
    else
      var last := targets[|targets| - 1];
      AllRows(targets[..|targets| - 1], applied) + Rows(last, AllowedByAll(applied, last))
  }

  /** No row added for a target has a later target's text as a prefix. */
  ghost predicate RowsSurvive(targets: seq<string>, applied: seq<Applied>) {
    forall i, j :: 0 <= i < j < |targets| ==> RowsApart(Rows(targets[i], AllowedByAll(applied, targets[i])), targets[j])
  }

  ghost predicate RowsApart(rows: seq<string>, target: string) { forall r :: r in rows ==> !(target <= r) }

  /** The rows still there at the end: later targets may have removed rows of earlier ones. */
  function SurvivingRows(targets: seq<string>, applied: seq<Applied>): seq<string> {
    if targets == [] then []
    else
      var last := targets[|targets| - 1];
      GetWithout(SurvivingRows(targets[..|targets| - 1], applied), last) + Rows(last, AllowedByAll(applied, last))
  }

  lemma KeepOneMore(gets: seq<string>, targets: seq<string>)
    requires targets != []
    ensures var n := |targets| - 1;
            GetWithout(Keep(gets, UnderNone(targets[..n])), targets[n]) == Keep(gets, UnderNone(targets))
  {
    var front, last := targets[..|targets| - 1], targets[|targets| - 1];
    KeepTwice(gets, UnderNone(front), NotUnder(last));
    assert targets == front + [last];
    assert forall t :: t in targets <==> t == last || t in front;
    assert last in targets;
    forall x ensures Both(UnderNone(front), NotUnder(last))(x) == UnderNone(targets)(x) {
      assert UnderNone(front)(x) <==> forall t :: t in front ==> !(t <= x);
    }
    KeepSame(gets, Both(UnderNone(front), NotUnder(last)), UnderNone(targets));
  }

  lemma GetWithoutAppend(a: seq<string>, b: seq<string>, target: string)
    ensures GetWithout(a + b, target) == GetWithout(a, target) + GetWithout(b, target)
  {
    KeepAppend(a, b, NotUnder(target));
  }

  lemma {:induction false} RewriteSplits(gets: seq<string>, targets: seq<string>, applied: seq<Applied>)
    ensures RewriteGets(gets, targets, applied) == Keep(gets, UnderNone(targets)) + SurvivingRows(targets, applied)
  {
    if targets == [] {
      KeepAll(gets, UnderNone(targets));
    } else {
      hide Keep, GetWithout, AllowedByAll, Rows;
      var front, last := targets[..|targets| - 1], targets[|targets| - 1];
      RewriteSplits(gets, front, applied);
      GetWithoutAppend(Keep(gets, UnderNone(front)), SurvivingRows(front, applied), last);
      KeepOneMore(gets, targets);
    }
  }

  lemma {:induction false} KeepFull<T(!new)>(s: seq<T>, p: T -> bool)
    requires |Keep(s, p)| == |s|
    ensures Keep(s, p) == s
  {
    if s != [] {
      var front := s[..|s| - 1];
      assert |Keep(front, p)| == |front|;
      KeepFull(front, p);
      assert s == front + [s[|s| - 1]];
    }
  }

  lemma {:induction false} SurvivingAtMost(targets: seq<string>, applied: seq<Applied>)
    ensures |SurvivingRows(targets, applied)| <= |AllRows(targets, applied)|
  {
    if targets != [] { SurvivingAtMost(targets[..|targets| - 1], applied); }
  }

  lemma {:induction false} InAllRows(targets: seq<string>, applied: seq<Applied>, r: string)
    ensures r in AllRows(targets, applied) <==>
              exists i :: 0 <= i < |targets| && r in Rows(targets[i], AllowedByAll(applied, targets[i]))
  {
    if targets != [] {
      var front := targets[..|targets| - 1];
      InAllRows(front, applied, r);
      assert forall i :: 0 <= i < |front| ==> front[i] == targets[i];
    }
  }

  lemma SurviveStep(targets: seq<string>, applied: seq<Applied>)
    requires targets != []
    ensures var n := |targets| - 1;
            RowsSurvive(targets, applied) <==>
              RowsSurvive(targets[..n], applied) && RowsApart(AllRows(targets[..n], applied), targets[n])
  {
    var n := |targets| - 1;
    var front, last := targets[..n], targets[n];
    forall r ensures r in AllRows(front, applied)
        <==> exists i :: 0 <= i < n && r in Rows(front[i], AllowedByAll(applied, front[i])) {
      InAllRows(front, applied, r);
    }
    if RowsSurvive(targets, applied) {
      forall i, j | 0 <= i < j < n ensures RowsApart(Rows(front[i], AllowedByAll(applied, front[i])), front[j]) {
        assert RowsApart(Rows(targets[i], AllowedByAll(applied, targets[i])), targets[j]);
      }
      forall r | r in AllRows(front, applied) ensures !(last <= r) {
        var i :| 0 <= i < n && r in Rows(front[i], AllowedByAll(applied, front[i]));
        assert RowsApart(Rows(targets[i], AllowedByAll(applied, targets[i])), targets[n]);
      }
    }
    if RowsSurvive(front, applied) && RowsApart(AllRows(front, applied), last) {
      forall i, j | 0 <= i < j < |targets| ensures RowsApart(Rows(targets[i], AllowedByAll(applied, targets[i])),
          targets[j]) {
        assert front[i] == targets[i];
        if j < n {
          assert RowsApart(Rows(front[i], AllowedByAll(applied, front[i])), front[j]);
        } else {
          forall r | r in Rows(targets[i], AllowedByAll(applied, targets[i])) ensures !(last <= r) {
            assert r in AllRows(front, applied);
          }
        }
      }
    }
  }

  lemma {:induction false} AllRowsSurvive(targets: seq<string>, applied: seq<Applied>)
    ensures SurvivingRows(targets, applied) == AllRows(targets, applied) <==> RowsSurvive(targets, applied)
  {
    if targets != [] {
      hide RowsSurvive, AllowedByAll, Rows;
      var n := |targets| - 1;
      var front, last := targets[..n], targets[n];
      var rows := Rows(last, AllowedByAll(applied, last));
      var kept, all := SurvivingRows(front, applied), AllRows(front, applied);
      AllRowsSurvive(front, applied);
      SurviveStep(targets, applied);
      SurvivingAtMost(front, applied);
      KeepAll(all, NotUnder(last));
      if GetWithout(kept, last) + rows == all + rows {
        assert |GetWithout(kept, last)| == |all|;
        assert GetWithout(kept, last) == (GetWithout(kept, last) + rows)[..|all|] == (all + rows)[..|all|] == all;
        KeepFull(kept, NotUnder(last));
      }
    }
  }

  /** The planned gets are the ideal ones (the originals no target covers by text, then every target's allowed rows)
      exactly when no added row has a later target's text as a prefix. */
  lemma PlannedGetsIdealExactly(gets: seq<string>, walks: seq<string>, applied: seq<Applied>)
    ensures var targets := FirstSeen(AllTargets(applied));
            PlanOf(gets, walks, applied).gets == IdealGets(gets, targets, applied) <==> RowsSurvive(targets, applied)
  {
    var targets := FirstSeen(AllTargets(applied));
    var kept := Keep(gets, UnderNone(targets));
    RewriteSplits(gets, targets, applied);
    AllRowsSurvive(targets, applied);
    var a, b := SurvivingRows(targets, applied), AllRows(targets, applied);
    if kept + a == kept + b {
      assert a == (kept + a)[|kept|..] == (kept + b)[|kept|..] == b;
    }
  }

  /** It can be otherwise: a later target takes the row another target is allowed. */
  lemma TargetTakesAllowedRow()
    ensures var applied := [Applied(["1", "1.2"], ["2"])];
            && FirstSeen(AllTargets(applied)) == ["1", "1.2"]
            && "1.2" in IdealGets([], ["1", "1.2"], applied) && "1.2" !in PlanOf([], [], applied).gets
  {
    var targets := ["1", "1.2"];
    var applied := [Applied(targets, ["2"])];
    TwoTargets(applied);
    RowOfOne();
    assert targets[..1] == ["1"];
    hide Rows, AllowedByAll, FirstSeen, AllTargets, RewriteGets, AllRows;
    InAllRows(targets, applied, "1.2");
    assert "1.2" in Rows(targets[0], AllowedByAll(applied, targets[0]));
    LastTargetTakes([], targets, applied);
  }

  lemma TwoTargets(applied: seq<Applied>)
    requires applied == [Applied(["1", "1.2"], ["2"])]
    ensures FirstSeen(AllTargets(applied)) == ["1", "1.2"]
    ensures AllowedByAll(applied, "1") == ["2"] && AllowedByAll(applied, "1.2") == ["2"]
  {
    OneFilter(applied[0]);
    hide AllTargets, AllowedByAll, FirstSeen;
    assert applied == [applied[0]] && "1" in applied[0].targets && "1.2" in applied[0].targets;
    FirstSeenTwo("1", "1.2");
  }

  lemma OneFilter(one: Applied)
    ensures AllTargets([one]) == one.targets
    ensures forall t :: t in one.targets ==> AllowedByAll([one], t) == one.allowed
  {
    assert [one][..0] == [] && [] + one.targets == one.targets;
  }

  lemma FirstSeenTwo(a: string, b: string)
    requires |a| != |b|
    ensures FirstSeen([a, b]) == [a, b]
  {
    assert [a, b][..1] == [a] && [a][..0] == [] && FirstSeen([a]) == [a];
  }

  lemma RowOfOne()
    ensures "1.2" in Rows("1", ["2"]) && "1.2" !in Rows("1.2", ["2"])
  {
    assert Rows("1", ["2"])[0] == "1" + "." + "2" == "1.2";
    forall r | r in Rows("1.2", ["2"]) ensures |r| == 5 {}
  }

  lemma LastTargetTakes(gets: seq<string>, targets: seq<string>, applied: seq<Applied>)
    requires targets != []
    ensures var last := targets[|targets| - 1];
            last in RewriteGets(gets, targets, applied) ==> last in Rows(last, AllowedByAll(applied, last))
  {
    hide AllowedByAll, Rows;
  }

  /** In particular nothing is lost when no filtered target is a text prefix of another. */
  lemma UnrelatedTargetsSurvive(targets: seq<string>, applied: seq<Applied>)
    requires forall i, j :: 0 <= i < |targets| && 0 <= j < |targets| && i != j ==> !(targets[i] <= targets[j])
    ensures RowsSurvive(targets, applied)
  {}

  lemma {:induction false} KeepWeaker<T(!new)>(s: seq<T>, p: T -> bool, q: T -> bool)
    requires forall x :: x in s && p(x) ==> q(x)
    ensures |Keep(s, p)| <= |Keep(s, q)|
    ensures Keep(s, p) == Keep(s, q) <==> forall x :: x in s && q(x) ==> p(x)
  {
    if s != [] {
      var front, last := s[..|s| - 1], s[|s| - 1];
      KeepWeaker(front, p, q);
      assert s == front + [last];
      if q(last) && !p(last) {
        assert |Keep(s, p)| < |Keep(s, q)|;
      } else if Keep(s, p) == Keep(s, q) && p(last) {
        assert Keep(front, p) == Keep(s, p)[..|Keep(s, p)| - 1] == Keep(s, q)[..|Keep(s, q)| - 1] == Keep(front, q);
      }
    }
  }

  function NotBelow(target: string): string -> bool { x => !Covers(target, x) }

  /** A filtered target takes the gets of its own subtree with it, and no others exactly when no get outside that
      subtree happens to have the target's text as a prefix. */
  lemma TargetTakesOwnSubtreeExactly(gets: seq<string>, target: string)
    ensures GetWithout(gets, target) == Keep(gets, NotBelow(target)) <==>
              forall g :: g in gets && target <= g ==> Covers(target, g)
  {
    forall g ensures NotUnder(target)(g) ==> NotBelow(target)(g) { CoversMeans(target, g); }
    KeepWeaker(gets, NotUnder(target), NotBelow(target));
  }

  /** It can: filtering column 1 of a table drops a get of column 10. */
  lemma TargetTakesNeighbour()
    ensures GetWithout(["1.3.10.7"], "1.3.1") == [] && !Covers("1.3.1", "1.3.10.7")
  {
    var get := "1.3.10.7";
    assert [get][..0] == [] && "1.3.1" <= get;
    assert ("1.3.1" + ".")[5] == '.' && (get + ".")[5] == '0';
  }

  // ---------------------------------------------------------------- fetching

  /** The requests: as many OIDs as allowed each, the rest in the last one. */
  function Batches(oids: seq<string>, max: nat): (r: seq<seq<string>>)
    requires max > 0
    decreases |oids|
  {
    if oids == [] then []
    else
      var k := Min(|oids|, max);
      [oids[..k]] + Batches(oids[k..], max)
  }

  /** Every OID is asked for exactly once, in order, in the fewest possible requests, none empty and none too large. */
  lemma {:induction false} BatchesPartition(oids: seq<string>, max: nat)
    requires max > 0
    ensures var b := Batches(oids, max);
            && Concat(b) == oids
            && (forall i :: 0 <= i < |b| ==> 0 < |b[i]| <= max)
            && (forall i :: 0 <= i < |b| - 1 ==> |b[i]| == max)
            && |oids| <= |b| * max
            && (b != [] ==> (|b| - 1) * max < |oids|)
    decreases |oids|
  {
    if oids != [] {
      var k := Min(|oids|, max);
      BatchesPartition(oids[k..], max);
      var tail := Batches(oids[k..], max);
      assert Batches(oids, max)[1..] == tail;
      assert oids[..k] + oids[k..] == oids;
      assert (|tail| + 1) * max == |tail| * max + max;
      if tail != [] {
        assert (|tail| - 1) * max + max == |tail| * max;
      }
    }
  }

  predicate Usable(v: Variable) { v.content.Value? }

  function UsableOnly(): Variable -> bool { v => Usable(v) }

  /** What one reply adds; None ends the scrape with an error. */
  function ReplyAdds(reply: Option<Packet>, version: int): Option<seq<Variable>> {
    match reply
    case None => None
    case Some(packet) =>
      if packet.error == NO_SUCH_NAME && version == 1 then Some([])
      else if packet.error != NO_ERROR then None
      else Some(Keep(packet.variables, UsableOnly()))
  }

  function Append(a: Option<seq<Variable>>, b: Option<seq<Variable>>): Option<seq<Variable>> {
    if a.Some? && b.Some? then Some(a.value + b.value) else None
  }

  /** The replies to all requests, the first being the n-th get. */
  function GetResults(agent: Agent, version: int, batches: seq<seq<string>>, n: nat): Option<seq<Variable>>
    decreases |batches|
  {
    if batches == [] then Some([])
    else Append(ReplyAdds(agent.get(n, batches[0]), version), GetResults(agent, version, batches[1..], n + 1))
  }

  function WalkResults(agent: Agent, walks: seq<string>, n: nat): Option<seq<Variable>>
    decreases |walks|
  {
    if walks == [] then Some([]) else Append(agent.walk(n, walks[0]), WalkResults(agent, walks[1..], n + 1))
  }

  /** SNMPv1 can report only one bad OID per request, and a request must ask for something. */
  function MaxOids(version: int, maxRepetitions: nat): (n: nat)
    ensures n > 0
  {
    if maxRepetitions == 0 || version == 1 then 1 else maxRepetitions
  }

  function ResultsOf(agent: Agent, matches: Matcher, filters: seq<Filter>, gets: seq<string>, walks: seq<string>,
                     version: int, maxRepetitions: nat): Option<seq<Variable>> {
    var plan := PlanOf(gets, walks, Successes(agent, matches, filters));
    Append(GetResults(agent, version, Batches(plan.gets, MaxOids(version, maxRepetitions)), 0),
           WalkResults(agent, plan.walks, |filters|))
  }

  lemma AppendAssoc(a: seq<Variable>, b: Option<seq<Variable>>, c: Option<seq<Variable>>)
    ensures Append(Some(a), Append(b, c)) == Append(Append(Some(a), b), c)
  {
    if b.Some? && c.Some? { assert a + (b.value + c.value) == a + b.value + c.value; }
  }

  lemma AppendNothing(a: Option<seq<Variable>>)
    ensures Append(Some([]), a) == a == Append(a, Some([]))
  {
    if a.Some? { assert [] + a.value == a.value == a.value + []; }
  }

  /** One reply in the get loop. */
  method TakeReply(packet: Option<Packet>, version: int, pdus: seq<Variable>) returns (ok: bool, results: seq<Variable>)
    ensures Append(Some(pdus), ReplyAdds(packet, version)) == if ok then Some(results) else None
  {
    results := pdus;
    if packet == None {
      return false, results;
    }
    if packet.value.error == NO_SUCH_NAME && version == 1 {
      assert pdus + [] == pdus;
      return true, results;
    }
    if packet.value.error != NO_ERROR {
      return false, results;
    }
    var vs := packet.value.variables;
    for i := 0 to |vs|
      invariant results == pdus + Keep(vs[..i], UsableOnly())
    {
      assert vs[..i + 1][..i] == vs[..i];
      if !(vs[i].content.NoSuchObject? || vs[i].content.NoSuchInstance? || vs[i].content.EndOfMibView?) {
        results := results + [vs[i]];
      }
    }
    assert vs[..|vs|] == vs;
    ok := true;
  }

  /** Peeling off one request, and the end of the requests. */
  lemma RequestStep(agent: Agent, version: int, oids: seq<string>, max: nat, n: nat)
    requires max > 0
    ensures oids == [] ==> Batches(oids, max) == [] && GetResults(agent, version, Batches(oids, max), n) == Some([])
    ensures oids != [] ==>
              var k := Min(|oids|, max);
              && Batches(oids, max) == [oids[..k]] + Batches(oids[k..], max)
              && GetResults(agent, version, Batches(oids, max), n)
                 == Append(ReplyAdds(agent.get(n, oids[..k]), version), GetResults(agent, version, Batches(oids[k..],
                     max), n + 1))
  {}

  /** The get loop; `asked` records its requests. */
  method GetAll(agent: Agent, version: int, maxOids: nat, newGet: seq<string>)
    returns (ok: bool, pdus: seq<Variable>, ghost asked: seq<seq<string>>)
    requires maxOids > 0
    ensures GetResults(agent, version, Batches(newGet, maxOids), 0) == if ok then Some(pdus) else None
    ensures asked <= Batches(newGet, maxOids) && (ok ==> asked == Batches(newGet, maxOids))
  {
    hide Batches, GetResults, ReplyAdds;
    var getOids := newGet;
    pdus, asked := [], [];
    var n := 0;
    AppendNothing(GetResults(agent, version, Batches(newGet, maxOids), 0));
    while getOids != []
      invariant asked + Batches(getOids, maxOids) == Batches(newGet, maxOids)
      invariant Append(Some(pdus), GetResults(agent, version, Batches(getOids, maxOids), n))
                == GetResults(agent, version, Batches(newGet, maxOids), 0)
      decreases |getOids|
    {
      var oids := Min(|getOids|, maxOids);
      RequestStep(agent, version, getOids, maxOids, n);
      var packet := agent.get(n, getOids[..oids]);
      AppendAssoc(pdus, ReplyAdds(packet, version), GetResults(agent, version, Batches(getOids[oids..], maxOids),
          n + 1));
      ok, pdus := TakeReply(packet, version, pdus);
      asked := asked + [getOids[..oids]];
      if !ok { return; }
      getOids := getOids[oids..];
      n := n + 1;
    }
    RequestStep(agent, version, getOids, maxOids, n);
    AppendNothing(Some(pdus));
    ok := true;
  }

  /** The reply lets the scrape go on: no error, or under SNMPv1 that a name does not exist. */
  predicate GoesThrough(reply: Option<Packet>, version: int) {
    reply.Some? && (reply.value.error == 0 || (version == 1 && reply.value.error == 2))
  }

  /** What a reply contributes: its variables that hold a value, in order; nothing when it reports an error. */
  ghost predicate Contributes(reply: Option<Packet>, part: seq<Variable>) {
    && reply.Some?
    && if reply.value.error != 0 then part == []
       else Selected(reply.value.variables, (v: Variable) => v.content.Value?, part)
  }

  ghost predicate AreContributions(agent: Agent, batches: seq<seq<string>>, n: nat, parts: seq<seq<Variable>>) {
    |parts| == |batches| && forall i :: 0 <= i < |batches| ==> Contributes(agent.get(n + i, batches[i]), parts[i])
  }

  ghost predicate AreWalked(agent: Agent, walks: seq<string>, n: nat, parts: seq<seq<Variable>>) {
    |parts| == |walks| && forall i :: 0 <= i < |walks| ==> agent.walk(n + i, walks[i]) == Some(parts[i])
  }

  /** The contributions of the replies in order, followed by what the walks returned in order. */
  ghost predicate IsCollected(agent: Agent, batches: seq<seq<string>>, walks: seq<string>, n: nat,
                              pdus: seq<Variable>) {
    exists got: seq<seq<Variable>>, walked: seq<seq<Variable>> ::
      && AreContributions(agent, batches, 0, got) && AreWalked(agent, walks, n, walked)
      && pdus == Concat(got) + Concat(walked)
  }

  /** Every get goes through and every walk succeeds. */
  ghost predicate AllGoThrough(agent: Agent, version: int, batches: seq<seq<string>>, walks: seq<string>, n: nat) {
    && (forall i :: 0 <= i < |batches| ==> GoesThrough(agent.get(i, batches[i]), version))
    && (forall i :: 0 <= i < |walks| ==> agent.walk(n + i, walks[i]).Some?)
  }

  lemma {:induction false} WalksCollected(agent: Agent, walks: seq<string>, n: nat) returns (parts: seq<seq<Variable>>)
    ensures WalkResults(agent, walks, n).Some? <==> forall i :: 0 <= i < |walks| ==> agent.walk(n + i, walks[i]).Some?
    ensures WalkResults(agent, walks, n).Some? ==>
              AreWalked(agent, walks, n, parts) && WalkResults(agent, walks, n).value == Concat(parts)
    decreases |walks|
  {
    parts := [];
    if walks != [] {
      var more := WalksCollected(agent, walks[1..], n + 1);
      var first := agent.walk(n, walks[0]);
      WalksShift(agent, walks, n);
      if WalkResults(agent, walks, n).Some? {
        parts := [first.value] + more;
        assert parts[1..] == more;
        forall i | 0 <= i < |walks| ensures agent.walk(n + i, walks[i]) == Some(parts[i]) {
          if i > 0 { assert agent.walk(n + 1 + (i - 1), walks[1..][i - 1]) == Some(more[i - 1]); }
        }
      }
    }
  }

  lemma WalksShift(agent: Agent, walks: seq<string>, n: nat)
    requires walks != []
    ensures (forall i :: 0 <= i < |walks| ==> agent.walk(n + i, walks[i]).Some?)
            <==> agent.walk(n, walks[0]).Some?
                 && forall i :: 0 <= i < |walks[1..]| ==> agent.walk(n + 1 + i, walks[1..][i]).Some?
  {
    if forall i :: 0 <= i < |walks| ==> agent.walk(n + i, walks[i]).Some? {
      assert agent.walk(n + 0, walks[0]).Some?;
      forall i | 0 <= i < |walks[1..]| ensures agent.walk(n + 1 + i, walks[1..][i]).Some? {
        assert agent.walk(n + (i + 1), walks[i + 1]).Some?;
      }
    } else {
      var i :| 0 <= i < |walks| && agent.walk(n + i, walks[i]) == None;
      if i > 0 { assert agent.walk(n + 1 + (i - 1), walks[1..][i - 1]) == None; }
    }
  }

  lemma {:induction false} GetsCollected(agent: Agent, version: int, batches: seq<seq<string>>, n: nat)
    returns (parts: seq<seq<Variable>>)
    ensures GetResults(agent, version, batches, n).Some?
            <==> forall i :: 0 <= i < |batches| ==> GoesThrough(agent.get(n + i, batches[i]), version)
    ensures GetResults(agent, version, batches, n).Some? ==>
              AreContributions(agent, batches, n, parts)
                  && GetResults(agent, version, batches, n).value == Concat(parts)
    decreases |batches|
  {
    hide Contributes, GoesThrough, ReplyAdds;
    parts := [];
    if batches != [] {
      var more := GetsCollected(agent, version, batches[1..], n + 1);
      var reply := agent.get(n, batches[0]);
      GetsShift(agent, version, batches, n);
      ReplyContributes(reply, version);
      if GetResults(agent, version, batches, n).Some? {
        parts := [ReplyAdds(reply, version).value] + more;
        assert parts[1..] == more;
        ContributionsShift(agent, batches, n, parts);
      }
    }
  }

  lemma ReplyContributes(reply: Option<Packet>, version: int)
    ensures ReplyAdds(reply, version).Some? <==> GoesThrough(reply, version)
    ensures ReplyAdds(reply, version).Some? ==> Contributes(reply, ReplyAdds(reply, version).value)
  {
    hide Selected;
    if reply.Some? {
      var variables := reply.value.variables;
      KeepSelects(variables, UsableOnly());
      SelectedSame(variables, UsableOnly(), (v: Variable) => v.content.Value?, Keep(variables, UsableOnly()));
    }
  }

  lemma ContributionsShift(agent: Agent, batches: seq<seq<string>>, n: nat, parts: seq<seq<Variable>>)
    requires batches != [] && |parts| == |batches| && AreContributions(agent, batches[1..], n + 1, parts[1..])
    requires Contributes(agent.get(n, batches[0]), parts[0])
    ensures AreContributions(agent, batches, n, parts)
  {
    hide Contributes;
    forall i | 0 <= i < |batches| ensures Contributes(agent.get(n + i, batches[i]), parts[i]) {
      if i > 0 {
        assert n + i == n + 1 + (i - 1) && batches[i] == batches[1..][i - 1] && parts[i] == parts[1..][i - 1];
      }
    }
  }

  lemma GetsShift(agent: Agent, version: int, batches: seq<seq<string>>, n: nat)
    requires batches != []
    ensures (forall i :: 0 <= i < |batches| ==> GoesThrough(agent.get(n + i, batches[i]), version))
            <==> GoesThrough(agent.get(n, batches[0]), version)
                 && forall i :: 0 <= i < |batches[1..]| ==> GoesThrough(agent.get(n + 1 + i, batches[1..][i]), version)
  {
    hide GoesThrough;
    if forall i :: 0 <= i < |batches| ==> GoesThrough(agent.get(n + i, batches[i]), version) {
      assert GoesThrough(agent.get(n + 0, batches[0]), version);
      forall i | 0 <= i < |batches[1..]| ensures GoesThrough(agent.get(n + 1 + i, batches[1..][i]), version) {
        assert GoesThrough(agent.get(n + (i + 1), batches[i + 1]), version);
      }
    } else {
      var i :| 0 <= i < |batches| && !GoesThrough(agent.get(n + i, batches[i]), version);
      if i > 0 { assert !GoesThrough(agent.get(n + 1 + (i - 1), batches[1..][i - 1]), version); }
    }
  }

  /** ScrapeTarget, from filters to results: it succeeds exactly when every get of the plan goes through and every
      walk of the plan succeeds, and then returns the variables with values of all replies and those of all walks, in
      order. */
  method ScrapeTarget(agent: Agent, matches: Matcher, filters: seq<Filter>, gets: seq<string>, walks: seq<string>,
                      version: int, maxRepetitions: nat) returns (ok: bool, pdus: seq<Variable>)
    ensures ResultsOf(agent, matches, filters, gets, walks, version, maxRepetitions) == if ok then Some(pdus) else None
    ensures var plan := PlanOf(gets, walks, Successes(agent, matches, filters));
            var batches := Batches(plan.gets, if maxRepetitions == 0 || version == 1 then 1 else maxRepetitions);
            && (ok <==> AllGoThrough(agent, version, batches, plan.walks, |filters|))
            && (ok ==> IsCollected(agent, batches, plan.walks, |filters|, pdus))
  {
    hide PlanOf, GetResults, Successes, Batches, Selected, IsFiltered, NoneBelowAnother, IsPlannedGet, AllGoThrough,
         IsCollected;
    var newGet, newWalk := ApplyFilters(agent, matches, filters, gets, walks);
    ResultsMean(agent, version, Batches(newGet, MaxOids(version, maxRepetitions)), newWalk, |filters|);
    var maxOids := maxRepetitions;
    if maxOids == 0 || version == 1 {
      maxOids := 1;
    }
    ghost var asked;
    ok, pdus, asked := GetAll(agent, version, maxOids, newGet);
    if !ok { return; }
    ghost var fetched := pdus;
    ghost var rest := WalkResults(agent, newWalk, |filters|);
    AppendNothing(Some(pdus));
    for i := 0 to |newWalk|
      invariant Append(Some(pdus), WalkResults(agent, newWalk[i..], |filters| + i)) == Append(Some(fetched), rest)
    {
      assert newWalk[i..][1..] == newWalk[i + 1..];
      var walked := agent.walk(|filters| + i, newWalk[i]);
      AppendAssoc(pdus, walked, WalkResults(agent, newWalk[i + 1..], |filters| + i + 1));
      if walked == None {
        return false, pdus;
      }
      pdus := pdus + walked.value;
    }
    AppendNothing(Some(pdus));
    ok := true;
  }

  lemma ResultsMean(agent: Agent, version: int, batches: seq<seq<string>>, walks: seq<string>, n: nat)
    ensures var r := Append(GetResults(agent, version, batches, 0), WalkResults(agent, walks, n));
            && (r.Some? <==> AllGoThrough(agent, version, batches, walks, n))
            && (r.Some? ==> IsCollected(agent, batches, walks, n, r.value))
  {
    hide GetResults, WalkResults, GoesThrough, AreContributions, AreWalked;
    var got := GetsCollected(agent, version, batches, 0);
    var walked := WalksCollected(agent, walks, n);
    assert (forall i :: 0 <= i < |batches| ==> GoesThrough(agent.get(0 + i, batches[i]), version))
        <==> (forall i :: 0 <= i < |batches| ==> GoesThrough(agent.get(i, batches[i]), version));
  }

  /** What the usable variables of the replies are, taken one OID at a time. */
  function PerOid(agent: Agent, oids: seq<string>, n: nat): Option<seq<Variable>>
    decreases |oids|
  {
    if oids == [] then Some([])
    else match agent.get(n, [oids[0]])
      case None => None
      case Some(packet) =>
        if packet.error == NO_SUCH_NAME then PerOid(agent, oids[1..], n + 1)
        else if packet.error != NO_ERROR then None
        else Append(Some(Keep(packet.variables, UsableOnly())), PerOid(agent, oids[1..], n + 1))
  }

  lemma {:induction false} OneRequestEach(agent: Agent, oids: seq<string>, maxRepetitions: nat, n: nat)
    ensures GetResults(agent, 1, Batches(oids, MaxOids(1, maxRepetitions)), n) == PerOid(agent, oids, n)
    decreases |oids|
  {
    if oids != [] {
      OneRequestEach(agent, oids[1..], maxRepetitions, n + 1);
      AppendNothing(PerOid(agent, oids[1..], n + 1));
      assert oids[..1] == [oids[0]];
    }
  }

  /** The agent answers a request for one OID the same whenever it is made. */
  ghost predicate Steady(agent: Agent) { forall i, j, oid :: agent.get(i, [oid]) == agent.get(j, [oid]) }

  /** The agent does not answer a request for this OID with NoSuchName. */
  function Known(agent: Agent): string -> bool {
    oid => match agent.get(0, [oid]) case None => true case Some(packet) => packet.error != NO_SUCH_NAME
  }

  lemma {:induction false} PerOidWithoutBad(agent: Agent, oids: seq<string>, n: nat, n': nat)
    requires Steady(agent)
    ensures PerOid(agent, oids, n) == PerOid(agent, Keep(oids, Known(agent)), n')
    decreases |oids|
  {
    if oids != [] {
      var rest := oids[1..];
      KeepFirst(oids, Known(agent));
      assert agent.get(n, [oids[0]]) == agent.get(0, [oids[0]]) == agent.get(n', [oids[0]]);
      if Known(agent)(oids[0]) {
        PerOidWithoutBad(agent, rest, n + 1, n' + 1);
        assert ([oids[0]] + Keep(rest, Known(agent)))[1..] == Keep(rest, Known(agent));
      } else {
        PerOidWithoutBad(agent, rest, n + 1, n');
        assert [] + Keep(rest, Known(agent)) == Keep(rest, Known(agent));
      }
    }
  }

  /** With SNMPv1 each OID is its own request, so an OID the device does not know costs exactly its own result: the
      others come out as if it had not been asked for. */
  lemma VersionOneDropsOnlyBadOids(agent: Agent, oids: seq<string>, maxRepetitions: nat, n: nat)
    requires Steady(agent)
    ensures var max := MaxOids(1, maxRepetitions);
            GetResults(agent, 1, Batches(oids, max), n)
                == GetResults(agent, 1, Batches(Keep(oids, Known(agent)), max), n)
  {
    hide GetResults, Batches, PerOid, Steady;
    OneRequestEach(agent, oids, maxRepetitions, n);
    OneRequestEach(agent, Keep(oids, Known(agent)), maxRepetitions, n);
    PerOidWithoutBad(agent, oids, n, n);
  }
}
