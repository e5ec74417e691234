/** From a matched variable to label names and texts: the index loop, the lookups, and the name the value itself adds.
    */
module Labels {
  import opened Text
  import opened Config
  import opened Oid
  import opened IndexCodec
  import opened ValueText
  import opened IndexRoundTrip

  /** The two maps of indexesToLabels: label texts, and the sub-identifiers a lookup can use. */
  datatype Table = Table(labels: map<string, string>, oids: map<string, seq<int>>)

  type Pdus = map<string, Pdu>

  // ---------------------------------------------------------------- what the two loops compute

  function SetIndex(t: Table, name: string, d: Decoded): Table {
    Table(t.labels[name := d.text], t.oids[name := d.used])
  }

  /** The table after the given indexes, each decoding what the previous ones left. */
  function IndexLabels(t: Table, oid: SubIds, indexes: seq<Index>): Option<Table>
    decreases |indexes|
  {
    if indexes == [] then Some(t)
    else match DecodeIndex(oid, indexes[0])
      case None => None
      case Some(d) => IndexLabels(SetIndex(t, indexes[0].labelname, d), d.remaining, indexes[1..])
  }

  /** A label that was never set stands for an empty list. */
  function OidsOf(t: Table, name: string): seq<int> { if name in t.oids then t.oids[name] else [] }

  /** `fmt.Sprintf("%s.%s", oid, listToOid(labelOids[label]))`, label after label. */
  function RowOid(oid: string, t: Table, names: seq<string>): string
    decreases |names|
  {
    if names == [] then oid else RowOid(oid + "." + ListToOid(OidsOf(t, names[0])), t, names[1..])
  }

  /** The type a lookup's value is read with: a combined type is resolved by the variable in the previous column. */
  function LookupType(t: Table, lookup: Lookup, pdus: Pdus): Type {
    if !IsCombined(lookup.typ) then lookup.typ
    else
      var prev := RowOid(PrevOid(lookup.oid), t, lookup.labels);
      if prev !in pdus then lookup.typ
      else match CombinedType(lookup.typ, IntOf(pdus[prev]))
        case Some(actual) => actual
        case None => lookup.typ
  }

  function LookupText(p: Pdu, typ: Type, lookup: Lookup): Option<string> {
    if typ == EnumAsInfo && lookup.enumValues != map[] then
      var n := IntOf(p);
      Some(if n in lookup.enumValues then lookup.enumValues[n] else Itoa(n))
    else PduText(p, typ, lookup.displayHint)
  }

  /** One lookup: without source labels it removes a label, otherwise it sets one. */
  function LookupStep(t: Table, lookup: Lookup, pdus: Pdus): Option<Table> {
    if lookup.labels == [] then Some(t.(labels := t.labels - {lookup.labelname}))
    else
      var oid := RowOid(lookup.oid, t, lookup.labels);
      if oid !in pdus then Some(t.(labels := t.labels[lookup.labelname := ""]))
      else match LookupText(pdus[oid], LookupType(t, lookup, pdus), lookup)
        case None => None
        case Some(text) =>
          Some(Table(t.labels[lookup.labelname := text], t.oids[lookup.labelname := [IntOf(pdus[oid])]]))
  }

  function LookupLabels(t: Table, lookups: seq<Lookup>, pdus: Pdus): Option<Table>
    decreases |lookups|
  {
    if lookups == [] then Some(t)
    else match LookupStep(t, lookups[0], pdus)
      case None => None
      case Some(next) => LookupLabels(next, lookups[1..], pdus)
  }

  function LabelsOf(oid: SubIds, metric: Metric, pdus: Pdus): Option<Table> {
    match IndexLabels(Table(map[], map[]), oid, metric.indexes)
    case None => None
    case Some(t) => LookupLabels(t, metric.lookups, pdus)
  }

  method BuildRowOid(start: string, labelOids: map<string, seq<int>>, ghost t: Table, names: seq<string>)
    returns (oid: string)
    requires t.oids == labelOids
    ensures oid == RowOid(start, t, names)
  {
    oid := start;
    for i := 0 to |names|
      invariant RowOid(oid, t, names[i..]) == RowOid(start, t, names)
    {
      assert names[i..][1..] == names[i + 1..];
      oid := oid + "." + ListToOid(if names[i] in labelOids then labelOids[names[i]] else []);
    }
  }

  /** The body of the lookup loop. */
  method ApplyLookup(labels: map<string, string>, labelOids: map<string, seq<int>>, lookup: Lookup, pdus: Pdus)
    returns (ok: bool, labels': map<string, string>, labelOids': map<string, seq<int>>)
    ensures LookupStep(Table(labels, labelOids), lookup, pdus) == if ok then Some(Table(labels', labelOids')) else None
  {
    ghost var t := Table(labels, labelOids);
    ok, labels', labelOids' := true, labels, labelOids;
    if lookup.labels == [] {
      labels' := labels - {lookup.labelname};
      return;
    }
    var oid := BuildRowOid(lookup.oid, labelOids, t, lookup.labels);
    if oid !in pdus {
      labels' := labels[lookup.labelname := ""];
      return;
    }
    var typ := lookup.typ;
    if IsCombined(lookup.typ) {
      var prevOid := BuildRowOid(PrevOid(lookup.oid), labelOids, t, lookup.labels);
      if prevOid in pdus {
        var actual := CombinedType(lookup.typ, IntOf(pdus[prevOid]));
        if actual.Some? { typ := actual.value; }
      }
    }
    var text := LookupText(pdus[oid], typ, lookup);
    if text == None {
      return false, labels, labelOids;
    }
    labels' := labels[lookup.labelname := text.value];
    labelOids' := labelOids[lookup.labelname := [IntOf(pdus[oid])]];
  }

  /** indexesToLabels.  `ok` is false where the source panics on a type it cannot decode. */
  method IndexesToLabels(oid: SubIds, metric: Metric, pdus: Pdus) returns (ok: bool, labels: map<string, string>)
    ensures ok == LabelsOf(oid, metric, pdus).Some?
    ensures ok ==> labels == LabelsOf(oid, metric, pdus).value.labels
  {
    hide DecodeIndex, LookupStep;
    var labelOids: map<string, seq<int>> := map[];
    labels := map[];
    var indexOids := oid;
    for i := 0 to |metric.indexes|
      invariant IndexLabels(Table(labels, labelOids), indexOids, metric.indexes[i..])
                == IndexLabels(Table(map[], map[]), oid, metric.indexes)
    {
      assert metric.indexes[i..][1..] == metric.indexes[i + 1..];
      var d := DecodeIndex(indexOids, metric.indexes[i]);
      if d == None {
        return false, labels;
      }
      labels := labels[metric.indexes[i].labelname := d.value.text];
      labelOids := labelOids[metric.indexes[i].labelname := d.value.used];
      indexOids := d.value.remaining;
    }
    for i := 0 to |metric.lookups|
      invariant LookupLabels(Table(labels, labelOids), metric.lookups[i..], pdus) == LabelsOf(oid, metric, pdus)
    {
      assert metric.lookups[i..][1..] == metric.lookups[i + 1..];
      ok, labels, labelOids := ApplyLookup(labels, labelOids, metric.lookups[i], pdus);
      if !ok { return; }
    }
    ok := true;
  }

  // ---------------------------------------------------------------- label names

  /** What the configuration does to label names, in order: true sets a name, false removes it. */
  function NameOps(metric: Metric): seq<(string, bool)> { IndexOps(metric.indexes) + LookupOps(metric.lookups) }

  function IndexOps(indexes: seq<Index>): seq<(string, bool)> { Map((i: Index) => (i.labelname, true), indexes) }

  function LookupOps(lookups: seq<Lookup>): seq<(string, bool)> {
    Map((l: Lookup) => (l.labelname, l.labels != []), lookups)
  }

  /** The last thing done to a name was to set it. */
  ghost predicate SetLast(ops: seq<(string, bool)>, name: string) {
    exists i :: 0 <= i < |ops| && ops[i] == (name, true) && forall j :: i < j < |ops| ==> ops[j].0 != name
  }

  lemma SetLastStep(ops: seq<(string, bool)>, op: (string, bool), name: string)
    ensures SetLast(ops + [op], name) <==> if op.0 == name then op.1 else SetLast(ops, name)
  {
    var all := ops + [op];
    if op == (name, true) {
      assert all[|ops|] == (name, true);
    }
    if i :| 0 <= i < |ops| && ops[i] == (name, true) && forall j :: i < j < |ops| ==> ops[j].0 != name {
      assert op.0 != name ==> all[i] == (name, true) && forall j :: i < j < |all| ==> all[j].0 != name;
    }
    if i :| 0 <= i < |all| && all[i] == (name, true) && forall j :: i < j < |all| ==> all[j].0 != name {
      assert all[|ops|] == op;
      if op.0 != name {
        assert i < |ops| && ops[i] == all[i] && forall j :: i < j < |ops| ==> ops[j] == all[j];
      }
    }
  }

  ghost predicate NamesAre(t: Table, ops: seq<(string, bool)>) {
    forall name :: name in t.labels <==> SetLast(ops, name)
  }

  lemma {:induction false} IndexNames(t: Table, oid: SubIds, indexes: seq<Index>, ops: seq<(string, bool)>)
    requires NamesAre(t, ops) && IndexLabels(t, oid, indexes).Some?
    ensures NamesAre(IndexLabels(t, oid, indexes).value, ops + IndexOps(indexes))
    decreases |indexes|
  {
    hide DecodeIndex, SetLast;
    var more := IndexOps(indexes);
    if indexes == [] {
      assert ops + more == ops;
    } else {
      var d := DecodeIndex(oid, indexes[0]).value;
      var op := (indexes[0].labelname, true);
      forall name ensures name in SetIndex(t, indexes[0].labelname, d).labels <==> SetLast(ops + [op], name) {
        SetLastStep(ops, op, name);
      }
      IndexNames(SetIndex(t, indexes[0].labelname, d), d.remaining, indexes[1..], ops + [op]);
      assert ops + more == ops + [op] + IndexOps(indexes[1..]);
    }
  }

  lemma {:induction false} LookupNames(t: Table, lookups: seq<Lookup>, pdus: Pdus, ops: seq<(string, bool)>)
    requires NamesAre(t, ops) && LookupLabels(t, lookups, pdus).Some?
    ensures NamesAre(LookupLabels(t, lookups, pdus).value, ops + LookupOps(lookups))
    decreases |lookups|
  {
    hide SetLast, RowOid, LookupText, LookupType;
    var more := LookupOps(lookups);
    if lookups == [] {
      assert ops + more == ops;
    } else {
      var next := LookupStep(t, lookups[0], pdus).value;
      var op := (lookups[0].labelname, lookups[0].labels != []);
      forall name ensures name in next.labels <==> SetLast(ops + [op], name) {
        SetLastStep(ops, op, name);
      }
      LookupNames(next, lookups[1..], pdus, ops + [op]);
      assert ops + more == ops + [op] + LookupOps(lookups[1..]);
    }
  }

  /** Label names come from the configuration alone, never from what the device returned: a label is there exactly
      when the last index or lookup naming it sets it. */
  lemma NamesFromConfig(oid: SubIds, metric: Metric, pdus: Pdus)
    requires LabelsOf(oid, metric, pdus).Some?
    ensures forall name :: name in LabelsOf(oid, metric, pdus).value.labels <==> SetLast(NameOps(metric), name)
  {
    var start := Table(map[], map[]);
    var t := IndexLabels(start, oid, metric.indexes).value;
    var ops: seq<(string, bool)> := [];
    assert NamesAre(start, ops);
    IndexNames(start, oid, metric.indexes, ops);
    var indexOps := IndexOps(metric.indexes);
    assert ops + indexOps == indexOps;
    LookupNames(t, metric.lookups, pdus, indexOps);
  }

  // ---------------------------------------------------------------- the names of a sample

  datatype SampleKind = Numeric | StringValue | EnumInfo | EnumStateSet | BitSet

  predicate Distinct(names: seq<string>) { forall i, j :: 0 <= i < j < |names| ==> names[i] != names[j] }

  /** The label names handed to the client library, after the labels in some order; None when no sample is made. */
  function SampleNames(kind: SampleKind, labelnames: seq<string>, name: string): Option<seq<string>> {
    match kind
    case Numeric => Some(labelnames)
    case StringValue => Some(if name in labelnames then labelnames else labelnames + [name])
    case EnumInfo => if name in labelnames then None else Some(labelnames + [name])
    case EnumStateSet => Some(labelnames + [name])
    case BitSet => Some(labelnames + [name])
  }

  lemma NameAdded(kind: SampleKind, labelnames: seq<string>, name: string)
    requires Distinct(labelnames)
    ensures var names := SampleNames(kind, labelnames, name);
            && (names == None <==> kind.EnumInfo? && name in labelnames)
            && (names.Some? ==>
                  && (forall x :: x in names.value <==> x in labelnames || (!kind.Numeric? && x == name))
                  && (Distinct(names.value) <==> !((kind.EnumStateSet? || kind.BitSet?) && name in labelnames)))
  {
    if (kind.EnumStateSet? || kind.BitSet?) && name in labelnames {
      var i :| 0 <= i < |labelnames| && labelnames[i] == name;
      var all := labelnames + [name];
      assert all[i] == all[|labelnames|];
    }
  }

  /** The label names of a sample are a function of the metric's configuration and kind, whatever the device
      returned and in whatever order the labels are listed: a name is there exactly when the last index or lookup naming
      it sets it, or it is the metric's own, which all but numbers add. No name is repeated, except exactly in a state
      set or bit set metric that has its own name as a label; an info metric with that label makes no sample. */
  lemma SampleNamesDistinct(oid: SubIds, metric: Metric, pdus: Pdus, kind: SampleKind, labelnames: seq<string>)
    requires LabelsOf(oid, metric, pdus).Some?
    requires Distinct(labelnames) && forall x :: x in labelnames <==> x in LabelsOf(oid, metric, pdus).value.labels
    ensures var names, own := SampleNames(kind, labelnames, metric.name), SetLast(NameOps(metric), metric.name);
            && (names == None <==> kind.EnumInfo? && own)
            && (names.Some? ==>
                  && (forall x :: x in names.value <==>
                        SetLast(NameOps(metric), x) || (!kind.Numeric? && x == metric.name))
                  && (Distinct(names.value) <==> !((kind.EnumStateSet? || kind.BitSet?) && own)))
  {
    hide LabelsOf, SetLast, NameOps, SampleNames, Distinct;
    NamesFromConfig(oid, metric, pdus);
    NameAdded(kind, labelnames, metric.name);
  }

  /** For instance, a state set labelled by its own name. */
  lemma StateSetRepeatsName()
    ensures SampleNames(EnumStateSet, ["a"], "a") == Some(["a", "a"]) && !Distinct(["a", "a"])
  {
    assert ["a"] + ["a"] == ["a", "a"];
    assert ["a", "a"][0] == ["a", "a"][1];
  }

  // ---------------------------------------------------------------- lookups find their row

  function SourceOids(t: Table, names: seq<string>): seq<int> {
    if names == [] then [] else OidsOf(t, names[0]) + SourceOids(t, names[1..])
  }

  /** A lookup asks for the variable of its own column in the row named by its source labels, provided these labels
      have sub-identifiers. */
  lemma {:induction false} LookupFindsRow(column: seq<int>, t: Table, names: seq<string>)
    requires column != [] && forall i :: 0 <= i < |names| ==> OidsOf(t, names[i]) != []
    ensures RowOid(ListToOid(column), t, names) == ListToOid(column + SourceOids(t, names))
    decreases |names|
  {
    hide ListToOid, OidsOf;
    if names == [] {
      assert column + [] == column;
    } else {
      var own := OidsOf(t, names[0]);
      ListToOidAppend(column, own);
      LookupFindsRow(column + own, t, names[1..]);
      assert column + SourceOids(t, names) == column + own + SourceOids(t, names[1..]);
    }
  }

  /** After the index loop every label of the row holds its value's text and its own sub-identifiers. */
  lemma {:induction false} RowLabels(t: Table, vs: seq<Value>, names: seq<string>, rest: SubIds)
    requires |vs| == |names| && WellFormedList(vs, rest) && Distinct(names)
    ensures var r := IndexLabels(t, EncodeAll(vs) + rest, IndexesOf(vs, names));
            && r.Some?
            && (forall i :: 0 <= i < |vs| ==>
                  && names[i] in r.value.labels && r.value.labels[names[i]] == TextOf(vs[i])
                  && OidsOf(r.value, names[i]) == Encode(vs[i]))
            && (forall n :: n !in names ==>
                  && (n in r.value.labels <==> n in t.labels) && (n in t.labels ==> r.value.labels[n] == t.labels[n])
                  && OidsOf(r.value, n) == OidsOf(t, n))
    decreases |vs|
  {
    hide DecodeIndex, TextOf, Encode, IndexOf, WellFormedList, WellFormed, Greedy, EncodeAll;
    if vs != [] {
      var after := EncodeAll(vs[1..]) + rest;
      GreedyIsLast(vs, rest);
      ValueRoundTrip(vs[0], names[0], after);
      EncodeAllStep(vs);
      assert EncodeAll(vs) + rest == Encode(vs[0]) + after;
      var d := Decoded(TextOf(vs[0]), Encode(vs[0]), after);
      NameOfIndex(vs[0], names[0]);
      RowLabels(SetIndex(t, names[0], d), vs[1..], names[1..], rest);
      assert names[0] !in names[1..];
    }
  }

  lemma EncodeAllStep(vs: seq<Value>)
    requires vs != []
    ensures EncodeAll(vs) == Encode(vs[0]) + EncodeAll(vs[1..])
  {}

  lemma NameOfIndex(v: Value, name: string)
    ensures IndexOf(v, name).labelname == name
  {}

  /** The values at the given positions of a row, and their labels. */
  function Picked<T>(s: seq<T>, at: seq<nat>): (r: seq<T>)
    requires forall i :: 0 <= i < |at| ==> at[i] < |s|
    ensures |r| == |at|
  {
    if at == [] then [] else [s[at[0]]] + Picked(s, at[1..])
  }

  lemma EncodingNotEmpty(v: Value)
    requires WellFormed(v)
    ensures Encode(v) != []
  {}

  lemma {:induction false} PickedOids(t: Table, vs: seq<Value>, names: seq<string>, at: seq<nat>)
    requires |vs| == |names| && (forall i :: 0 <= i < |at| ==> at[i] < |vs|)
    requires forall i :: 0 <= i < |vs| ==> WellFormed(vs[i]) && OidsOf(t, names[i]) == Encode(vs[i])
    ensures SourceOids(t, Picked(names, at)) == EncodeAll(Picked(vs, at))
    ensures forall n :: n in Picked(names, at) ==> OidsOf(t, n) != []
  {
    hide Encode, WellFormed, OidsOf;
    if at != [] {
      PickedOids(t, vs, names, at[1..]);
      EncodingNotEmpty(vs[at[0]]);
      EncodeAllStep(Picked(vs, at));
    }
  }

  /** A lookup by any labels of a decoded row asks for its column at exactly the encoding of those labels' values. */
  lemma LookupOfRow(t: Table, vs: seq<Value>, names: seq<string>, rest: SubIds, column: seq<int>, at: seq<nat>)
    requires |vs| == |names| && WellFormedList(vs, rest) && Distinct(names) && column != []
    requires forall i :: 0 <= i < |at| ==> at[i] < |vs|
    ensures var r := IndexLabels(t, EncodeAll(vs) + rest, IndexesOf(vs, names));
            r.Some? && RowOid(ListToOid(column), r.value, Picked(names,
                at)) == ListToOid(column + EncodeAll(Picked(vs, at)))
  {
    hide IndexLabels, IndexesOf, RowOid, ListToOid, Encode, EncodeAll, WellFormed, OidsOf, SourceOids;
    RowLabels(t, vs, names, rest);
    var r := IndexLabels(t, EncodeAll(vs) + rest, IndexesOf(vs, names)).value;
    PickedOids(r, vs, names, at);
    LookupFindsRow(column, r, Picked(names, at));
  }
}
