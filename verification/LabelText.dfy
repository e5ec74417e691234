/** What a label's text is, in the end: of an index label the text of its value, of a looked-up label the text of the
    variable the lookup asks for. */
module LabelText {
  import opened Text
  import opened Config
  import opened Oid
  import opened IndexCodec
  import opened ValueText
  import opened Labels
  import opened Notation
  import DisplayHint
  import IndexRoundTrip
  import GoInt

  // ---------------------------------------------------------------- the integer of a variable

  /** k is the variable's value as an int: a number wraps to 64 bits, a text counts as the number it spells if that
      is an int, anything else as 0. */
  ghost predicate IsIntOf(k: int, p: Pdu) {
    match p
    case Number(n) => IsInt(k) && (n - k) % GoInt.TWO_64 == 0
    case Text(text) => IsSpelled(k, text)
    case ObjectId(oid) => IsSpelled(k, oid)
    case _ => k == 0
  }

  /** k is the int the text spells, with an optional sign; 0 when it spells none. */
  predicate IsSpelled(k: int, s: string) {
    var digits := if s != [] && (s[0] == '-' || s[0] == '+') then s[1..] else s;
    if digits == [] || !AllDigits(digits) then k == 0
    else
      var n := NumeralValue(digits, 10) * if s[0] == '-' then -1 else 1;
      if IsInt(n) then k == n else k == 0
  }

  lemma IntOfIs(p: Pdu)
    ensures IsIntOf(IntOf(p), p) && forall k :: IsIntOf(k, p) ==> k == IntOf(p)
  {
    if p.Number? {
      forall k | IsIntOf(k, p) ensures k == IntOf(p) { SameResidue(p.n, k, IntOf(p)); }
    }
  }

  lemma SameResidue(n: int, k: int, w: int)
    requires IsInt(k) && (n - k) % GoInt.TWO_64 == 0 && w == GoInt.Wrap(n)
    ensures k == w
  {
    var q := (n - k) / GoInt.TWO_64;
    assert n == k + q * GoInt.TWO_64;
  }

  // ---------------------------------------------------------------- the text of a variable

  /** The first k octets, filled up with zeros. */
  function Padded(v: seq<byte>, k: nat): (r: seq<byte>)
    ensures |r| == k && forall i :: 0 <= i < k ==> r[i] == if i < |v| then v[i] else 0
  {
    seq(k, i => if 0 <= i < |v| then v[i] else 0)
  }

  /** Octets as a label shows them, type by type.  A type that is still combined is left to the index decoder. */
  ghost predicate ShowsOctets(text: string, v: seq<byte>, typ: Type, hint: string) {
    var hinted := hint != [] && (typ == OctetString || typ == NO_TYPE) && DisplayHint.Render(hint, v).Some?;
    match typ
    case OctetString => if hinted then text == DisplayHint.Render(hint, v).value else IsHexTextOf(text, v)
    case Other(name) =>
      && (name == "" || name == "Bits")
      && if hinted then text == DisplayHint.Render(hint, v).value else IsHexTextOf(text, v)
    case DisplayString => IsRawOf(text, v)
    case PhysAddress48 => IsMacOf(text, Padded(v, 6))
    case InetAddressIPv4 => IsDottedOf(text, Padded(v, 4))
    case InetAddressIPv6 => IsIpv6Of(text, Padded(v, 16))
    case Integer => IsNumeralOf(text, Padded(v, 1)[0])
    case EnumAsInfo => IsNumeralOf(text, Padded(v, 1)[0])
    case _ => OctetsText(v, typ, hint) == Some(text)
  }

  lemma SplitIsPadded(v: seq<byte>, k: nat)
    ensures var parts: SubIds := v; Split(parts, k).0 == Padded(v, k)
  {
    var parts: SubIds := v;
    assert |Split(parts, k).0| == k;
  }

  lemma OctetsShown(v: seq<byte>, typ: Type, hint: string)
    requires OctetsText(v, typ, hint).Some?
    ensures ShowsOctets(OctetsText(v, typ, hint).value, v, typ, hint)
  {
    hide IsRawOf, IsHexTextOf, IsMacOf, IsDottedOf, IsIpv6Of, IsNumeralOf, HexText, MacText, DottedText, Ipv6Text,
         Decimal, DisplayHint.Render, Padded, Split, Raw, DecodeString;
    match typ
    case OctetString => StringOctets(v, hint, typ);
    case Other(_) => StringOctets(v, hint, typ);
    case DisplayString => RawOctets(v, hint);
    case PhysAddress48 =>
      SplitIsPadded(v, 6);
      MacIs(Padded(v, 6));
    case InetAddressIPv4 =>
      SplitIsPadded(v, 4);
      DottedIs(Padded(v, 4));
    case InetAddressIPv6 =>
      SplitIsPadded(v, 16);
      Ipv6Is(Padded(v, 16));
    case Integer =>
      SplitIsPadded(v, 1);
      DecimalShown(Padded(v, 1)[0]);
    case EnumAsInfo =>
      SplitIsPadded(v, 1);
      DecimalShown(Padded(v, 1)[0]);
    case _ =>
  }

  lemma StringOctets(v: seq<byte>, hint: string, typ: Type)
    requires (typ == OctetString || typ.Other?) && OctetsText(v, typ, hint).Some?
    ensures ShowsOctets(OctetsText(v, typ, hint).value, v, typ, hint)
  {
    hide IsHexTextOf, HexText, DisplayHint.Render;
    HexTextIs(v);
    DefaultText(v, []);
    if hint == [] || DisplayHint.Render(hint, v) == None { DefaultText(v, hint); }
    if typ.Other? { OtherTypes(v, hint, typ); }
  }

  lemma OtherTypes(v: seq<byte>, hint: string, typ: Type)
    requires typ.Other? && OctetsText(v, typ, hint).Some?
    ensures typ == NO_TYPE || typ == BITS
    ensures typ == BITS ==> OctetsText(v, typ, hint) == OctetsText(v, OctetString, [])
  {}

  lemma RawOctets(v: seq<byte>, hint: string)
    ensures OctetsText(v, DisplayString, hint) == Some(Raw(v)) && IsRawOf(Raw(v), v)
  {
    DefaultText(v, []);
    RawIs(v);
  }

  /** A variable as the text of a looked-up label: with names, the name or numeral of its integer; otherwise numbers in
      decimal, texts as they are, object identifiers without their leading dot, octets by type. */
  ghost predicate ShowsValue(text: string, p: Pdu, typ: Type, lookup: Lookup) {
    if typ == EnumAsInfo && lookup.enumValues != map[] then
      exists k :: IsIntOf(k, p) && if k in lookup.enumValues then text == lookup.enumValues[k] else IsNumeralOf(text, k)
    else match p
      case Number(n) => IsNumeralOf(text, n)
      case Octets(bytes) => ShowsOctets(text, bytes, typ, lookup.displayHint)
      case ObjectId(oid) => |oid| == |text| + 1 && oid[1..] == text
      case Text(s) => text == s
      case Null => text == ""
  }

  lemma ValueShown(p: Pdu, typ: Type, lookup: Lookup)
    requires LookupText(p, typ, lookup).Some?
    ensures ShowsValue(LookupText(p, typ, lookup).value, p, typ, lookup)
  {
    hide IsIntOf, IntOf, ShowsOctets, OctetsText, IsNumeralOf, Itoa;
    IntOfIs(p);
    ItoaIsNumeral(IntOf(p));
    match p
    case Number(n) => ItoaIsNumeral(n);
    case Octets(bytes) =>
      if !(typ == EnumAsInfo && lookup.enumValues != map[]) { OctetsShown(bytes, typ, lookup.displayHint); }
    case _ =>
  }

  /** The type a lookup's value is read with: for a combined type the one the previous column announces in the same
      row. */
  ghost predicate IsReadAs(typ: Type, declared: Type, announced: Option<Pdu>) {
    if announced == None || declared !in {InetAddress, InetAddressMissingSize, LldpPortId} then typ == declared
    else
      exists k :: IsIntOf(k, announced.value) &&
        if declared == LldpPortId then
          typ == if k == 3 then PhysAddress48 else if k in {1, 2, 5, 7} then DisplayString else declared
        else typ == if k == 1 then InetAddressIPv4 else if k == 2 then InetAddressIPv6 else declared
  }

  function Found(pdus: Pdus, oid: string): Option<Pdu> { if oid in pdus then Some(pdus[oid]) else None }

  lemma TypeIs(t: Table, lookup: Lookup, pdus: Pdus)
    ensures IsReadAs(LookupType(t, lookup, pdus), lookup.typ,
                Found(pdus, RowOid(PrevOid(lookup.oid), t, lookup.labels)))
  {
    hide IsIntOf, IntOf, RowOid, PrevOid;
    var prev := RowOid(PrevOid(lookup.oid), t, lookup.labels);
    if prev in pdus {
      IntOfIs(pdus[prev]);
      assert IsIntOf(IntOf(pdus[prev]), pdus[prev]);
    }
  }

  // ---------------------------------------------------------------- what later steps leave alone

  ghost predicate SameLabel(t: Table, u: Table, name: string) {
    && (name in t.labels <==> name in u.labels) && (name in t.labels ==> t.labels[name] == u.labels[name])
    && OidsOf(t, name) == OidsOf(u, name)
  }

  lemma {:induction false} LookupsKeep(t: Table, lookups: seq<Lookup>, pdus: Pdus, name: string)
    requires LookupLabels(t, lookups, pdus).Some? && forall k :: 0 <= k < |lookups| ==> lookups[k].labelname != name
    ensures SameLabel(t, LookupLabels(t, lookups, pdus).value, name)
    decreases |lookups|
  {
    hide RowOid, LookupText, LookupType;
    if lookups != [] { LookupsKeep(LookupStep(t, lookups[0], pdus).value, lookups[1..], pdus, name); }
  }

  lemma {:induction false} LookupsInParts(t: Table, lookups: seq<Lookup>, i: nat, pdus: Pdus)
    requires i <= |lookups|
    ensures LookupLabels(t, lookups, pdus)
            == match LookupLabels(t, lookups[..i], pdus)
               case None => None
               case Some(u) => LookupLabels(u, lookups[i..], pdus)
    decreases i
  {
    hide LookupStep;
    if i == 0 {
      assert lookups[..0] == [] && lookups[0..] == lookups;
    } else {
      assert lookups[..i][1..] == lookups[1..][..i - 1] && lookups[1..][i - 1..] == lookups[i..];
      var step := LookupStep(t, lookups[0], pdus);
      if step.Some? { LookupsInParts(step.value, lookups[1..], i - 1, pdus); }
    }
  }

  // ---------------------------------------------------------------- labels

  /** The table the i-th lookup finds. */
  function TableBefore(oid: SubIds, metric: Metric, pdus: Pdus, i: nat): Option<Table>
    requires i <= |metric.lookups|
  {
    match IndexLabels(Table(map[], map[]), oid, metric.indexes)
    case None => None
    case Some(t) => LookupLabels(t, metric.lookups[..i], pdus)
  }

  /** The last lookup naming a label decides it: the label shows the variable the lookup asks for, read with the type
      declared or announced, and gets that variable's integer as its sub-identifiers; it is empty if there is none. */
  lemma LookedUpLabel(oid: SubIds, metric: Metric, pdus: Pdus, i: nat)
    requires LabelsOf(oid, metric, pdus).Some? && i < |metric.lookups| && metric.lookups[i].labels != []
    requires forall j :: i < j < |metric.lookups| ==> metric.lookups[j].labelname != metric.lookups[i].labelname
    ensures TableBefore(oid, metric, pdus, i).Some?
    ensures var t, l := TableBefore(oid, metric, pdus, i).value, metric.lookups[i];
            var r := LabelsOf(oid, metric, pdus).value;
            var asked, announced := RowOid(l.oid, t, l.labels), Found(pdus, RowOid(PrevOid(l.oid), t, l.labels));
            && l.labelname in r.labels
            && if asked in pdus then
                 && (exists typ :: IsReadAs(typ, l.typ, announced)
                       && ShowsValue(r.labels[l.labelname], pdus[asked], typ, l))
                 && (exists k :: IsIntOf(k, pdus[asked]) && OidsOf(r, l.labelname) == [k])
               else r.labels[l.labelname] == "" && OidsOf(r, l.labelname) == OidsOf(t, l.labelname)
  {
    hide RowOid, LookupText, LookupType, IsReadAs, ShowsValue, IsIntOf, PrevOid;
    var start := IndexLabels(Table(map[], map[]), oid, metric.indexes).value;
    LookupsInParts(start, metric.lookups, i, pdus);
    var t, l := TableBefore(oid, metric, pdus, i).value, metric.lookups[i];
    var later := metric.lookups[i + 1..];
    assert metric.lookups[i..][0] == l && metric.lookups[i..][1..] == later;
    var next := LookupStep(t, l, pdus).value;
    LookupsKeep(next, later, pdus, l.labelname);
    LookupShown(t, l, pdus);
  }

  lemma LookupShown(t: Table, l: Lookup, pdus: Pdus)
    requires LookupStep(t, l, pdus).Some? && l.labels != []
    ensures var r := LookupStep(t, l, pdus).value;
            var asked, announced := RowOid(l.oid, t, l.labels), Found(pdus, RowOid(PrevOid(l.oid), t, l.labels));
            && l.labelname in r.labels
            && if asked in pdus then
                 && (exists typ :: IsReadAs(typ, l.typ, announced)
                       && ShowsValue(r.labels[l.labelname], pdus[asked], typ, l))
                 && (exists k :: IsIntOf(k, pdus[asked]) && OidsOf(r, l.labelname) == [k])
               else r.labels[l.labelname] == "" && OidsOf(r, l.labelname) == OidsOf(t, l.labelname)
  {
    hide RowOid, LookupText, LookupType, IsReadAs, ShowsValue, IsIntOf, IntOf, PrevOid;
    var asked := RowOid(l.oid, t, l.labels);
    if asked in pdus {
      TypeIs(t, l, pdus);
      ValueShown(pdus[asked], LookupType(t, l, pdus), l);
      IntOfIs(pdus[asked]);
    }
  }

  /** A label that is an index and no lookup's shows the index value of the row. */
  lemma IndexedLabel(metric: Metric, pdus: Pdus, vs: seq<IndexRoundTrip.Value>, names: seq<string>, rest: SubIds,
                     i: nat)
    requires |vs| == |names| && IndexRoundTrip.WellFormedList(vs, rest) && Distinct(names) && i < |vs|
    requires metric.indexes == IndexRoundTrip.IndexesOf(vs, names)
    requires LabelsOf(IndexRoundTrip.EncodeAll(vs) + rest, metric, pdus).Some?
    requires forall j :: 0 <= j < |metric.lookups| ==> metric.lookups[j].labelname != names[i]
    ensures IndexRoundTrip.WellFormed(vs[i])
    ensures var r := LabelsOf(IndexRoundTrip.EncodeAll(vs) + rest, metric, pdus).value;
            names[i] in r.labels && ShowsIndex(r.labels[names[i]], vs[i])
                && OidsOf(r, names[i]) == IndexRoundTrip.Encode(vs[i])
  {
    hide IndexLabels, LookupLabels, IndexRoundTrip.IndexesOf, IndexRoundTrip.EncodeAll, ShowsIndex,
         IndexRoundTrip.TextOf, IndexRoundTrip.WellFormed, OidsOf;
    var empty := Table(map[], map[]);
    RowLabels(empty, vs, names, rest);
    TextShown(vs[i]);
    var indexed := IndexLabels(empty, IndexRoundTrip.EncodeAll(vs) + rest, metric.indexes).value;
    LookupsKeep(indexed, metric.lookups, pdus, names[i]);
  }

  // ---------------------------------------------------------------- when there are no labels

  /** A variable no text can be made of: an empty object identifier, or octets of a type without decoding. */
  predicate Unreadable(p: Pdu, typ: Type, lookup: Lookup) {
    && !(typ == EnumAsInfo && lookup.enumValues != map[])
    && (p == ObjectId("") || (p.Octets? && typ.Other? && typ.name != "" && typ.name != "Bits"))
  }

  lemma TextFails(p: Pdu, typ: Type, lookup: Lookup)
    ensures LookupText(p, typ, lookup) == None <==> Unreadable(p, typ, lookup)
  {
    hide DisplayHint.Render, DecodeString, Split, MacText, DottedText, Ipv6Text;
  }

  lemma OneType(typ: Type, t: Table, lookup: Lookup, pdus: Pdus)
    requires IsReadAs(typ, lookup.typ, Found(pdus, RowOid(PrevOid(lookup.oid), t, lookup.labels)))
    ensures typ == LookupType(t, lookup, pdus)
  {
    hide IsIntOf, IntOf, RowOid, PrevOid;
    var prev := RowOid(PrevOid(lookup.oid), t, lookup.labels);
    if prev in pdus { IntOfIs(pdus[prev]); }
  }

  /** A lookup at which the source panics: the variable is there and cannot be read as what the lookup takes it for. */
  ghost predicate Panics(t: Table, l: Lookup, pdus: Pdus) {
    var asked, announced := RowOid(l.oid, t, l.labels), Found(pdus, RowOid(PrevOid(l.oid), t, l.labels));
    l.labels != [] && asked in pdus && exists typ :: IsReadAs(typ, l.typ, announced) && Unreadable(pdus[asked], typ, l)
  }

  lemma StepFails(t: Table, l: Lookup, pdus: Pdus)
    ensures LookupStep(t, l, pdus) == None <==> Panics(t, l, pdus)
  {
    hide RowOid, LookupText, LookupType, IsReadAs, Unreadable, PrevOid;
    var asked := RowOid(l.oid, t, l.labels);
    TypeIs(t, l, pdus);
    if asked in pdus {
      TextFails(pdus[asked], LookupType(t, l, pdus), l);
      forall typ | IsReadAs(typ, l.typ, Found(pdus, RowOid(PrevOid(l.oid), t, l.labels)))
        ensures typ == LookupType(t, l, pdus)
      {
        OneType(typ, t, l, pdus);
      }
    }
  }

  lemma DecodeFails(oid: SubIds, index: Index)
    ensures DecodeIndex(oid, index) == None <==> index.typ.Other?
  {
    hide Decode;
    DecodeConserves(oid, index.typ, index.fixedSize, index.implied, index.enumValues);
  }

  lemma {:induction false} IndexLabelsFail(t: Table, oid: SubIds, indexes: seq<Index>)
    ensures IndexLabels(t, oid, indexes) == None <==> exists i :: 0 <= i < |indexes| && indexes[i].typ.Other?
    decreases |indexes|
  {
    hide DecodeIndex;
    if indexes != [] {
      var d := DecodeIndex(oid, indexes[0]);
      DecodeFails(oid, indexes[0]);
      if d.Some? {
        IndexLabelsFail(SetIndex(t, indexes[0].labelname, d.value), d.value.remaining, indexes[1..]);
        if i :| 0 <= i < |indexes[1..]| && indexes[1..][i].typ.Other? { assert indexes[i + 1].typ.Other?; }
        if i :| 0 <= i < |indexes| && indexes[i].typ.Other? { assert indexes[1..][i - 1].typ.Other?; }
      }
    }
  }

  lemma {:induction false} LookupLabelsFail(t: Table, lookups: seq<Lookup>, n: nat, pdus: Pdus)
    requires n <= |lookups|
    ensures LookupLabels(t, lookups[..n], pdus) == None
            <==> exists i :: 0 <= i < n && LookupLabels(t, lookups[..i], pdus).Some?
                             && Panics(LookupLabels(t, lookups[..i], pdus).value, lookups[i], pdus)
  {
    hide LookupStep, Panics;
    if n > 0 {
      LookupLabelsFail(t, lookups, n - 1, pdus);
      var front, last := lookups[..n - 1], lookups[n - 1];
      assert lookups[..n][..n - 1] == front && lookups[..n][n - 1..] == [last];
      LookupsInParts(t, lookups[..n], n - 1, pdus);
      if LookupLabels(t, front, pdus).Some? {
        var u := LookupLabels(t, front, pdus).value;
        StepFails(u, last, pdus);
        OneLookup(u, last, pdus);
      }
    } else {
      assert lookups[..0] == [];
    }
  }

  lemma OneLookup(u: Table, l: Lookup, pdus: Pdus)
    ensures LookupLabels(u, [l], pdus) == LookupStep(u, l, pdus)
  {
    hide LookupStep;
    assert [l][1..] == [];
  }

  /** Labels fail exactly at an index of a type without decoding, or at such a lookup. */
  lemma LabelsFailExactly(oid: SubIds, metric: Metric, pdus: Pdus)
    ensures LabelsOf(oid, metric, pdus) == None <==>
              || (exists i :: 0 <= i < |metric.indexes| && metric.indexes[i].typ.Other?)
              || (exists i :: 0 <= i < |metric.lookups| && TableBefore(oid, metric, pdus, i).Some?
                              && Panics(TableBefore(oid, metric, pdus, i).value, metric.lookups[i], pdus))
  {
    hide Panics, IndexLabels, LookupLabels;
    var empty := Table(map[], map[]);
    IndexLabelsFail(empty, oid, metric.indexes);
    var indexed := IndexLabels(empty, oid, metric.indexes);
    if indexed.Some? {
      var n := |metric.lookups|;
      LookupLabelsFail(indexed.value, metric.lookups, n, pdus);
      assert metric.lookups[..n] == metric.lookups;
      assert forall i :: 0 <= i < n ==>
            TableBefore(oid, metric, pdus, i) == LookupLabels(indexed.value, metric.lookups[..i], pdus);
    }
  }
}
