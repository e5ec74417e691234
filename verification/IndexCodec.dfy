/** Table indexes: the sub-identifiers after a column's OID, decoded into label texts
    (collector side), and the encoding they come from (section 7.7 of RFC 2578,
    section 4.1 of RFC 4001). */
module IndexCodec {
  import opened Text
  import opened Config
  import opened Oid

  type SubIds = seq<nat>

  // ---------------------------------------------------------------- the decoder

  function Zeros(n: nat): (z: SubIds)
    ensures |z| == n && forall i :: 0 <= i < n ==> z[i] == 0
  {
    seq(n, _ => 0)
  }

  /** The first `count` sub-identifiers, padded with zeros, and the rest. */
  function Split(oid: SubIds, count: nat): (r: (SubIds, SubIds))
    ensures |r.0| == count
    ensures |oid| >= count ==> r.0 + r.1 == oid
    ensures |oid| < count ==> r.0 == oid + Zeros(count - |oid|) && r.1 == []
  {
    if |oid| >= count then (oid[..count], oid[count..]) else (oid + Zeros(count - |oid|), [])
  }

  /** splitOid: pads on the right, because some routers leave trailing zeros out. */
  method SplitOid(oid: SubIds, count: nat) returns (head: SubIds, tail: SubIds)
    ensures (head, tail) == Split(oid, count)
  {
    var cells := new nat[count](_ => 0);
    tail := [];
    for i := 0 to |oid|
      invariant forall k :: 0 <= k < count ==> cells[k] == if k < i then oid[k] else 0
      invariant tail == if i <= count then [] else oid[count..i]
    {
      if i < count {
        cells[i] := oid[i];
      } else {
        tail := tail + [oid[i]];
      }
    }
    head := cells[..];
    assert head == Split(oid, count).0;
    assert tail == Split(oid, count).1;
  }

  /** What indexOidsAsString returns: the text, the sub-identifiers used and those left over. */
  datatype Decoded = Decoded(text: string, used: SubIds, remaining: SubIds)

  /** `byte(o)`. */
  function ToBytes(oid: SubIds): (b: seq<byte>)
    ensures |b| == |oid|
  {
    Map((o: nat) => o % 256, oid)
  }

  /** `%02X` of a sub-identifier. */
  function HexNumber(n: nat): string {
    if n < 16 then [HexDigit(n)] else HexNumber(n / 16) + [HexDigit(n % 16)]
  }

  function Hex2(n: nat): string { if n < 16 then ['0', HexDigit(n)] else HexNumber(n) }

  /** A string of bytes as `0x...`, the empty one as nothing. */
  function HexText(b: seq<byte>): string { if b == [] then "" else "0x" + Hex(b) }

  function MacText(oid: SubIds): string { JoinWith(':', Map(Hex2, oid)) }

  function DottedText(oid: SubIds): string { JoinWith('.', Map(Decimal, oid)) }

  /** Groups of two, separated by colons. */
  function Ipv6Text(oid: SubIds): string {
    if |oid| < 2 then []
    else Hex2(oid[0]) + Hex2(oid[1]) + (if |oid| == 2 then [] else ":" + Ipv6Text(oid[2..]))
  }

  function EnumText(enumValues: map<int, string>, n: nat): string {
    if n in enumValues then enumValues[n] else Decimal(n)
  }

  /** OctetString and DisplayString: the length is fixed, implied by what is left, or read first. */
  function DecodeString(oid: SubIds, display: bool, fixedSize: nat, implied: bool): Decoded {
    var length := if implied then |oid| else fixedSize;
    var (prefix, body) := if length == 0 then Split(oid, 1) else ([], oid);
    var size := if length == 0 then prefix[0] else length;
    var (content, rest) := Split(body, size);
    var bytes := ToBytes(content);
    Decoded(if display then Raw(bytes) else HexText(bytes), prefix + content, rest)
  }

  function DecodeSized(oid: SubIds, count: nat, text: SubIds -> string): Decoded {
    var (sub, rest) := Split(oid, count);
    Decoded(text(sub), sub, rest)
  }

  predicate IsCombined(t: Type) { t == InetAddress || t == InetAddressMissingSize || t == LldpPortId }

  /** The actual type announced by a preceding enumeration. */
  function CombinedType(t: Type, kind: int): Option<Type> {
    if t == InetAddress || t == InetAddressMissingSize then
      if kind == 1 then Some(InetAddressIPv4) else if kind == 2 then Some(InetAddressIPv6) else None
    else if t == LldpPortId then
      if kind == 3 then Some(PhysAddress48) else if kind in {1, 2, 5, 7} then Some(DisplayString) else None
    else None
  }

  /** The types that are not combined; None where the source panics on an unknown type. */
  function DecodePlain(oid: SubIds, t: Type, fixedSize: nat, implied: bool, enumValues: map<int, string>)
    : Option<Decoded>
  {
    match t
    case Integer => Some(Decoded(Decimal(Split(oid, 1).0[0]), Split(oid, 1).0, Split(oid, 1).1))
    case PhysAddress48 => Some(DecodeSized(oid, 6, MacText))
    case OctetString => Some(DecodeString(oid, false, fixedSize, implied))
    case DisplayString => Some(DecodeString(oid, true, fixedSize, implied))
    case InetAddressIPv4 => Some(DecodeSized(oid, 4, DottedText))
    case InetAddressIPv6 => Some(DecodeSized(oid, 16, Ipv6Text))
    case EnumAsInfo => Some(Decoded(EnumText(enumValues, Split(oid, 1).0[0]), Split(oid, 1).0, Split(oid, 1).1))
    case _ => None
  }

  /** indexOidsAsString. */
  function Decode(oid: SubIds, t: Type, fixedSize: nat, implied: bool, enumValues: map<int, string>): Option<Decoded> {
    if !IsCombined(t) then DecodePlain(oid, t, fixedSize, implied, enumValues)
    else
      var (sub, value) := Split(oid, if t == InetAddressMissingSize then 1 else 2);
      match CombinedType(t, sub[0])
      case Some(actual) =>
        (match DecodePlain(value, actual, 0, false, enumValues)
         case None => None
         case Some(d) => Some(d.(used := sub + d.used)))
      case None =>
        if t == InetAddressMissingSize then DecodePlain(oid, OctetString, 0, true, enumValues)
        else DecodePlain(oid, OctetString, sub[1] + 2, false, enumValues)
  }

  function DecodeIndex(oid: SubIds, index: Index): Option<Decoded> {
    Decode(oid, index.typ, index.fixedSize, index.implied, index.enumValues)
  }

  /** The index loop of indexesToLabels: every index takes its sub-identifiers from what the previous ones left. */
  function DecodeAll(oid: SubIds, indexes: seq<Index>): Option<(seq<Decoded>, SubIds)>
    decreases |indexes|
  {
    if indexes == [] then Some(([], oid))
    else match DecodeIndex(oid, indexes[0])
      case None => None
      case Some(d) =>
        match DecodeAll(d.remaining, indexes[1..])
        case None => None
        case Some((ds, rest)) => Some(([d] + ds, rest))
  }

  // ---------------------------------------------------------------- conservation

  /** used and remaining are the input, except that zeros may be added once the input has run out. */
  ghost predicate Conserves(oid: SubIds, used: SubIds, remaining: SubIds) {
    && (remaining != [] ==> used + remaining == oid)
    && oid <= used + remaining
    && forall i :: |oid| <= i < |used| ==> used[i] == 0
  }

  lemma ConservesNothing(oid: SubIds)
    ensures Conserves(oid, [], oid)
  {}

  lemma ConservesSplit(oid: SubIds, count: nat)
    ensures Conserves(oid, Split(oid, count).0, Split(oid, count).1)
  {}

  lemma ConservesChain(oid: SubIds, a: SubIds, mid: SubIds, b: SubIds, rest: SubIds)
    requires Conserves(oid, a, mid) && Conserves(mid, b, rest)
    ensures Conserves(oid, a + b, rest)
  {}

  lemma StringConserves(oid: SubIds, display: bool, fixedSize: nat, implied: bool)
    ensures var d := DecodeString(oid, display, fixedSize, implied); Conserves(oid, d.used, d.remaining)
  {
    var length := if implied then |oid| else fixedSize;
    var (prefix, body) := if length == 0 then Split(oid, 1) else ([], oid);
    var size := if length == 0 then prefix[0] else length;
    var (content, rest) := Split(body, size);
    ConservesSplit(body, size);
    assert Conserves(oid, prefix, body);
    ConservesChain(oid, prefix, body, content, rest);
  }

  lemma PlainConserves(oid: SubIds, t: Type, fixedSize: nat, implied: bool, enumValues: map<int, string>)
    requires !IsCombined(t)
    ensures var d := DecodePlain(oid, t, fixedSize, implied, enumValues);
            (d == None <==> t.Other?) && (d.Some? ==> Conserves(oid, d.value.used, d.value.remaining))
  {
    hide Conserves, Split, DecodeString, MacText, DottedText, Ipv6Text, EnumText;
    StringConserves(oid, false, fixedSize, implied);
    StringConserves(oid, true, fixedSize, implied);
    ConservesSplit(oid, 1);
    ConservesSplit(oid, 4);
    ConservesSplit(oid, 6);
    ConservesSplit(oid, 16);
  }

  /** Decoding one index loses nothing and invents only trailing zeros; it fails exactly on a type that has no
      decoding. */
  lemma DecodeConserves(oid: SubIds, t: Type, fixedSize: nat, implied: bool, enumValues: map<int, string>)
    ensures var d := Decode(oid, t, fixedSize, implied, enumValues);
            (d == None <==> t.Other?) && (d.Some? ==> Conserves(oid, d.value.used, d.value.remaining))
  {
    hide DecodePlain, Conserves, Split;
    if !IsCombined(t) {
      PlainConserves(oid, t, fixedSize, implied, enumValues);
    } else {
      var count := if t == InetAddressMissingSize then 1 else 2;
      var (sub, value) := Split(oid, count);
      ConservesSplit(oid, count);
      match CombinedType(t, sub[0])
      case Some(actual) =>
        PlainConserves(value, actual, 0, false, enumValues);
        var d := DecodePlain(value, actual, 0, false, enumValues).value;
        ConservesChain(oid, sub, value, d.used, d.remaining);
      case None =>
        PlainConserves(oid, OctetString, 0, true, enumValues);
        PlainConserves(oid, OctetString, if t == InetAddressMissingSize then 0 else sub[1] + 2, false, enumValues);
    }
  }

  function UsedAll(ds: seq<Decoded>): SubIds {
    if ds == [] then [] else ds[0].used + UsedAll(ds[1..])
  }

  /** The same for a whole list of indexes: what they use, in order, is the input, padded with zeros only at its end. */
  lemma {:induction false} DecodeAllConserves(oid: SubIds, indexes: seq<Index>)
    ensures var r := DecodeAll(oid, indexes);
            && (r == None <==> exists i :: 0 <= i < |indexes| && indexes[i].typ.Other?)
            && (r.Some? ==> |r.value.0| == |indexes| && Conserves(oid, UsedAll(r.value.0), r.value.1))
    decreases |indexes|
  {
    hide Decode, Conserves;
    if indexes == [] {
      ConservesNothing(oid);
    } else {
      var index := indexes[0];
      DecodeConserves(oid, index.typ, index.fixedSize, index.implied, index.enumValues);
      if i :| 0 <= i < |indexes[1..]| && indexes[1..][i].typ.Other? {
        assert indexes[i + 1].typ.Other?;
      }
      if !index.typ.Other? {
        var d := DecodeIndex(oid, index).value;
        DecodeAllConserves(d.remaining, indexes[1..]);
        if i :| 0 <= i < |indexes| && indexes[i].typ.Other? {
          assert indexes[1..][i - 1].typ.Other?;
        }
        var tail := DecodeAll(d.remaining, indexes[1..]);
        if tail.Some? {
          ConservesChain(oid, d.used, d.remaining, UsedAll(tail.value.0), tail.value.1);
          assert ([d] + tail.value.0)[1..] == tail.value.0;
        }
      }
    }
  }
}
