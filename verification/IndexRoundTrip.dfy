/** The encoding of index values and what the decoder makes of it. */
module IndexRoundTrip {
  import opened Text
  import opened Config
  import opened Oid
  import opened IndexCodec

  /** A value of an index object, as the table's row has it. */
  datatype Value =
    | Number(n: nat)
    | Enumerated(n: nat, names: map<int, string>)
    | Fixed(bytes: seq<byte>, display: bool)
    | Counted(bytes: seq<byte>, display: bool)
    | Implied(bytes: seq<byte>, display: bool)
    | Mac(bytes: seq<byte>)
    | IPv4(bytes: seq<byte>)
    | IPv6(bytes: seq<byte>)
    | Address(kind: nat, bytes: seq<byte>)          // InetAddressType and InetAddress, merged
    | UnsizedAddress(kind: nat, bytes: seq<byte>)   // the same without the length

  predicate AddressFits(kind: nat, bytes: seq<byte>) {
    (kind == 1 ==> |bytes| == 4) && (kind == 2 ==> |bytes| == 16)
  }

  predicate WellFormed(v: Value) {
    match v
    case Fixed(bytes, _) => bytes != []
    case Implied(bytes, _) => bytes != []
    case Mac(bytes) => |bytes| == 6
    case IPv4(bytes) => |bytes| == 4
    case IPv6(bytes) => |bytes| == 16
    case Address(kind, bytes) => AddressFits(kind, bytes)
    case UnsizedAddress(kind, bytes) => AddressFits(kind, bytes)
    case _ => true
  }

  /** Decoding this value takes everything that is left, so it must come last. */
  predicate Greedy(v: Value) { v.Implied? || (v.UnsizedAddress? && v.kind != 1 && v.kind != 2) }

  /** The sub-identifiers of a value: section 7.7 of RFC 2578. */
  function Encode(v: Value): SubIds {
    match v
    case Number(n) => [n]
    case Enumerated(n, _) => [n]
    case Counted(bytes, _) => [|bytes|] + bytes
    case Address(kind, bytes) => [kind, |bytes|] + bytes
    case UnsizedAddress(kind, bytes) => [kind] + bytes
    case _ => v.bytes
  }

  function StringType(display: bool): Type { if display then DisplayString else OctetString }

  /** How the configuration describes an index object with such values. */
  function IndexOf(v: Value, name: string): Index {
    match v
    case Number(_) => Index(name, Integer, 0, false, map[])
    case Enumerated(_, names) => Index(name, EnumAsInfo, 0, false, names)
    case Fixed(bytes, display) => Index(name, StringType(display), |bytes|, false, map[])
    case Counted(_, display) => Index(name, StringType(display), 0, false, map[])
    case Implied(_, display) => Index(name, StringType(display), 0, true, map[])
    case Mac(_) => Index(name, PhysAddress48, 0, false, map[])
    case IPv4(_) => Index(name, InetAddressIPv4, 0, false, map[])
    case IPv6(_) => Index(name, InetAddressIPv6, 0, false, map[])
    case Address(_, _) => Index(name, InetAddress, 0, false, map[])
    case UnsizedAddress(_, _) => Index(name, InetAddressMissingSize, 0, false, map[])
  }

  function StringText(bytes: seq<byte>, display: bool): string { if display then Raw(bytes) else HexText(bytes) }

  /** The label text of a value. */
  function TextOf(v: Value): string {
    match v
    case Number(n) => Decimal(n)
    case Enumerated(n, names) => EnumText(names, n)
    case Fixed(bytes, display) => StringText(bytes, display)
    case Counted(bytes, display) => StringText(bytes, display)
    case Implied(bytes, display) => StringText(bytes, display)
    case Mac(bytes) => MacText(bytes)
    case IPv4(bytes) => DottedText(bytes)
    case IPv6(bytes) => Ipv6Text(bytes)
    case Address(kind, bytes) =>
      if kind == 1 then DottedText(bytes) else if kind == 2 then Ipv6Text(bytes)
      else HexText([kind % 256, |bytes| % 256] + bytes)
    case UnsizedAddress(kind, bytes) =>
      if kind == 1 then DottedText(bytes) else if kind == 2 then Ipv6Text(bytes)
      else HexText([kind % 256] + bytes)
  }

  // ---------------------------------------------------------------- round trip

  lemma SplitExact(a: SubIds, rest: SubIds)
    ensures Split(a + rest, |a|) == (a, rest)
  {}

  lemma ToBytesOfBytes(b: seq<byte>)
    ensures ToBytes(b) == b
  {}

  lemma FixedRoundTrip(content: SubIds, display: bool, rest: SubIds)
    requires content != []
    ensures DecodeString(content + rest, display, |content|, false)
            == Decoded(StringText(ToBytes(content), display), content, rest)
  {}

  lemma CountedRoundTrip(content: SubIds, display: bool, rest: SubIds)
    ensures DecodeString([|content|] + content + rest, display, 0, false)
            == Decoded(StringText(ToBytes(content), display), [|content|] + content, rest)
  {
    assert [|content|] + content + rest == [|content|] + (content + rest);
    SplitExact([|content|], content + rest);
    SplitExact(content, rest);
  }

  lemma ImpliedRoundTrip(content: SubIds, display: bool)
    requires content != []
    ensures DecodeString(content, display, 0, true) == Decoded(StringText(ToBytes(content), display), content, [])
  {
    SplitExact(content, []);
    assert content + [] == content && [] + content == content;
  }

  /** A combined type reads its announcement and then the value in the announced type. */
  lemma DecodeMapped(t: Type, head: SubIds, value: SubIds, actual: Type)
    requires IsCombined(t) && |head| == (if t == InetAddressMissingSize then 1 else 2)
    requires CombinedType(t, head[0]) == Some(actual) && DecodePlain(value, actual, 0, false, map[]).Some?
    ensures var d := DecodePlain(value, actual, 0, false, map[]).value;
            Decode(head + value, t, 0, false, map[]) == Some(Decoded(d.text, head + d.used, d.remaining))
  {}

  lemma DecodeUnmapped(t: Type, head: SubIds, value: SubIds)
    requires (t == InetAddress && |head| == 2) || (t == InetAddressMissingSize && |head| == 1)
    requires CombinedType(t, head[0]) == None
    ensures Decode(head + value, t, 0, false, map[])
            == Some(if t == InetAddress then DecodeString(head + value, false, head[1] + 2, false)
                    else DecodeString(head + value, false, 0, true))
  {}

  lemma IpRoundTrip(kind: nat, bytes: seq<byte>, rest: SubIds)
    requires (kind == 1 || kind == 2) && AddressFits(kind, bytes)
    ensures DecodePlain(bytes + rest, if kind == 1 then InetAddressIPv4 else InetAddressIPv6, 0, false, map[])
            == Some(Decoded(if kind == 1 then DottedText(bytes) else Ipv6Text(bytes), bytes, rest))
  {
    hide DottedText, Ipv6Text, DecodeString, MacText, EnumText, Split;
    SplitExact(bytes, rest);
  }

  lemma AddressRoundTrip(v: Value, name: string, rest: SubIds)
    requires v.Address? && WellFormed(v)
    ensures DecodeIndex(Encode(v) + rest, IndexOf(v, name)) == Some(Decoded(TextOf(v), Encode(v), rest))
  {
    hide Decode, DecodePlain, DecodeString;
    var head: SubIds := [v.kind, |v.bytes|];
    assert Encode(v) + rest == head + (v.bytes + rest);
    if v.kind == 1 || v.kind == 2 {
      IpRoundTrip(v.kind, v.bytes, rest);
      DecodeMapped(InetAddress, head, v.bytes + rest, if v.kind == 1 then InetAddressIPv4 else InetAddressIPv6);
    } else {
      DecodeUnmapped(InetAddress, head, v.bytes + rest);
      FixedRoundTrip(Encode(v), false, rest);
      assert ToBytes(Encode(v)) == [v.kind % 256, |v.bytes| % 256] + v.bytes;
    }
  }

  lemma UnsizedRoundTrip(v: Value, name: string, rest: SubIds)
    requires v.UnsizedAddress? && WellFormed(v) && (Greedy(v) ==> rest == [])
    ensures DecodeIndex(Encode(v) + rest, IndexOf(v, name)) == Some(Decoded(TextOf(v), Encode(v), rest))
  {
    hide Decode, DecodePlain, DecodeString;
    var head: SubIds := [v.kind];
    assert Encode(v) + rest == head + (v.bytes + rest);
    if v.kind == 1 || v.kind == 2 {
      IpRoundTrip(v.kind, v.bytes, rest);
      DecodeMapped(InetAddressMissingSize, head, v.bytes + rest,
          if v.kind == 1 then InetAddressIPv4 else InetAddressIPv6);
    } else {
      DecodeUnmapped(InetAddressMissingSize, head, v.bytes + rest);
      assert Encode(v) + rest == Encode(v);
      ImpliedRoundTrip(Encode(v), false);
      assert ToBytes(Encode(v)) == [v.kind % 256] + v.bytes;
    }
  }

  lemma StringRoundTrip(v: Value, name: string, rest: SubIds)
    requires WellFormed(v) && (v.Fixed? || v.Counted? || (v.Implied? && rest == []))
    ensures DecodeIndex(Encode(v) + rest, IndexOf(v, name)) == Some(Decoded(TextOf(v), Encode(v), rest))
  {
    hide DecodeString;
    ToBytesOfBytes(v.bytes);
    match v
    case Fixed(bytes, display) => FixedRoundTrip(bytes, display, rest);
    case Counted(bytes, display) => CountedRoundTrip(bytes, display, rest);
    case Implied(bytes, display) =>
      ImpliedRoundTrip(bytes, display);
      assert Encode(v) + rest == bytes;
  }

  /** Decoding an encoded value gives its text and exactly its own sub-identifiers, whatever follows. */
  lemma ValueRoundTrip(v: Value, name: string, rest: SubIds)
    requires WellFormed(v) && (Greedy(v) ==> rest == [])
    ensures DecodeIndex(Encode(v) + rest, IndexOf(v, name)) == Some(Decoded(TextOf(v), Encode(v), rest))
  {
    hide DecodeIndex, Encode, TextOf, IndexOf, WellFormed;
    match v
    case Address(_, _) => AddressRoundTrip(v, name, rest);
    case UnsizedAddress(_, _) => UnsizedRoundTrip(v, name, rest);
    case Fixed(_, _) => StringRoundTrip(v, name, rest);
    case Counted(_, _) => StringRoundTrip(v, name, rest);
    case Implied(_, _) => StringRoundTrip(v, name, rest);
    case _ => SizedRoundTrip(v, name, rest);
  }

  lemma SizedRoundTrip(v: Value, name: string, rest: SubIds)
    requires WellFormed(v) && (v.Number? || v.Enumerated? || v.Mac? || v.IPv4? || v.IPv6?)
    ensures DecodeIndex(Encode(v) + rest, IndexOf(v, name)) == Some(Decoded(TextOf(v), Encode(v), rest))
  {
    hide Split, MacText, DottedText, Ipv6Text, EnumText, DecodeString;
    SplitExact(Encode(v), rest);
  }

  function EncodeAll(vs: seq<Value>): SubIds {
    if vs == [] then [] else Encode(vs[0]) + EncodeAll(vs[1..])
  }

  function IndexesOf(vs: seq<Value>, names: seq<string>): seq<Index>
    requires |vs| == |names|
  {
    if vs == [] then [] else [IndexOf(vs[0], names[0])] + IndexesOf(vs[1..], names[1..])
  }

  /** What decoding should give for a row: every value's text, its own sub-identifiers, and what comes after them. */
  function Expected(vs: seq<Value>, rest: SubIds): seq<Decoded> {
    if vs == [] then []
    else [Decoded(TextOf(vs[0]), Encode(vs[0]), EncodeAll(vs[1..]) + rest)] + Expected(vs[1..], rest)
  }

  predicate WellFormedList(vs: seq<Value>, rest: SubIds) {
    && (forall i :: 0 <= i < |vs| ==> WellFormed(vs[i]))
    && (forall i :: 0 <= i < |vs| && Greedy(vs[i]) ==> i == |vs| - 1 && rest == [])
  }

  /** The index loop run on the encoding of a row: every value comes back as its text with its own sub-identifiers,
      and what follows the row is left untouched. */
  lemma {:induction false} RowRoundTrip(vs: seq<Value>, names: seq<string>, rest: SubIds)
    requires |vs| == |names| && WellFormedList(vs, rest)
    ensures DecodeAll(EncodeAll(vs) + rest, IndexesOf(vs, names)) == Some((Expected(vs, rest), rest))
    decreases |vs|
  {
    hide DecodeIndex, TextOf, Encode, IndexOf, WellFormed, Greedy, WellFormedList;
    if vs == [] {
      assert EncodeAll(vs) + rest == rest;
    } else {
      var after := EncodeAll(vs[1..]) + rest;
      GreedyIsLast(vs, rest);
      ValueRoundTrip(vs[0], names[0], after);
      RowRoundTrip(vs[1..], names[1..], rest);
      assert EncodeAll(vs) + rest == Encode(vs[0]) + after;
    }
  }

  lemma GreedyIsLast(vs: seq<Value>, rest: SubIds)
    requires vs != [] && WellFormedList(vs, rest)
    ensures WellFormed(vs[0]) && (Greedy(vs[0]) ==> EncodeAll(vs[1..]) + rest == [])
    ensures WellFormedList(vs[1..], rest)
  {}

  // ---------------------------------------------------------------- texts tell values apart

  lemma Hex2OfByte(b: byte)
    ensures Hex2(b) == [HexDigit(b / 16), HexDigit(b % 16)] == Hex([b])
  {
    if b >= 16 {
      assert HexNumber(b / 16) == [HexDigit(b / 16)];
    } else {
      assert HexDigit(0) == '0';
    }
  }

  lemma HexInjective(a: seq<byte>, b: seq<byte>)
    requires Hex(a) == Hex(b)
    ensures a == b
  {
    HexRoundTrip(a);
    HexRoundTrip(b);
  }

  lemma StripHexPair(a: string, b: string)
    requires ':' !in a
    ensures Strip(':', a + b) == a + Strip(':', b)
  {
    StripAppend(':', a, b);
    StripAbsent(':', a);
  }

  lemma NoColon(b: byte)
    ensures ':' !in Hex2(b)
  {
    Hex2OfByte(b);
    assert IsHexDigit(Hex2(b)[0]) && IsHexDigit(Hex2(b)[1]);
  }

  lemma MacStep(b: seq<byte>)
    requires b != []
    ensures MacText(b) == if |b| == 1 then Hex2(b[0]) else Hex2(b[0]) + ([':'] + MacText(b[1..]))
  {
    hide Hex2;
    var parts := Map<nat, string>(Hex2, b);
    assert parts[1..] == Map<nat, string>(Hex2, b[1..]);
  }

  lemma HexStep(b: seq<byte>)
    requires b != []
    ensures Hex(b) == Hex2(b[0]) + Hex(b[1..]) && ':' !in Hex2(b[0])
  {
    hide Hex2;
    NoColon(b[0]);
    Hex2OfByte(b[0]);
  }

  /** Without its colons, a MAC address text is the hexadecimal text of its octets ... */
  lemma {:induction false} MacIsHex(b: seq<byte>)
    ensures Strip(':', MacText(b)) == Hex(b)
  {
    hide MacText, Hex2, Hex, Strip;
    if b == [] {
      NoText();
    } else {
      MacStep(b);
      HexStep(b);
      MacIsHex(b[1..]);
      if |b| == 1 {
        NoText();
        StripAbsent(':', Hex2(b[0]));
        assert Hex2(b[0]) + [] == Hex2(b[0]);
      } else {
        StripHexPair(Hex2(b[0]), [':'] + MacText(b[1..]));
        StripColon(MacText(b[1..]));
      }
    }
  }

  lemma NoText()
    ensures MacText([]) == [] && Hex([]) == [] && Strip(':', []) == []
  {}

  lemma Ipv6Step(b: seq<byte>)
    requires |b| > 2
    ensures Ipv6Text(b) == Hex2(b[0]) + Hex2(b[1]) + ([':'] + Ipv6Text(b[2..]))
  {}

  lemma Ipv6Last(b: seq<byte>)
    requires |b| % 2 == 0 && |b| <= 2
    ensures Strip(':', Ipv6Text(b)) == Hex(b)
  {
    if |b| == 2 {
      HexPair(b);
      var text := Hex2(b[0]) + Hex2(b[1]);
      StripAbsent(':', text);
      hide Hex2, Strip;
      assert Ipv6Text(b) == text + [] == text;
      assert b[2..] == [] && Hex(b) == text + [];
    }
  }

  /** ... and so is an IPv6 address text. */
  lemma {:induction false} Ipv6IsHex(b: seq<byte>)
    requires |b| % 2 == 0
    ensures Strip(':', Ipv6Text(b)) == Hex(b)
  {
    hide *;
    if |b| <= 2 {
      Ipv6Last(b);
    } else {
      var pair, tail := Hex2(b[0]) + Hex2(b[1]), Ipv6Text(b[2..]);
      HexPair(b);
      Ipv6Step(b);
      StripHexPair(pair, [':'] + tail);
      StripColon(tail);
      Ipv6IsHex(b[2..]);
    }
  }

  lemma StripColon(tail: string)
    ensures Strip(':', [':'] + tail) == Strip(':', tail)
  {}

  lemma HexPair(b: seq<byte>)
    requires |b| >= 2
    ensures Hex(b) == Hex2(b[0]) + Hex2(b[1]) + Hex(b[2..])
    ensures ':' !in Hex2(b[0]) + Hex2(b[1])
  {
    NoColon(b[0]);
    NoColon(b[1]);
    Hex2OfByte(b[0]);
    Hex2OfByte(b[1]);
    assert b[1..][1..] == b[2..];
    var x, y, z := Hex2(b[0]), Hex2(b[1]), Hex(b[2..]);
    assert Hex(b[1..]) == y + z;
    assert x + (y + z) == x + y + z;
  }

  lemma DottedSplits(b: seq<byte>)
    requires b != []
    ensures SplitOn('.', DottedText(b)) == Map<nat, string>(Decimal, b)
  {
    forall i | 0 <= i < |b| ensures '.' !in Map<nat, string>(Decimal, b)[i] {
      var d := Decimal(b[i]);
      forall k | 0 <= k < |d| ensures d[k] != '.' { assert IsDigit(d[k]); }
    }
    SplitJoin('.', Map<nat, string>(Decimal, b));
  }

  lemma DottedInjective(a: seq<byte>, b: seq<byte>)
    requires |a| == |b| > 0 && DottedText(a) == DottedText(b)
    ensures a == b
  {
    DottedSplits(a);
    DottedSplits(b);
    hide DottedText, SplitOn, Decimal;
    forall i | 0 <= i < |a| ensures a[i] == b[i] {
      assert Map<nat, string>(Decimal, a)[i] == Map<nat, string>(Decimal, b)[i];
      DecimalInjective(a[i], b[i]);
    }
  }

  lemma HexTextInjective(a: seq<byte>, b: seq<byte>)
    requires HexText(a) == HexText(b)
    ensures a == b
  {
    if a != [] && b != [] {
      assert HexText(a)[2..] == Hex(a) && HexText(b)[2..] == Hex(b);
      HexInjective(a, b);
    }
  }

  lemma StringTextInjective(a: seq<byte>, b: seq<byte>, display: bool)
    requires StringText(a, display) == StringText(b, display)
    ensures a == b
  {
    if display { RawInjective(a, b); } else { HexTextInjective(a, b); }
  }

  lemma HexAddressInjective(a: seq<byte>, b: seq<byte>)
    requires |a| == |b| && |a| % 2 == 0
    ensures MacText(a) == MacText(b) ==> a == b
    ensures Ipv6Text(a) == Ipv6Text(b) ==> a == b
  {
    MacIsHex(a);
    MacIsHex(b);
    Ipv6IsHex(a);
    Ipv6IsHex(b);
    if Hex(a) == Hex(b) { HexInjective(a, b); }
  }

  /** Which of the three address notations a text is in can be seen from it: one has a dot, one an `x`, one neither. */
  lemma {:induction false} Ipv6Plain(b: seq<byte>)
    ensures '.' !in Ipv6Text(b) && 'x' !in Ipv6Text(b)
  {
    if |b| >= 2 {
      Hex2OfByte(b[0]);
      Hex2OfByte(b[1]);
      var pair := Hex2(b[0]) + Hex2(b[1]);
      forall i | 0 <= i < |pair| ensures pair[i] != '.' && pair[i] != 'x' { assert IsHexDigit(pair[i]); }
      if |b| > 2 { Ipv6Plain(b[2..]); }
    }
  }

  lemma {:induction false} DottedNoX(parts: seq<string>)
    requires forall i :: 0 <= i < |parts| ==> AllDigits(parts[i])
    ensures 'x' !in JoinWith('.', parts)
  {
    if |parts| > 1 {
      DottedNoX(parts[1..]);
    }
  }

  lemma DottedHasDot(b: seq<byte>)
    requires |b| > 1
    ensures '.' in DottedText(b) && 'x' !in DottedText(b)
  {
    var parts := Map<nat, string>(Decimal, b);
    assert DottedText(b)[|parts[0]|] == '.';
    DottedNoX(parts);
  }

  lemma HexTextHasX(b: seq<byte>)
    requires b != []
    ensures 'x' in HexText(b)
  {}

  lemma AddressTextInjective(v: Value, w: Value)
    requires (v.Address? && w.Address?) || (v.UnsizedAddress? && w.UnsizedAddress?)
    requires WellFormed(v) && WellFormed(w) && v.kind < 256 && w.kind < 256 && |v.bytes| < 256 && |w.bytes| < 256
    requires TextOf(v) == TextOf(w)
    ensures v == w
  {
    AddressNotation(v);
    AddressNotation(w);
    hide DottedText, Ipv6Text, HexText;
    if v.kind == 1 {
      DottedInjective(v.bytes, w.bytes);
    } else if v.kind == 2 {
      HexAddressInjective(v.bytes, w.bytes);
    } else {
      HexTextInjective(HexOctets(v), HexOctets(w));
      HexOctetsTell(v, w);
    }
  }

  /** The octets shown for an address of a kind without a notation of its own. */
  function HexOctets(v: Value): seq<byte>
    requires v.Address? || v.UnsizedAddress?
  {
    (if v.Address? then [v.kind % 256, |v.bytes| % 256] else [v.kind % 256]) + v.bytes
  }

  lemma HexOctetsTell(v: Value, w: Value)
    requires (v.Address? && w.Address?) || (v.UnsizedAddress? && w.UnsizedAddress?)
    requires v.kind < 256 && w.kind < 256 && HexOctets(v) == HexOctets(w)
    ensures v == w
  {
    var k := if v.Address? then 2 else 1;
    assert HexOctets(v)[0] == v.kind && HexOctets(w)[0] == w.kind;
    assert HexOctets(v)[k..] == v.bytes && HexOctets(w)[k..] == w.bytes;
  }

  lemma AddressNotation(v: Value)
    requires (v.Address? || v.UnsizedAddress?) && WellFormed(v)
    ensures v.kind == 1 <==> '.' in TextOf(v)
    ensures v.kind != 1 && v.kind != 2 <==> 'x' in TextOf(v)
  {
    if v.kind == 1 {
      DottedHasDot(v.bytes);
    } else if v.kind == 2 {
      Ipv6Plain(v.bytes);
    } else {
      var b := HexOctets(v);
      HexTextHasX(b);
      var t := HexText(b);
      forall i | 0 <= i < |t| ensures t[i] != '.' {
        if i >= 2 { assert t[i] == Hex(b)[i - 2] && IsHexDigit(Hex(b)[i - 2]); }
      }
    }
  }

  /** No two numbers have one name, and no name is the numeral of a number without one. */
  ghost predicate Unambiguous(names: map<int, string>) {
    && (forall a: nat, b: nat :: a in names && b in names && names[a] == names[b] ==> a == b)
    && (forall a: nat, b: nat :: a in names && b !in names ==> names[a] != Decimal(b))
  }

  /** That is exactly when the text of an enumeration tells the number. */
  lemma EnumTextTells(names: map<int, string>)
    ensures Unambiguous(names) <==> forall a: nat, b: nat :: EnumText(names, a) == EnumText(names, b) ==> a == b
  {
    hide Decimal;
    forall a: nat, b: nat | Decimal(a) == Decimal(b) ensures a == b { DecimalInjective(a, b); }
    if forall a: nat, b: nat :: EnumText(names, a) == EnumText(names, b) ==> a == b {
      forall a: nat, b: nat | a in names && b in names && names[a] == names[b] ensures a == b {
        assert EnumText(names, a) == EnumText(names, b);
      }
      forall a: nat, b: nat | a in names && b !in names ensures names[a] != Decimal(b) {
        assert EnumText(names, a) == EnumText(names, b) ==> a == b;
      }
    }
  }

  /** Values whose text is not shared: of an enumeration when its names are unambiguous, of an address when its numbers
      fit the octets they are shown as. */
  ghost predicate Distinguishable(v: Value) {
    && (v.Enumerated? ==> Unambiguous(v.names))
    && (v.Address? || v.UnsizedAddress? ==> v.kind < 256 && |v.bytes| < 256)
  }

  /** Two values of the same index with the same text are the same value. */
  lemma TextTellsValue(v: Value, w: Value, name: string)
    requires WellFormed(v) && WellFormed(w) && IndexOf(v, name) == IndexOf(w, name)
    requires Distinguishable(v) && Distinguishable(w) && TextOf(v) == TextOf(w)
    ensures v == w
  {
    hide MacText, DottedText, Ipv6Text, StringText, Unambiguous;
    match v
    case Number(n) => DecimalInjective(n, w.n);
    case Enumerated(n, names) => EnumTextTells(names);
    case Fixed(bytes, display) => StringTextInjective(bytes, w.bytes, display);
    case Counted(bytes, display) => StringTextInjective(bytes, w.bytes, display);
    case Implied(bytes, display) => StringTextInjective(bytes, w.bytes, display);
    case Mac(bytes) => HexAddressInjective(bytes, w.bytes);
    case IPv4(bytes) => DottedInjective(bytes, w.bytes);
    case IPv6(bytes) => HexAddressInjective(bytes, w.bytes);
    case _ => AddressTextInjective(v, w);
  }

  /** Rows of a table that get the same label texts are the same row: no two rows collide in one sample. */
  lemma {:induction false} RowsDoNotCollide(vs: seq<Value>, ws: seq<Value>, names: seq<string>)
    requires |vs| == |ws| == |names| && IndexesOf(vs, names) == IndexesOf(ws, names)
    requires forall i :: 0 <= i < |vs| ==> WellFormed(vs[i]) && Distinguishable(vs[i])
    requires forall i :: 0 <= i < |ws| ==> WellFormed(ws[i]) && Distinguishable(ws[i])
    requires forall i :: 0 <= i < |vs| ==> TextOf(vs[i]) == TextOf(ws[i])
    ensures vs == ws
  {
    hide TextOf, IndexOf, WellFormed, Distinguishable;
    if vs != [] {
      assert IndexesOf(vs, names)[0] == IndexesOf(ws, names)[0];
      assert IndexesOf(vs, names)[1..] == IndexesOf(ws, names)[1..];
      TextTellsValue(vs[0], ws[0], names[0]);
      RowsDoNotCollide(vs[1..], ws[1..], names[1..]);
    }
  }
}
