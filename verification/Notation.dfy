/** How label texts are written, character by character: numerals, hexadecimal, addresses. */
module Notation {
  import opened Text
  import opened Oid
  import opened IndexCodec
  import Config
  import IndexRoundTrip

  /** The numeral of an integer: an optional minus sign and decimal digits without leading zeros. */
  predicate IsNumeralOf(s: string, n: int) {
    if n < 0 then s != [] && s[0] == '-' && Canonical(s[1..]) && NumeralValue(s[1..], 10) == -n
    else Canonical(s) && NumeralValue(s, 10) == n
  }

  lemma ItoaIsNumeral(n: int)
    ensures IsNumeralOf(Itoa(n), n)
  {
    var m := if n < 0 then -n else n;
    NumeralRoundTrip(m, 10);
    NumeralCanonical(m, 10);
    if n < 0 { assert Itoa(n)[1..] == Decimal(m); }
  }

  /** A hexadecimal digit with capitals. */
  predicate IsNibble(c: char, d: int) {
    0 <= d < 16 && c as int == if d < 10 then '0' as int + d else 'A' as int + d - 10
  }

  predicate IsPair(high: char, low: char, b: byte) { IsNibble(high, b / 16) && IsNibble(low, b % 16) }

  lemma HexOne(b: byte)
    ensures var h := Hex([b]); |h| == 2 && IsPair(h[0], h[1], b)
  {
    assert [b][1..] == [];
  }

  /** Two capital hexadecimal digits for every octet. */
  predicate IsHexOf(s: string, v: seq<byte>) {
    |s| == 2 * |v| && forall i :: 0 <= i < |v| ==> IsPair(s[2 * i], s[2 * i + 1], v[i])
  }

  lemma {:induction false} HexIs(v: seq<byte>)
    ensures IsHexOf(Hex(v), v)
  {
    if v != [] {
      HexIs(v[1..]);
      HexOne(v[0]);
      var s, t := Hex(v), Hex(v[1..]);
      assert s[2..] == t;
      forall i | 0 <= i < |v| ensures IsPair(s[2 * i], s[2 * i + 1], v[i]) {
        if i > 0 { assert s[2 * i] == t[2 * (i - 1)] && s[2 * i + 1] == t[2 * (i - 1) + 1]; }
      }
    }
  }

  /** `0x` and the octets in hexadecimal, nothing for no octets. */
  predicate IsHexTextOf(s: string, v: seq<byte>) {
    if v == [] then s == "" else |s| > 2 && s[0] == '0' && s[1] == 'x' && IsHexOf(s[2..], v)
  }

  lemma HexTextIs(v: seq<byte>)
    ensures IsHexTextOf(HexText(v), v)
  {
    HexIs(v);
    if v != [] { assert HexText(v)[2..] == Hex(v); }
  }

  /** The octets themselves. */
  predicate IsRawOf(s: string, v: seq<byte>) { |s| == |v| && forall i :: 0 <= i < |v| ==> s[i] as int == v[i] }

  lemma RawIs(v: seq<byte>)
    ensures IsRawOf(Raw(v), v)
  {}

  /** Octets in hexadecimal with colons between them. */
  predicate IsMacOf(s: string, v: seq<byte>)
    requires v != []
  {
    && |s| == 3 * |v| - 1
    && (forall i :: 0 <= i < |v| ==> IsPair(s[3 * i], s[3 * i + 1], v[i]))
    && (forall i :: 0 <= i < |v| - 1 ==> s[3 * i + 2] == ':')
  }

  lemma {:induction false} MacIs(v: seq<byte>)
    requires v != []
    ensures IsMacOf(MacText(v), v)
  {
    hide Hex, Hex2, MacText, IsMacOf, IsPair;
    HexOne(v[0]);
    IndexRoundTrip.Hex2OfByte(v[0]);
    IndexRoundTrip.MacStep(v);
    var first := Hex([v[0]]);
    if |v| > 1 {
      MacIs(v[1..]);
      var t := MacText(v[1..]);
      assert MacText(v) == first + ([':'] + t);
      PairInFront(MacText(v), first, t, v);
    } else {
      OnePair(first, v);
    }
  }

  lemma OnePair(first: string, v: seq<byte>)
    requires |v| == 1 && |first| == 2 && IsPair(first[0], first[1], v[0])
    ensures IsMacOf(first, v)
  {}

  lemma PairInFront(s: string, first: string, t: string, v: seq<byte>)
    requires |v| > 1 && IsMacOf(t, v[1..])
    requires |first| == 2 && IsPair(first[0], first[1], v[0]) && s == first + ([':'] + t)
    ensures IsMacOf(s, v)
  {
    hide IsPair;
    assert s[0] == first[0] && s[1] == first[1] && s[2] == ':' && s[3..] == t;
    forall i | 0 <= i < |v| ensures IsPair(s[3 * i], s[3 * i + 1], v[i]) {
      if i > 0 { assert s[3 * i] == t[3 * (i - 1)] && s[3 * i + 1] == t[3 * (i - 1) + 1] && v[i] == v[1..][i - 1]; }
    }
    forall i | 0 <= i < |v| - 1 ensures s[3 * i + 2] == ':' {
      if i > 0 { assert s[3 * i + 2] == t[3 * (i - 1) + 2]; }
    }
  }

  /** Octets in hexadecimal with a colon after every two. */
  predicate IsIpv6Of(s: string, v: seq<byte>)
    requires |v| % 2 == 0 && v != []
  {
    && |s| == 5 * (|v| / 2) - 1
    && (forall g :: 0 <= g < |v| / 2 ==>
          IsPair(s[5 * g], s[5 * g + 1], v[2 * g]) && IsPair(s[5 * g + 2], s[5 * g + 3], v[2 * g + 1]))
    && (forall g :: 0 <= g < |v| / 2 - 1 ==> s[5 * g + 4] == ':')
  }

  lemma {:induction false} Ipv6Is(v: seq<byte>)
    requires |v| % 2 == 0 && v != []
    ensures IsIpv6Of(Ipv6Text(v), v)
  {
    hide Hex, Hex2, IsIpv6Of, IsPair, Ipv6Text;
    HexOne(v[0]);
    HexOne(v[1]);
    IndexRoundTrip.Hex2OfByte(v[0]);
    IndexRoundTrip.Hex2OfByte(v[1]);
    var first := Hex([v[0]]) + Hex([v[1]]);
    if |v| > 2 {
      Ipv6Is(v[2..]);
      IndexRoundTrip.Ipv6Step(v);
      var s, t := Ipv6Text(v), Ipv6Text(v[2..]);
      assert s == first + ([':'] + t);
      assert s[..4] == first && s[4] == ':' && s[5..] == t;
      GroupInFront(s, first, t, v);
    } else {
      Ipv6Two(v);
      OneGroup(first, v);
    }
  }

  lemma Ipv6Two(v: seq<byte>)
    requires |v| == 2
    ensures Ipv6Text(v) == Hex2(v[0]) + Hex2(v[1])
  {}

  lemma OneGroup(first: string, v: seq<byte>)
    requires |v| == 2 && |first| == 4 && IsPair(first[0], first[1], v[0]) && IsPair(first[2], first[3], v[1])
    ensures IsIpv6Of(first, v)
  {}

  lemma GroupInFront(s: string, first: string, t: string, v: seq<byte>)
    requires |v| % 2 == 0 && |v| > 2 && IsIpv6Of(t, v[2..])
    requires |first| == 4 && IsPair(first[0], first[1], v[0]) && IsPair(first[2], first[3], v[1])
    requires |s| == |t| + 5 && s[..4] == first && s[4] == ':' && s[5..] == t
    ensures IsIpv6Of(s, v)
  {
    hide IsPair;
    assert s[0] == first[0] && s[1] == first[1] && s[2] == first[2] && s[3] == first[3];
    forall g | 0 <= g < |v| / 2
      ensures IsPair(s[5 * g], s[5 * g + 1], v[2 * g]) && IsPair(s[5 * g + 2], s[5 * g + 3], v[2 * g + 1])
    {
      if g > 0 { SameGroup(s, t, v, g); }
    }
    forall g | 0 <= g < |v| / 2 - 1 ensures s[5 * g + 4] == ':' {
      if g > 0 { assert s[5 * g + 4] == t[5 * (g - 1) + 4]; }
    }
  }

  lemma SameGroup(s: string, t: string, v: seq<byte>, g: nat)
    requires 0 < g < |v| / 2 && |v| % 2 == 0 && |s| == |t| + 5 && s[5..] == t && IsIpv6Of(t, v[2..])
    ensures |s| > 5 * g + 3
    ensures IsPair(s[5 * g], s[5 * g + 1], v[2 * g]) && IsPair(s[5 * g + 2], s[5 * g + 3], v[2 * g + 1])
  {
    var h := g - 1;
    assert s[5 * g] == t[5 * h] && s[5 * g + 1] == t[5 * h + 1] && s[5 * g + 2] == t[5 * h + 2]
        && s[5 * g + 3] == t[5 * h + 3];
    assert v[2..][2 * h] == v[2 * g] && v[2..][2 * h + 1] == v[2 * g + 1];
  }

  /** Decimal numbers with dots between them. */
  ghost predicate IsDottedOf(s: string, v: seq<byte>) {
    var parts := SplitOn('.', s);
    |parts| == |v| && forall i :: 0 <= i < |v| ==> IsNumeralOf(parts[i], v[i])
  }

  lemma DottedIs(v: seq<byte>)
    requires v != []
    ensures IsDottedOf(DottedText(v), v)
  {
    IndexRoundTrip.DottedSplits(v);
    forall i | 0 <= i < |v| ensures IsNumeralOf(Decimal(v[i]), v[i]) { ItoaIsNumeral(v[i]); }
  }

  // ---------------------------------------------------------------- the texts of index values

  /** What a table index with this value is shown as. */
  ghost predicate ShowsIndex(text: string, v: IndexRoundTrip.Value)
    requires IndexRoundTrip.WellFormed(v)
  {
    match v
    case Number(n) => IsNumeralOf(text, n)
    case Enumerated(n, names) => if n in names then text == names[n] else IsNumeralOf(text, n)
    case Fixed(bytes, display) => if display then IsRawOf(text, bytes) else IsHexTextOf(text, bytes)
    case Counted(bytes, display) => if display then IsRawOf(text, bytes) else IsHexTextOf(text, bytes)
    case Implied(bytes, display) => if display then IsRawOf(text, bytes) else IsHexTextOf(text, bytes)
    case Mac(bytes) => IsMacOf(text, bytes)
    case IPv4(bytes) => IsDottedOf(text, bytes)
    case IPv6(bytes) => IsIpv6Of(text, bytes)
    case Address(kind, bytes) =>
      if kind == 1 then IsDottedOf(text, bytes) else if kind == 2 then IsIpv6Of(text, bytes)
      else IsHexTextOf(text, [kind % 256, |bytes| % 256] + bytes)
    case UnsizedAddress(kind, bytes) =>
      if kind == 1 then IsDottedOf(text, bytes) else if kind == 2 then IsIpv6Of(text, bytes)
      else IsHexTextOf(text, [kind % 256] + bytes)
  }

  lemma StringShown(bytes: seq<byte>, display: bool)
    ensures var text := IndexRoundTrip.StringText(bytes, display);
            if display then IsRawOf(text, bytes) else IsHexTextOf(text, bytes)
  {
    RawIs(bytes);
    HexTextIs(bytes);
  }

  lemma TextShown(v: IndexRoundTrip.Value)
    requires IndexRoundTrip.WellFormed(v)
    ensures ShowsIndex(IndexRoundTrip.TextOf(v), v)
  {
    hide IsRawOf, IsHexTextOf, IsMacOf, IsDottedOf, IsIpv6Of, IsNumeralOf, HexText, MacText, DottedText, Ipv6Text,
         Decimal, IndexRoundTrip.StringText;
    match v
    case Number(n) => DecimalShown(n);
    case Enumerated(n, _) => DecimalShown(n);
    case Fixed(bytes, display) => StringShown(bytes, display);
    case Counted(bytes, display) => StringShown(bytes, display);
    case Implied(bytes, display) => StringShown(bytes, display);
    case Mac(bytes) => MacIs(bytes);
    case IPv4(bytes) => DottedIs(bytes);
    case IPv6(bytes) => Ipv6Is(bytes);
    case Address(kind, bytes) => AddressShown(kind, bytes, [kind % 256, |bytes| % 256] + bytes);
    case UnsizedAddress(kind, bytes) => AddressShown(kind, bytes, [kind % 256] + bytes);
  }

  lemma DecimalShown(n: nat)
    ensures IsNumeralOf(Decimal(n), n)
  {
    ItoaIsNumeral(n);
  }

  /** Decoding the encoding of any index value shows it so, whatever follows. */
  lemma IndexShown(v: IndexRoundTrip.Value, name: string, rest: SubIds)
    requires IndexRoundTrip.WellFormed(v) && (IndexRoundTrip.Greedy(v) ==> rest == [])
    ensures var d := DecodeIndex(IndexRoundTrip.Encode(v) + rest, IndexRoundTrip.IndexOf(v, name));
            d.Some? && d.value.used == IndexRoundTrip.Encode(v) && d.value.remaining == rest
                && ShowsIndex(d.value.text, v)
  {
    hide DecodeIndex, IndexRoundTrip.Encode, IndexRoundTrip.IndexOf, IndexRoundTrip.TextOf, IndexRoundTrip.Greedy,
         IndexRoundTrip.WellFormed, ShowsIndex;
    IndexRoundTrip.ValueRoundTrip(v, name, rest);
    TextShown(v);
  }

  lemma AddressShown(kind: nat, bytes: seq<byte>, octets: seq<byte>)
    requires IndexRoundTrip.AddressFits(kind, bytes)
    ensures kind == 1 ==> IsDottedOf(DottedText(bytes), bytes)
    ensures kind == 2 ==> IsIpv6Of(Ipv6Text(bytes), bytes)
    ensures IsHexTextOf(HexText(octets), octets)
  {
    if kind == 1 { DottedIs(bytes); }
    if kind == 2 { Ipv6Is(bytes); }
    HexTextIs(octets);
  }

  /** For instance, a counted string ... */
  lemma CountedExample(name: string)
    ensures DecodeIndex([2, 104, 105, 9], Config.Index(name, Config.DisplayString, 0, false, map[]))
            == Some(Decoded("hi", [2, 104, 105], [9]))
  {
    hide DecodeIndex;
    var hi: seq<byte> := [104, 105];
    IndexRoundTrip.ValueRoundTrip(IndexRoundTrip.Counted(hi, true), name, [9]);
    assert Raw(hi) == "hi";
    assert [2] + hi == [2, 104, 105] && [2, 104, 105] + [9] == [2, 104, 105, 9];
  }

  /** ... an implied one ... */
  lemma ImpliedExample(name: string)
    ensures DecodeIndex([104, 105], Config.Index(name, Config.DisplayString, 0, true, map[]))
            == Some(Decoded("hi", [104, 105], []))
  {
    hide DecodeIndex;
    var hi: seq<byte> := [104, 105];
    IndexRoundTrip.ValueRoundTrip(IndexRoundTrip.Implied(hi, true), name, []);
    assert Raw(hi) == "hi" && hi + [] == [104, 105];
  }

  /** ... and an IPv4 address after its type and size. */
  lemma AddressExample(name: string)
    ensures var d := DecodeIndex([1, 4, 10, 0, 0, 7, 9], Config.Index(name, Config.InetAddress, 0, false, map[]));
            d.Some? && d.value.used == [1, 4, 10, 0, 0, 7] && d.value.remaining == [9]
                && IsDottedOf(d.value.text, [10, 0, 0, 7])
  {
    hide DecodeIndex, IsDottedOf, IsIpv6Of, IsHexTextOf;
    var address: seq<byte> := [10, 0, 0, 7];
    var v := IndexRoundTrip.Address(1, address);
    IndexShown(v, name, [9]);
    assert IndexRoundTrip.Encode(v) == [1, 4] + address == [1, 4, 10, 0, 0, 7];
    assert [1, 4, 10, 0, 0, 7] + [9] == [1, 4, 10, 0, 0, 7, 9];
  }
}
