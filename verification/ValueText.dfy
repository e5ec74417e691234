/** A variable's value as label text, and the generator's shortcut from hints to types. */
module ValueText {
  import opened Text
  import opened Config
  import opened Oid
  import opened IndexCodec
  import opened DisplayHint
  import opened DisplayHintLaws
  import IndexRoundTrip
  import GoInt

  /** The value of a variable.  Floats and unexpected types are not part of this model. */
  datatype Pdu =
    | Number(n: int)
    | Octets(bytes: seq<byte>)
    | ObjectId(oid: string)
    | Text(text: string)
    | Null

  /** `int(gosnmp.ToBigInt(v).Int64())`: a text counts as the number it spells if that is an int, anything else as 0. */
  function IntOf(p: Pdu): int {
    match p
    case Number(n) => GoInt.Wrap(n)
    case ObjectId(oid) => IntIfInRange(oid)
    case Text(text) => IntIfInRange(text)
    case _ => 0
  }

  function IntIfInRange(s: string): int { if IsInt(Signed(s)) then Signed(s) else 0 }

  const NO_TYPE := Other("")
  const BITS := Other("Bits")

  /** The octets path of pduValueAsString before repair of invalid UTF-8: the hint if it applies, otherwise the index
      decoder run on the octets.  None where the source panics on a type it cannot decode. */
  function OctetsText(v: seq<byte>, typ: Type, hint: string): Option<string> {
    var hinted := if hint != [] && (typ == NO_TYPE || typ == OctetString) then Render(hint, v) else None;
    if hinted.Some? then hinted
    else
      var t := if typ == NO_TYPE || typ == BITS then OctetString else typ;
      var parts: SubIds := if t == OctetString || t == DisplayString then [|v|] + v else v;
      match Decode(parts, t, 0, false, map[])
      case None => None
      case Some(d) => Some(d.text)
  }

  function PduText(p: Pdu, typ: Type, hint: string): Option<string> {
    match p
    case Number(n) => Some(Itoa(n))
    case Octets(bytes) => OctetsText(bytes, typ, hint)
    case ObjectId(oid) => if oid == [] then None else Some(oid[1..])
    case Text(text) => Some(text)
    case Null => Some("")
  }

  /** Without a usable hint, octets read as a string type come out whole. */
  lemma DefaultText(v: seq<byte>, hint: string)
    requires hint == [] || Render(hint, v) == None
    ensures OctetsText(v, OctetString, hint) == OctetsText(v, NO_TYPE, hint) == OctetsText(v, BITS, hint)
            == Some(HexText(v))
    ensures OctetsText(v, DisplayString, hint) == Some(Raw(v))
  {
    hide Render, HexText, Raw, ToBytes, DecodeString;
    IndexRoundTrip.CountedRoundTrip(v, false, []);
    IndexRoundTrip.CountedRoundTrip(v, true, []);
    IndexRoundTrip.ToBytesOfBytes(v);
    assert [|v|] + v + [] == [|v|] + v;
  }

  /** With a hint, the text of octets is either all of them in hexadecimal, exactly when the hint cannot be used, or the
      rendering of applications that together are the whole value. */
  lemma HintedText(v: seq<byte>, hint: string)
    requires hint != []
    ensures var h := ParseHint(hint);
            var text, apps := OctetsText(v, OctetString, hint), Applications(h, v);
            && OctetsText(v, NO_TYPE, hint) == text
            && if v == [] || Unusable(h, v) then text == Some(HexText(v))
               else AllOctets(apps) == v && text.Some? && text == RenderAll(apps)
  {
    RenderFailsExactly(hint, v);
    hide Unusable, Render, ParseHint;
    if Render(hint, v).Some? {
      RenderConserves(hint, v);
    } else {
      DefaultText(v, hint);
    }
  }

  /** The generator gives an object with a hint of digits and `a` or `t` the type DisplayString.  The type and the hint
      agree exactly on the empty value and where the digits, as an int that wraps, are more than 0. */
  lemma TextHintTypeAgrees(digits: string, f: Format, v: seq<byte>)
    requires digits != [] && AllDigits(digits) && (f == Ascii || f == Utf8)
    ensures OctetsText(v, DisplayString, []) == OctetsText(v, OctetString, digits + [FormatChar(f)])
            <==> v == [] || GoInt.Wrap(NumeralValue(digits, 10)) > 0
  {
    hide OctetsText, Render, ParseHint;
    var hint, take := digits + [FormatChar(f)], GoInt.Wrap(NumeralValue(digits, 10));
    DefaultText(v, []);
    ReadDigitsHint(digits, f);
    if v == [] {
      RenderFailsExactly(hint, v);
      DefaultText(v, hint);
      assert Raw(v) == HexText(v);
    } else if take > 0 {
      var spec := Spec(false, take, f, None, None);
      RenderUniform(spec, 0, v);
      UniformRaw(spec, v);
      assert Render(hint, v) == Some(Raw(v)) by { RenderIs(hint, v); }
      UsableHintDecides(v, hint);
    } else {
      NoWidthFails(hint, take, f, v);
      DefaultText(v, hint);
      HexTextIsNotRaw(v);
    }
  }

  lemma RenderIs(hint: string, v: seq<byte>)
    requires hint != [] && v != []
    ensures Render(hint, v) == RenderFrom(ParseHint(hint), 0, v)
  {}

  lemma UsableHintDecides(v: seq<byte>, hint: string)
    requires hint != [] && Render(hint, v).Some?
    ensures OctetsText(v, OctetString, hint) == Render(hint, v)
  {}

  lemma HexTextIsNotRaw(v: seq<byte>)
    requires v != []
    ensures HexText(v) != Raw(v)
  {}

  lemma NoWidthFails(hint: string, take: int, f: Format, v: seq<byte>)
    requires v != [] && (f == Ascii || f == Utf8) && take <= 0 && hint != []
    requires ParseHint(hint) == if take < 0 then Hint([], false) else Hint([Spec(false, 0, f, None, None)], true)
    ensures Render(hint, v) == None
  {
    RenderFailsExactly(hint, v);
    hide Render, ParseHint, Applications;
    var h := ParseHint(hint);
    assert Left(h, v, 0) == v;
    if take == 0 { assert Takes(h.specs[0], v) == 0 && Left(h, v, 1) == v[0..] == v; }
  }

  /** The generator gives an object with hint `1x:` and no size, or size 6, the type PhysAddress48. The type and the
      hint agree exactly on values of six octets; a longer or shorter value is cut or padded by the type. */
  lemma MacHintTypeAgrees(v: seq<byte>)
    ensures OctetsText(v, PhysAddress48, []) == OctetsText(v, OctetString, SimpleHint(1, Hexadecimal, Some(':')))
            <==> |v| == 6
  {
    hide OctetsText, MacText, SimpleHint;
    var six: seq<byte> := if |v| >= 6 then v[..6] else v + seq(6 - |v|, _ => 0);
    MacOfSix(v, six);
    HintedMac(v);
    IndexRoundTrip.MacIsHex(six);
    IndexRoundTrip.MacIsHex(v);
    assert |v| == 6 ==> six == v;
    assert |Hex(six)| == 12 && |Hex(v)| == 2 * |v|;
  }

  lemma HintedMac(v: seq<byte>)
    ensures OctetsText(v, OctetString, SimpleHint(1, Hexadecimal, Some(':'))) == Some(MacText(v))
  {
    hide OctetsText, Render, MacText, Uniform;
    var hint := SimpleHint(1, Hexadecimal, Some(':'));
    if v == [] {
      RenderFailsExactly(hint, v);
      DefaultText(v, hint);
      IndexRoundTrip.NoText();
    } else {
      RenderSimple(1, Hexadecimal, Some(':'), v);
      MacIsUniform(v);
      UsableHintDecides(v, hint);
    }
  }

  /** Both can differ: an empty address, and a text whose hint formats nothing. */
  lemma HintTypesDiffer()
    ensures OctetsText([], PhysAddress48, []) != OctetsText([], OctetString, SimpleHint(1, Hexadecimal, Some(':')))
    ensures OctetsText([65], DisplayString, []) != OctetsText([65], OctetString, "0" + [FormatChar(Ascii)])
  {
    hide OctetsText;
    MacHintTypeAgrees([]);
    TextHintTypeAgrees("0", Ascii, [65]);
    assert NumeralValue("0", 10) == 0;
  }

  lemma MacOfSix(v: seq<byte>, six: seq<byte>)
    requires six == if |v| >= 6 then v[..6] else v + seq(6 - |v|, _ => 0)
    ensures OctetsText(v, PhysAddress48, []) == Some(MacText(six))
  {}

  lemma {:induction false} MacIsUniform(v: seq<byte>)
    ensures Uniform(Spec(false, 1, Hexadecimal, Some(':'), None), v) == Some(MacText(v))
  {
    if v != [] {
      var rest := v[1..];
      MacIsUniform(rest);
      IndexRoundTrip.Hex2OfByte(v[0]);
      assert v[..1] == [v[0]];
      var parts := Map<nat, string>(Hex2, v);
      assert parts[0] == Hex([v[0]]) && parts[1..] == Map<nat, string>(Hex2, rest);
      if rest == [] {
        assert Hex([v[0]]) + [] + [] == Hex([v[0]]);
      }
    }
  }
}
