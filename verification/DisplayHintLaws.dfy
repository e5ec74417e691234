/** What a hint promises about its text: nothing of the value is lost or repeated, the hint
    language can be written back, and common hints can be undone. */
module DisplayHintLaws {
  import opened Text
  import opened DisplayHint
  import opened DisplayHintInterpreter
  import GoInt

  // ---------------------------------------------------------------- conservation and failure

  lemma SplitStep(h: Hint, n: nat, data: seq<byte>)
    requires data != [] && Split(h, n, data).Some?
    ensures SpecAt(h, n).Some?
    ensures var (app, rest) := Apply(SpecAt(h, n).value, data);
            && Split(h, n + 1, rest).Some?
            && Split(h, n, data).value == [app] + Split(h, n + 1, rest).value
            && app.spec == SpecAt(h, n).value
            && (!app.spec.star ==> app.chunks != [])
  {}

  lemma SplitEnd(h: Hint, n: nat)
    ensures Split(h, n, []) == Some([])
  {}

  lemma {:induction false} SplitConserves(h: Hint, n: nat, data: seq<byte>)
    requires Split(h, n, data).Some?
    ensures AllOctets(Split(h, n, data).value) == data
    decreases |data|, if n < |h.specs| then |h.specs| - n else 0
  {
    if data != [] {
      SplitStep(h, n, data);
      var (app, rest) := Apply(SpecAt(h, n).value, data);
      SplitConserves(h, n + 1, rest);
      assert Split(h, n, data).value[1..] == Split(h, n + 1, rest).value;
    }
  }

  /** The specifications are used in the hint's order, the last one repeating. */
  lemma {:induction false} SplitUsesSpecsInOrder(h: Hint, n: nat, data: seq<byte>, apps: seq<Application>, i: nat)
    requires Split(h, n, data) == Some(apps) && i < |apps|
    ensures SpecAt(h, n + i) == Some(apps[i].spec)
    decreases i
  {
    hide Split, Apply;
    SplitEnd(h, n);
    SplitStep(h, n, data);
    if i > 0 {
      var (app, rest) := Apply(SpecAt(h, n).value, data);
      assert apps[1..] == Split(h, n + 1, rest).value;
      SplitUsesSpecsInOrder(h, n + 1, rest, apps[1..], i - 1);
    }
  }

  /** Chunks have the width the specification asks for, except a last one cut short by the end of the value. */
  lemma {:induction false} ChopWidths(take: nat, times: nat, data: seq<byte>, i: nat)
    requires i < |Chop(take, times, data)|
    ensures var chunks := Chop(take, times, data);
            && |chunks| <= times
            && |chunks[i]| <= take
            && (|chunks[i]| < take ==> i == |chunks| - 1 && Concat(chunks) == data)
            && (|chunks| < times ==> Concat(chunks) == data)
    decreases times
  {
    var k := Min(take, |data|);
    var chunks := Chop(take, times, data);
    var rest := data[k..];
    var tail := Chop(take, times - 1, rest);
    assert chunks == [data[..k]] + tail && chunks[1..] == tail;
    assert data == data[..k] + rest;
    if tail == [] {
      assert Concat(chunks) == data[..k];
      assert rest == [] ==> data[..k] == data;
    } else {
      ChopWidths(take, times - 1, rest, if i > 0 then i - 1 else 0);
    }
  }

  /** On success the count octets and the chunks, in order, are exactly the value. */
  lemma RenderConserves(hint: string, data: seq<byte>)
    requires Render(hint, data).Some?
    ensures var apps := Split(ParseHint(hint), 0, data);
            apps.Some? && AllOctets(apps.value) == data && Render(hint, data) == RenderAll(apps.value)
  {
    SplitConserves(ParseHint(hint), 0, data);
  }

  /** A chunk that a uint64 cannot hold. */
  predicate TooWide(a: Application, j: nat)
    requires j < |a.chunks|
  {
    (a.spec.format == Dec || a.spec.format == Octal) && |a.chunks[j]| > 8
  }

  ghost predicate HasTooWide(a: Application) { exists j: nat :: j < |a.chunks| && TooWide(a, j) }

  lemma {:induction false} JoinFails(a: Application)
    ensures Join(a.spec.format, a.spec.sep, a.chunks) == None <==> HasTooWide(a)
    decreases |a.chunks|
  {
    if a.chunks != [] {
      var tail := a.(chunks := a.chunks[1..]);
      JoinFails(tail);
      assert RenderChunk(a.spec.format, a.chunks[0]) == None <==> TooWide(a, 0);
      if j: nat :| j < |tail.chunks| && TooWide(tail, j) {
        assert TooWide(a, j + 1);
      }
      if j: nat :| j < |a.chunks| && TooWide(a, j) {
        assert j > 0 ==> TooWide(tail, j - 1);
      }
    }
  }

  lemma {:induction false} RenderAllFails(apps: seq<Application>)
    ensures RenderAll(apps) == None <==> exists i :: 0 <= i < |apps| && HasTooWide(apps[i])
  {
    if apps != [] {
      JoinFails(apps[0]);
      RenderAllFails(apps[1..]);
      if i :| 0 <= i < |apps[1..]| && HasTooWide(apps[1..][i]) {
        assert HasTooWide(apps[i + 1]);
      }
      if i :| 0 <= i < |apps| && HasTooWide(apps[i]) && i > 0 {
        assert HasTooWide(apps[1..][i - 1]);
      }
    }
  }

  /** How many octets a specification takes off a value: its count octet, and as many chunks of its width as there
      are. */
  function Takes(spec: Spec, data: seq<byte>): nat
    requires data != []
  {
    if spec.star then 1 + Min(spec.take * data[0], |data| - 1) else Min(spec.take, |data|)
  }

  lemma {:induction false} ChopLength(take: nat, times: nat, data: seq<byte>)
    ensures |Concat(Chop(take, times, data))| == Min(take * times, |data|)
    decreases times
  {
    if times > 0 && data != [] {
      var k := Min(take, |data|);
      ChopLength(take, times - 1, data[k..]);
      assert Chop(take, times, data)[1..] == Chop(take, times - 1, data[k..]);
      assert take * times == take + take * (times - 1);
      TimesNotNegative(take, times - 1);
    } else {
      TimesNotNegative(take, times);
    }
  }

  lemma TimesNotNegative(a: nat, b: nat)
    ensures a * b >= 0 && (b == 0 ==> a * b == 0)
  {}

  lemma ApplyTakes(spec: Spec, data: seq<byte>)
    requires data != []
    ensures Takes(spec, data) <= |data| && Apply(spec, data).1 == data[Takes(spec, data)..]
    ensures Consumes(spec) ==> Takes(spec, data) > 0
  {
    hide Chop;
    var body := if spec.star then data[1..] else data;
    ChopLength(spec.take, if spec.star then data[0] else 1, body);
  }

  /** The octets left before the n-th specification is applied. */
  function Left(h: Hint, data: seq<byte>, n: nat): seq<byte> {
    if n == 0 then data
    else
      var d := Left(h, data, n - 1);
      if d == [] || SpecAt(h, n - 1).None? then d
      else
        ApplyTakes(SpecAt(h, n - 1).value, d);
        d[Takes(SpecAt(h, n - 1).value, d)..]
  }

  /** The hint can be repeated: it was read to its end, and its last specification uses up octets. */
  predicate GoesOn(h: Hint) { h.complete && h.specs != [] && Consumes(h.specs[|h.specs| - 1]) }

  lemma SplitMoves(h: Hint, n: nat, data: seq<byte>)
    requires data != [] && SpecAt(h, n).Some?
    ensures Takes(SpecAt(h, n).value, data) <= |data|
    ensures Consumes(SpecAt(h, n).value) ==> Takes(SpecAt(h, n).value, data) > 0
    ensures Split(h, n, data).Some? <==> Split(h, n + 1, data[Takes(SpecAt(h, n).value, data)..]).Some?
  {
    hide Apply, Takes, SpecAt;
    ApplyTakes(SpecAt(h, n).value, data);
  }

  lemma FirstSpecs(h: Hint, n: nat)
    requires n < |h.specs|
    ensures SpecAt(h, n) == Some(h.specs[n])
  {}

  lemma LeftStep(h: Hint, data: seq<byte>, n: nat)
    ensures Left(h, data, 0) == data
    ensures Left(h, data, n) == [] ==> Left(h, data, n + 1) == []
    ensures Left(h, data, n) != [] && SpecAt(h, n).Some? ==>
              var d := Left(h, data, n);
              Takes(SpecAt(h, n).value, d) <= |d| && Left(h, data, n + 1) == d[Takes(SpecAt(h, n).value, d)..]
  {
    hide Takes, SpecAt;
    var d := Left(h, data, n);
    if d != [] && SpecAt(h, n).Some? { ApplyTakes(SpecAt(h, n).value, d); }
  }

  lemma {:induction false} SplitAsFarAs(h: Hint, data: seq<byte>, n: nat)
    requires n <= |h.specs|
    ensures Split(h, 0, data).Some? <==> Split(h, n, Left(h, data, n)).Some?
  {
    hide Split, Takes, SpecAt, Left;
    if n == 0 {
      LeftStep(h, data, 0);
    } else {
      SplitAsFarAs(h, data, n - 1);
      FirstSpecs(h, n - 1);
      LeftStep(h, data, n - 1);
      var d := Left(h, data, n - 1);
      if d != [] {
        SplitMoves(h, n - 1, d);
      } else {
        SplitEnd(h, n - 1);
        SplitEnd(h, n);
      }
    }
  }

  lemma {:induction false} RepeatingSplits(h: Hint, n: nat, data: seq<byte>)
    requires n >= |h.specs| && GoesOn(h)
    ensures Split(h, n, data).Some?
    decreases |data|
  {
    hide Split, Apply;
    if data == [] {
      SplitEnd(h, n);
    } else {
      SplitMoves(h, n, data);
      RepeatingSplits(h, n + 1, data[Takes(SpecAt(h, n).value, data)..]);
    }
  }

  /** The value cannot be split exactly when octets are left after every specification was used once, and the hint
      cannot be repeated. */
  lemma SplitFailsExactly(h: Hint, data: seq<byte>)
    ensures Split(h, 0, data) == None <==> Left(h, data, |h.specs|) != [] && !GoesOn(h)
  {
    SplitAsFarAs(h, data, |h.specs|);
    if GoesOn(h) { RepeatingSplits(h, |h.specs|, Left(h, data, |h.specs|)); }
  }

  function Applications(h: Hint, data: seq<byte>): seq<Application> {
    match Split(h, 0, data)
    case None => []
    case Some(apps) => apps
  }

  /** Octets are left when the hint is used up and cannot be repeated, or a number is over eight octets wide. */
  ghost predicate Unusable(h: Hint, data: seq<byte>) {
    || (Left(h, data, |h.specs|) != [] && !GoesOn(h))
    || exists i :: 0 <= i < |Applications(h, data)| && HasTooWide(Applications(h, data)[i])
  }

  /** These and having nothing to do are the only failures. */
  lemma RenderFailsExactly(hint: string, data: seq<byte>)
    ensures Render(hint, data) == None <==> hint == [] || data == [] || Unusable(ParseHint(hint), data)
  {
    hide Split, Left, ParseHint, GoesOn, RenderAll, HasTooWide;
    var h := ParseHint(hint);
    SplitFailsExactly(h, data);
    var apps := Applications(h, data);
    RenderAllFails(apps);
    if hint != [] && data != [] {
      assert Render(hint, data) == if Split(h, 0, data).Some? then RenderAll(apps) else None;
    }
  }

  // ---------------------------------------------------------------- the hint language

  function FormatChar(f: Format): (c: char)
    ensures FormatOf(c) == Some(f) && !StartsSpec(c)
  {
    match f
    case Dec => 'd'
    case Hexadecimal => 'x'
    case Octal => 'o'
    case Ascii => 'a'
    case Utf8 => 't'
  }

  /** A specification that has a text: its octet length is an int, and its literals cannot be mistaken for a
      specification's start; a terminator needs a `*` and a separator before it. */
  predicate Writable(s: Spec) {
    && s.take <= GoInt.MAX_INT
    && (s.sep.Some? ==> !StartsSpec(s.sep.value))
    && (s.term.Some? ==> s.star && s.sep.Some? && !StartsSpec(s.term.value))
  }

  function WriteSpec(s: Spec): string {
    (if s.star then "*" else "") + Decimal(s.take) + [FormatChar(s.format)] + Mark(s.sep) + Mark(s.term)
  }

  function WriteHint(specs: seq<Spec>): string {
    if specs == [] then [] else WriteSpec(specs[0]) + WriteHint(specs[1..])
  }

  lemma ReadMark(c: Option<char>, rest: string)
    requires c.Some? ==> !StartsSpec(c.value)
    requires c.None? ==> rest == [] || StartsSpec(rest[0])
    ensures Literal(Mark(c) + rest) == (c, rest)
  {
    if c.Some? {
      assert (Mark(c) + rest)[1..] == rest;
    } else {
      assert Mark(c) + rest == rest;
    }
  }

  /** What ParseBody reads from digits, a format character and marks, whatever the digits say. */
  lemma ReadBodyText(star: bool, digits: string, s: Spec, rest: string)
    requires digits != [] && AllDigits(digits) && s.star == star
    requires s.sep.Some? ==> !StartsSpec(s.sep.value)
    requires s.term.Some? ==> star && s.sep.Some? && !StartsSpec(s.term.value)
    requires rest == [] || StartsSpec(rest[0])
    ensures var take := GoInt.Wrap(NumeralValue(digits, 10));
            ParseBody(star, digits + ([FormatChar(s.format)] + (Mark(s.sep) + (Mark(s.term) + rest))))
            == if take < 0 then None else Some((s.(take := take), rest))
  {
    var afterSep := Mark(s.term) + rest;
    var afterFormat := Mark(s.sep) + afterSep;
    var text := digits + ([FormatChar(s.format)] + afterFormat);
    var k := |digits|;
    assert text[..k] == digits && text[k] == FormatChar(s.format) && text[k + 1..] == afterFormat;
    DigitRunIs(text, k);
    ReadMark(s.term, rest);
    if s.term.None? { assert afterSep == rest; }
    ReadMark(s.sep, afterSep);
  }

  lemma ReadWritten(s: Spec, rest: string)
    requires Writable(s) && (rest == [] || StartsSpec(rest[0]))
    ensures ParseSpec(WriteSpec(s) + rest) == Some((s, rest))
    ensures StartsSpec((WriteSpec(s) + rest)[0])
  {
    var body := WriteBody(s, rest);
    NumeralRoundTrip(s.take, 10);
    ReadBodyText(s.star, Decimal(s.take), s, rest);
    ReadStar(s.star, body, WriteSpec(s) + rest);
  }

  function WriteBody(s: Spec, rest: string): (body: string)
    ensures body != [] && IsDigit(body[0]) && WriteSpec(s) + rest == (if s.star then "*" else "") + body
  {
    Decimal(s.take) + ([FormatChar(s.format)] + (Mark(s.sep) + (Mark(s.term) + rest)))
  }

  lemma ReadStar(star: bool, body: string, text: string)
    requires text == (if star then "*" else "") + body
    requires body != [] && IsDigit(body[0])
    ensures ParseSpec(text) == ParseBody(star, body) && StartsSpec(text[0])
  {
    if star {
      assert text[1..] == body;
    } else {
      assert text == body;
    }
  }

  /** Every list of writable specifications has a text that is read back as that list. */
  lemma {:induction false} HintRoundTrip(specs: seq<Spec>)
    requires forall i :: 0 <= i < |specs| ==> Writable(specs[i])
    ensures ParseHint(WriteHint(specs)) == Hint(specs, true)
    ensures WriteHint(specs) == [] || StartsSpec(WriteHint(specs)[0])
  {
    if specs != [] {
      HintRoundTrip(specs[1..]);
      ReadWritten(specs[0], WriteHint(specs[1..]));
      assert specs == [specs[0]] + specs[1..];
    }
  }

  /** A hint of digits and a format character is read with the wrapped value of its digits. */
  lemma ReadDigitsHint(digits: string, f: Format)
    requires digits != [] && AllDigits(digits)
    ensures var take := GoInt.Wrap(NumeralValue(digits, 10));
            ParseHint(digits + [FormatChar(f)])
            == if take < 0 then Hint([], false) else Hint([Spec(false, take, f, None, None)], true)
  {
    var text, take := digits + [FormatChar(f)], GoInt.Wrap(NumeralValue(digits, 10));
    ReadBodyText(false, digits, Spec(false, 0, f, None, None), []);
    assert text == digits + ([FormatChar(f)] + (Mark(None) + (Mark(None) + [])));
    ReadStar(false, text, text);
    if take >= 0 {
      assert ParseHint([]) == Hint([], true);
      assert ParseHint(text).specs == [Spec(false, take, f, None, None)] + [];
    }
  }

  /** What is no specification: a missing octet length, and digits without one of the five format letters after them. */
  lemma RefusedHints(digits: string, c: char, more: string)
    requires AllDigits(digits) && !IsDigit(c) && c !in {'d', 'x', 'o', 'a', 't'}
    ensures digits != [] ==> ParseHint(digits) == Hint([], false)
    ensures (digits != [] || c != '*') ==> ParseHint(digits + [c] + more) == Hint([], false)
    ensures ParseHint("d") == ParseHint("x") == ParseHint("o") == ParseHint("a") == ParseHint("t") == Hint([], false)
  {
    if digits != [] {
      DigitRunIs(digits, |digits|);
      assert ParseSpec(digits) == None;
    }
    var text := digits + [c] + more;
    DigitRunIs(text, |digits|);
    assert text[|digits|] == c;
  }

  lemma ReadNumeralHint(k: nat, f: Format)
    ensures var take := GoInt.Wrap(k);
            ParseHint(Decimal(k) + [FormatChar(f)])
            == if take < 0 then Hint([], false) else Hint([Spec(false, take, f, None, None)], true)
  {
    NumeralRoundTrip(k, 10);
    ReadDigitsHint(Decimal(k), f);
  }

  /** An octet length is understood exactly when it fits a Go int ... */
  lemma OctetLengthExact(k: nat, f: Format)
    ensures ParseHint(Decimal(k) + [FormatChar(f)]) == Hint([Spec(false, k, f, None, None)], true)
            <==> k <= GoInt.MAX_INT
  {
    ReadNumeralHint(k, f);
    if GoInt.Wrap(k) >= 0 {
      assert [Spec(false, GoInt.Wrap(k), f, None, None)][0].take == GoInt.Wrap(k);
    }
  }

  /** ... and a longer one may silently mean another: this hint asks for 2^64 + 1 octets and gets one. */
  lemma OctetLengthWraps()
    ensures ParseHint(Decimal(GoInt.TWO_64 + 1) + "x") == Hint([Spec(false, 1, Hexadecimal, None, None)], true)
  {
    ReadNumeralHint(GoInt.TWO_64 + 1, Hexadecimal);
    assert GoInt.Wrap(GoInt.TWO_64 + 1) == 1;
  }

  // ---------------------------------------------------------------- one repeating specification

  /** The text of a value under a single plain specification: chunk, separator, chunk, ... */
  function Uniform(spec: Spec, data: seq<byte>): Option<string>
    requires spec.take > 0
  {
    if data == [] then Some([])
    else
      var k := Min(spec.take, |data|);
      Append(Append(RenderChunk(spec.format, data[..k]), Some(if k < |data| then Mark(spec.sep) else [])),
          Uniform(spec, data[k..]))
  }

  lemma {:induction false} RenderUniform(spec: Spec, n: nat, data: seq<byte>)
    requires spec.take > 0 && !spec.star && spec.term.None?
    ensures RenderFrom(Hint([spec], true), n, data) == Uniform(spec, data)
    decreases |data|
  {
    if data != [] {
      var h := Hint([spec], true);
      var k := Min(spec.take, |data|);
      RenderStep(h, n, data);
      var (app, rest) := Apply(spec, data);
      assert Chop(spec.take, 1, data) == [data[..k]] + Chop(spec.take, 0, data[k..]);
      assert app.chunks == [data[..k]] && Concat(app.chunks) == data[..k] && rest == data[k..];
      RenderUniform(spec, n + 1, rest);
    }
  }

  /** `<k><format>` or `<k><format><sep>`. */
  function SimpleHint(k: nat, f: Format, sep: Option<char>): string {
    Decimal(k) + [FormatChar(f)] + Mark(sep)
  }

  lemma RenderSimple(k: nat, f: Format, sep: Option<char>, data: seq<byte>)
    requires 0 < k <= GoInt.MAX_INT && data != [] && (sep.Some? ==> !StartsSpec(sep.value))
    ensures Render(SimpleHint(k, f, sep), data) == Uniform(Spec(false, k, f, sep, None), data)
  {
    var spec := Spec(false, k, f, sep, None);
    HintRoundTrip([spec]);
    assert WriteHint([spec]) == SimpleHint(k, f, sep);
    RenderUniform(spec, 0, data);
  }

  function Undo(sep: Option<char>, s: string): string { if sep.Some? then Strip(sep.value, s) else s }

  lemma UndoAppend(sep: Option<char>, chunk: seq<byte>, mark: string, tail: string)
    requires sep.Some? ==> !IsHexDigit(sep.value)
    requires mark == [] || mark == Mark(sep)
    ensures Undo(sep, Hex(chunk) + mark + tail) == Hex(chunk) + Undo(sep, tail)
  {
    if sep.Some? {
      var c := sep.value;
      StripAppend(c, Hex(chunk) + mark, tail);
      StripAppend(c, Hex(chunk), mark);
      StripAbsent(c, Hex(chunk));
      assert Strip(c, mark) == [];
      assert Hex(chunk) + [] == Hex(chunk);
    } else {
      assert Hex(chunk) + mark + tail == Hex(chunk) + tail;
    }
  }

  lemma {:induction false} UniformHexUndone(spec: Spec, data: seq<byte>)
    requires spec.take > 0 && spec.format == Hexadecimal && (spec.sep.Some? ==> !IsHexDigit(spec.sep.value))
    ensures var t := Uniform(spec, data);
            t.Some? && Undo(spec.sep, t.value) == Hex(data)
    decreases |data|
  {
    if data != [] {
      var k := Min(spec.take, |data|);
      var chunk, rest := data[..k], data[k..];
      UniformHexUndone(spec, rest);
      var mark := if k < |data| then Mark(spec.sep) else [];
      var tail := Uniform(spec, rest).value;
      assert Uniform(spec, data) == Some(Hex(chunk) + mark + tail);
      UndoAppend(spec.sep, chunk, mark, tail);
      HexAppend(chunk, rest);
      assert chunk + rest == data;
    }
  }

  lemma HexCons(x: byte, b: seq<byte>)
    ensures Hex([x] + b) == [HexDigit(x / 16), HexDigit(x % 16)] + Hex(b)
  {}

  lemma {:induction false} HexAppend(a: seq<byte>, b: seq<byte>)
    ensures Hex(a + b) == Hex(a) + Hex(b)
  {
    hide Hex, HexDigit;
    if a == [] {
      HexNone();
      assert a + b == b && [] + Hex(b) == Hex(b);
    } else {
      HexAppend(a[1..], b);
      HexCons(a[0], a[1..] + b);
      HexCons(a[0], a[1..]);
      assert a + b == [a[0]] + (a[1..] + b) && a == [a[0]] + a[1..];
      var first := [HexDigit(a[0] / 16), HexDigit(a[0] % 16)];
      assert first + (Hex(a[1..]) + Hex(b)) == first + Hex(a[1..]) + Hex(b);
    }
  }

  lemma HexNone()
    ensures Hex([]) == []
  {}

  /** Hexadecimal hints lose nothing: without the separators the text decodes to the value. */
  lemma HexHintRoundTrip(k: nat, sep: Option<char>, data: seq<byte>)
    requires 0 < k <= GoInt.MAX_INT && data != []
    requires sep.Some? ==> !StartsSpec(sep.value) && !IsHexDigit(sep.value)
    ensures var t := Render(SimpleHint(k, Hexadecimal, sep), data);
            t.Some? && UnHex(Undo(sep, t.value)) == Some(data)
  {
    RenderSimple(k, Hexadecimal, sep, data);
    UniformHexUndone(Spec(false, k, Hexadecimal, sep, None), data);
    HexRoundTrip(data);
  }

  function Decimals(data: seq<byte>): seq<string> {
    seq(|data|, i requires 0 <= i < |data| => Decimal(data[i]))
  }

  lemma {:induction false} UniformDecimal(sep: char, data: seq<byte>)
    ensures Uniform(Spec(false, 1, Dec, Some(sep), None), data) == Some(JoinWith(sep, Decimals(data)))
  {
    if data != [] {
      var rest := data[1..];
      UniformDecimal(sep, rest);
      assert data[..1] == [data[0]] && data[..1][..0] == [];
      assert BigEndian(data[..1]) == data[0];
      assert Decimals(data) == [Decimal(data[0])] + Decimals(rest);
      assert Decimals(data)[1..] == Decimals(rest);
      if rest == [] {
        assert Decimal(data[0]) + [] + [] == Decimal(data[0]);
      }
    }
  }

  /** `1d<sep>`: splitting the text at the separator and reading each part gives the value back. */
  lemma DecimalHintRoundTrip(sep: char, data: seq<byte>)
    requires data != [] && !StartsSpec(sep)
    ensures var t := Render(SimpleHint(1, Dec, Some(sep)), data);
            && t.Some?
            && var parts := SplitOn(sep, t.value);
               && |parts| == |data|
               && forall i :: 0 <= i < |data| ==> AllDigits(parts[i]) && NumeralValue(parts[i], 10) == data[i]
  {
    RenderSimple(1, Dec, Some(sep), data);
    UniformDecimal(sep, data);
    SplitJoin(sep, Decimals(data));
    forall i | 0 <= i < |data| ensures NumeralValue(Decimals(data)[i], 10) == data[i] {
      NumeralRoundTrip(data[i], 10);
    }
  }

  lemma {:induction false} UniformRaw(spec: Spec, data: seq<byte>)
    requires spec.take > 0 && (spec.format == Ascii || spec.format == Utf8) && spec.sep.None?
    ensures Uniform(spec, data) == Some(Raw(data))
    decreases |data|
  {
    if data != [] {
      var k := Min(spec.take, |data|);
      UniformRaw(spec, data[k..]);
      assert Raw(data[..k]) + [] + Raw(data[k..]) == Raw(data);
    } else {
      assert Raw(data) == [];
    }
  }

  /** `<k>a` and `<k>t` show the value as it is. */
  lemma TextHintIsRaw(k: nat, f: Format, data: seq<byte>)
    requires 0 < k <= GoInt.MAX_INT && data != [] && (f == Ascii || f == Utf8)
    ensures Render(SimpleHint(k, f, None), data) == Some(Raw(data))
  {
    RenderSimple(k, f, None, data);
    UniformRaw(Spec(false, k, f, None, None), data);
  }

  // ---------------------------------------------------------------- trailing separators

  predicate EndsWith(s: string, t: string) { |t| <= |s| && s[|s| - |t|..] == t }

  predicate StarFree(specs: seq<Spec>) { forall i :: 0 <= i < |specs| ==> !specs[i].star }

  /** What a text is made of: the texts of chunks, and the separators and terminators around them. */
  datatype Piece = Shown(text: string) | Punctuation(text: string)

  function ChunkText(format: Format, chunk: seq<byte>): string {
    match RenderChunk(format, chunk)
    case None => []
    case Some(t) => t
  }

  function ChunkPieces(format: Format, sep: Option<char>, chunks: seq<seq<byte>>): seq<Piece> {
    if chunks == [] then []
    else if |chunks| == 1 then [Shown(ChunkText(format, chunks[0]))]
    else [Shown(ChunkText(format, chunks[0])), Punctuation(Mark(sep))] + ChunkPieces(format, sep, chunks[1..])
  }

  function Pieces(apps: seq<Application>): seq<Piece> {
    if apps == [] then []
    else
      ChunkPieces(apps[0].spec.format, apps[0].spec.sep, apps[0].chunks)
      + (if |apps| > 1 then [Punctuation(Trailer(apps[0]))] else [])
      + Pieces(apps[1..])
  }

  function PiecesText(ps: seq<Piece>): string { if ps == [] then [] else ps[0].text + PiecesText(ps[1..]) }

  lemma {:induction false} PiecesTextAppend(a: seq<Piece>, b: seq<Piece>)
    ensures PiecesText(a + b) == PiecesText(a) + PiecesText(b)
  {
    hide PiecesText;
    if a == [] {
      NoPieces();
      assert a + b == b && [] + PiecesText(b) == PiecesText(b);
    } else {
      PiecesTextAppend(a[1..], b);
      FirstPiece(a);
      FirstPiece(a + b);
      assert (a + b)[1..] == a[1..] + b;
      assert a[0].text + (PiecesText(a[1..]) + PiecesText(b)) == a[0].text + PiecesText(a[1..]) + PiecesText(b);
    }
  }

  lemma NoPieces()
    ensures PiecesText([]) == []
  {}

  lemma FirstPiece(ps: seq<Piece>)
    requires ps != []
    ensures PiecesText(ps) == ps[0].text + PiecesText(ps[1..])
  {}

  lemma {:induction false} PiecesTextEmpty(ps: seq<Piece>, k: nat)
    requires k <= |ps|
    ensures PiecesText(ps[k..]) == [] <==> forall i :: k <= i < |ps| ==> ps[i].text == []
    decreases |ps| - k
  {
    if k < |ps| {
      assert ps[k..][0] == ps[k] && ps[k..][1..] == ps[k + 1..];
      PiecesTextEmpty(ps, k + 1);
    }
  }

  lemma {:induction false} JoinPieces(format: Format, sep: Option<char>, chunks: seq<seq<byte>>)
    requires Join(format, sep, chunks).Some?
    ensures Join(format, sep, chunks).value == PiecesText(ChunkPieces(format, sep, chunks))
  {
    hide RenderChunk;
    if |chunks| == 1 {
      assert ChunkText(format, chunks[0]) + [] == ChunkText(format, chunks[0]);
    } else if chunks != [] {
      JoinPieces(format, sep, chunks[1..]);
      var first := [Shown(ChunkText(format, chunks[0])), Punctuation(Mark(sep))];
      PiecesTextAppend(first, ChunkPieces(format, sep, chunks[1..]));
      assert first[1..][1..] == [] && Mark(sep) + [] == Mark(sep);
    }
  }

  lemma {:induction false} RenderPieces(apps: seq<Application>)
    requires RenderAll(apps).Some?
    ensures RenderAll(apps).value == PiecesText(Pieces(apps))
  {
    hide Join, ChunkPieces, Trailer;
    if apps != [] {
      RenderPieces(apps[1..]);
      JoinPieces(apps[0].spec.format, apps[0].spec.sep, apps[0].chunks);
      var own := ChunkPieces(apps[0].spec.format, apps[0].spec.sep, apps[0].chunks);
      var mark := if |apps| > 1 then [Punctuation(Trailer(apps[0]))] else [];
      PiecesTextAppend(own, mark);
      PiecesTextAppend(own + mark, Pieces(apps[1..]));
      assert PiecesText(mark) == if |apps| > 1 then Trailer(apps[0]) else [] by {
        if |apps| > 1 { assert Trailer(apps[0]) + [] == Trailer(apps[0]); }
      }
    }
  }

  /** The v-th piece shows some of the value and no later one does; -1 when none does. */
  predicate IsLastShown(ps: seq<Piece>, v: int) {
    && -1 <= v < |ps|
    && (v >= 0 ==> ps[v].Shown? && ps[v].text != [])
    && forall i :: v < i < |ps| && ps[i].Shown? ==> ps[i].text == []
  }

  function LastShown(ps: seq<Piece>): (v: int)
    ensures -1 <= v < |ps|
  {
    if ps == [] then -1
    else if ps[|ps| - 1].Shown? && ps[|ps| - 1].text != [] then |ps| - 1
    else LastShown(ps[..|ps| - 1])
  }

  lemma {:induction false} LastShownIs(ps: seq<Piece>)
    ensures IsLastShown(ps, LastShown(ps))
  {
    if ps != [] { LastShownIs(ps[..|ps| - 1]); }
  }

  /** All separators and terminators after the v-th piece are empty. */
  predicate NoPunctuationAfter(ps: seq<Piece>, v: int)
    requires -1 <= v
  {
    forall i :: v < i < |ps| && ps[i].Punctuation? ==> ps[i].text == []
  }

  /** The last piece shows some of the value, so nothing can follow it. */
  predicate EndsShowing(ps: seq<Piece>) { 0 <= LastShown(ps) == |ps| - 1 }

  /** With v the last piece that shows anything, the text is the pieces up to that one, which it would end with, and
      then the rest; it does end with it exactly when all punctuation after it is empty. */
  ghost predicate TextEndsAt(text: string, ps: seq<Piece>, v: int) {
    && IsLastShown(ps, v)
    && var shown, after := PiecesText(ps[..v + 1]), PiecesText(ps[v + 1..]);
       && text == shown + after
       && (v >= 0 ==> EndsWith(shown, ps[v].text))
       && (after == [] <==> NoPunctuationAfter(ps, v))
  }

  ghost predicate TextEnds(text: string, ps: seq<Piece>) { TextEndsAt(text, ps, LastShown(ps)) }

  lemma ShownThenPunctuation(ps: seq<Piece>)
    ensures TextEnds(PiecesText(ps), ps)
  {
    hide TextEndsAt, PiecesText, LastShown, IsLastShown;
    LastShownIs(ps);
    EndsAtLastShown(ps, LastShown(ps));
  }

  lemma EndsAtLastShown(ps: seq<Piece>, v: int)
    requires -1 <= v < |ps| && IsLastShown(ps, v)
    ensures TextEndsAt(PiecesText(ps), ps, v)
  {
    hide PiecesText, EndsWith, NoPunctuationAfter, IsLastShown;
    CutPieces(ps, v + 1);
    if v >= 0 { EndsInPiece(ps, v); }
    AfterLastShown(ps, v);
  }

  lemma CutPieces(ps: seq<Piece>, k: nat)
    requires k <= |ps|
    ensures PiecesText(ps) == PiecesText(ps[..k]) + PiecesText(ps[k..])
  {
    hide PiecesText;
    PiecesTextAppend(ps[..k], ps[k..]);
    assert ps == ps[..k] + ps[k..];
  }

  lemma EndsInPiece(ps: seq<Piece>, v: nat)
    requires v < |ps|
    ensures EndsWith(PiecesText(ps[..v + 1]), ps[v].text)
  {
    hide PiecesText;
    assert ps[..v + 1] == ps[..v] + [ps[v]];
    PiecesTextAppend(ps[..v], [ps[v]]);
    OnePieceText(ps[v]);
  }

  lemma AfterLastShown(ps: seq<Piece>, v: int)
    requires -1 <= v < |ps| && IsLastShown(ps, v)
    ensures PiecesText(ps[v + 1..]) == [] <==> NoPunctuationAfter(ps, v)
  {
    hide PiecesText;
    PiecesTextEmpty(ps, v + 1);
  }

  lemma OnePieceText(p: Piece)
    ensures PiecesText([p]) == p.text
  {
    assert [p][1..] == [] && p.text + [] == p.text;
  }

  lemma {:induction false} LastChunkPiece(format: Format, sep: Option<char>, chunks: seq<seq<byte>>)
    requires chunks != []
    ensures var ps := ChunkPieces(format, sep, chunks);
            ps != [] && ps[|ps| - 1] == Shown(ChunkText(format, chunks[|chunks| - 1]))
  {
    if |chunks| > 1 { LastChunkPiece(format, sep, chunks[1..]); }
  }

  lemma NoChunkPieces(format: Format, sep: Option<char>)
    ensures ChunkPieces(format, sep, []) == []
  {}

  /** The last piece is the text of the last application's last chunk, or punctuation if that application has no
      chunk. */
  lemma {:induction false} LastPiece(apps: seq<Application>)
    requires apps != []
    ensures var ps, last := Pieces(apps), apps[|apps| - 1];
            && (last.chunks != [] ==>
                  ps != [] && ps[|ps| - 1] == Shown(ChunkText(last.spec.format, last.chunks[|last.chunks| - 1])))
            && (last.chunks == [] && ps != [] ==> ps[|ps| - 1].Punctuation?)
  {
    hide ChunkPieces, ChunkText, Trailer;
    if |apps| > 1 {
      LastPiece(apps[1..]);
      assert apps[1..][|apps| - 2] == apps[|apps| - 1];
    } else {
      var own := ChunkPieces(apps[0].spec.format, apps[0].spec.sep, apps[0].chunks);
      assert Pieces(apps[1..]) == [] && Pieces(apps) == own + [] + [] == own;
      if apps[0].chunks != [] {
        LastChunkPiece(apps[0].spec.format, apps[0].spec.sep, apps[0].chunks);
      } else {
        NoChunkPieces(apps[0].spec.format, apps[0].spec.sep);
      }
    }
  }

  /** The i-th application is that of the i-th specification to the octets left then. */
  lemma {:induction false} SplitFrom(h: Hint, data: seq<byte>, i: nat)
    requires Split(h, 0, data).Some? && i <= |Applications(h, data)|
    ensures Split(h, i, Left(h, data, i)) == Some(Applications(h, data)[i..])
  {
    hide Split, Apply, Takes, SpecAt, Left;
    var apps := Applications(h, data);
    if i == 0 {
      LeftStep(h, data, 0);
      assert apps[0..] == apps;
    } else {
      SplitFrom(h, data, i - 1);
      LeftStep(h, data, i - 1);
      SplitEnd(h, i - 1);
      var d := Left(h, data, i - 1);
      assert apps[i - 1..][1..] == apps[i..];
      SplitStep(h, i - 1, d);
      ApplyTakes(SpecAt(h, i - 1).value, d);
    }
  }

  lemma {:induction false} ChunksNotEmpty(take: nat, times: nat, data: seq<byte>)
    requires take > 0
    ensures forall i :: 0 <= i < |Chop(take, times, data)| ==> Chop(take, times, data)[i] != []
    decreases times
  {
    if times > 0 && data != [] { ChunksNotEmpty(take, times - 1, data[Min(take, |data|)..]); }
  }

  /** An application that uses up the value ends in a chunk with octets, unless a repeat count was all there was. */
  lemma EndsInChunk(spec: Spec, data: seq<byte>)
    requires data != [] && Apply(spec, data).1 == []
    ensures var chunks := Apply(spec, data).0.chunks;
            if spec.star && |data| == 1 then chunks == [] else chunks != [] && chunks[|chunks| - 1] != []
  {
    hide Chop;
    var times, body := if spec.star then data[0] else 1, if spec.star then data[1..] else data;
    ChopLength(spec.take, times, body);
    if body != [] {
      assert spec.take > 0;
      ChunksNotEmpty(spec.take, times, body);
      NoneFromNothing(spec.take, times, body);
    } else {
      NoneFromNothing(spec.take, times, body);
    }
  }

  lemma NoneFromNothing(take: nat, times: nat, data: seq<byte>)
    ensures data == [] ==> Chop(take, times, data) == []
    ensures Concat(Chop(take, times, data)) != [] ==> Chop(take, times, data) != []
  {}

  lemma SplitNothing(h: Hint, n: nat, data: seq<byte>)
    ensures Split(h, n, data) == Some([]) ==> data == []
  {}

  lemma ChunkShows(format: Format, chunk: seq<byte>)
    requires chunk != [] && RenderChunk(format, chunk).Some?
    ensures ChunkText(format, chunk) != []
  {}

  /** A repeat count is read as the last octet of the value. */
  predicate EndsInCount(h: Hint, data: seq<byte>) {
    var apps := Applications(h, data);
    apps != [] && apps[|apps| - 1].spec.star && |Left(h, data, |apps| - 1)| == 1
  }

  /** The last application reads a repeat count as the last octet of the value, or ends in a chunk with octets. */
  lemma LastApplication(h: Hint, data: seq<byte>)
    requires data != [] && Split(h, 0, data).Some?
    ensures var apps := Applications(h, data);
            && apps != []
            && var last := apps[|apps| - 1];
               if EndsInCount(h, data) then last.spec.star && last.chunks == []
               else last.chunks != [] && last.chunks[|last.chunks| - 1] != []
  {
    hide Apply, Left, SpecAt, Takes;
    var apps := Applications(h, data);
    assert apps != [];
    hide Split;
    var n := |apps| - 1;
    SplitFrom(h, data, n);
    var d := Left(h, data, n);
    SplitStep(h, n, d);
    var (app, rest) := Apply(SpecAt(h, n).value, d);
    assert apps[n..] == [apps[n]];
    assert app == apps[n] && Split(h, n + 1, rest).value == [];
    SplitNothing(h, n + 1, rest);
    EndsInChunk(SpecAt(h, n).value, d);
  }

  lemma LastIsShown(ps: seq<Piece>)
    ensures EndsShowing(ps) <==> ps != [] && ps[|ps| - 1].Shown? && ps[|ps| - 1].text != []
  {
    hide LastShown;
    LastShownIs(ps);
  }

  lemma LastApplicationShows(apps: seq<Application>)
    requires apps != [] && RenderAll(apps).Some?
    requires var chunks := apps[|apps| - 1].chunks; chunks != [] ==> chunks[|chunks| - 1] != []
    ensures EndsShowing(Pieces(apps)) <==> apps[|apps| - 1].chunks != []
  {
    hide EndsShowing, Pieces, RenderChunk, ChunkText, RenderAll;
    var last := apps[|apps| - 1];
    LastIsShown(Pieces(apps));
    LastPiece(apps);
    if last.chunks != [] {
      AllRendered(apps, |apps| - 1);
      ChunkShows(last.spec.format, last.chunks[|last.chunks| - 1]);
    }
  }

  lemma {:induction false} AllRendered(apps: seq<Application>, i: nat)
    requires RenderAll(apps).Some? && i < |apps| && apps[i].chunks != []
    ensures RenderChunk(apps[i].spec.format, apps[i].chunks[|apps[i].chunks| - 1]).Some?
  {
    RenderAllFails(apps);
    var j := |apps[i].chunks| - 1;
    assert !HasTooWide(apps[i]);
    assert !TooWide(apps[i], j);
  }

  /** What a successful text ends with: the last piece that shows any of the value and the punctuation after it, so
      that piece exactly when all that punctuation is empty. It is the last piece anyway exactly unless a repeat count
      is read as the last octet of the value, and always for hints without `*`. */
  lemma TrailingText(hint: string, data: seq<byte>)
    requires Render(hint, data).Some?
    ensures var h := ParseHint(hint);
            var ps := Pieces(Applications(h, data));
            && TextEnds(Render(hint, data).value, ps)
            && (EndsShowing(ps) <==> !EndsInCount(h, data))
            && (StarFree(h.specs) ==> EndsShowing(ps))
  {
    hide Split, Pieces, PiecesText, RenderAll, ParseHint, TextEnds, EndsShowing;
    var h := ParseHint(hint);
    var apps := Applications(h, data);
    RenderConserves(hint, data);
    LastApplication(h, data);
    SplitUsesSpecsInOrder(h, 0, data, apps, |apps| - 1);
    RenderPieces(apps);
    ShownThenPunctuation(Pieces(apps));
    LastApplicationShows(apps);
  }

  /** Separators do trail: zero repeat counts use up the value silently ... */
  lemma TrailingSeparatorRemains(k: nat)
    requires k > 0
    ensures Render("1d.*1d", [5] + Zeros(k)) == Some("5.")
  {
    hide ParseHint, RenderFrom;
    var dot, star := Spec(false, 1, Dec, Some('.'), None), Spec(true, 1, Dec, None, None);
    HintRoundTrip([dot, star]);
    assert WriteSpec(dot) == "1d." && WriteSpec(star) == "*1d" by { assert Decimal(1) == "1"; }
    assert WriteHint([star]) == "*1d" by { assert [star][1..] == []; }
    assert WriteHint([dot, star]) == "1d.*1d" by { assert [dot, star][1..] == [star]; }
    ZeroCountKeepsDot(Hint([dot, star], true), dot, star, k);
  }

  function Zeros(k: nat): (r: seq<byte>)
    ensures |r| == k
  {
    if k == 0 then [] else [0] + Zeros(k - 1)
  }

  lemma ZeroCountKeepsDot(h: Hint, dot: Spec, star: Spec, k: nat)
    requires h == Hint([dot, star], true) && k > 0
    requires dot == Spec(false, 1, Dec, Some('.'), None) && star == Spec(true, 1, Dec, None, None)
    ensures RenderFrom(h, 0, [5] + Zeros(k)) == Some("5.")
  {
    hide RenderFrom, RenderApp, Apply;
    ZeroCountsAreSilent(h, star, 1, k);
    RenderStep(h, 0, [5] + Zeros(k));
    FiveAndDot(dot, Zeros(k));
    AppendEmpty(Some("5."));
  }

  lemma FiveAndDot(dot: Spec, more: seq<byte>)
    requires dot == Spec(false, 1, Dec, Some('.'), None)
    ensures var (app, rest) := Apply(dot, [5] + more);
            rest == more && RenderApp(app, true) == Some("5.")
  {
    var five: seq<byte>, all: seq<byte> := [5], [5] + more;
    assert Chop(1, 1, all) == [five] by {
      assert all[..1] == five && Chop(1, 0, all[1..]) == [];
    }
    assert Concat([five]) == five && all[1..] == more;
    assert BigEndian(five) == 5 by { assert five[..0] == []; }
    assert RenderChunk(Dec, five) == Some("5") by { assert Decimal(5) == "5"; }
    assert "5" + "." == "5.";
  }

  lemma {:induction false} ZeroCountsAreSilent(h: Hint, star: Spec, n: nat, k: nat)
    requires n >= 1 && h.complete && |h.specs| == 2 && h.specs[1] == star && star.star && star.term.None?
    ensures RenderFrom(h, n, Zeros(k)) == Some([])
    decreases k
  {
    hide RenderFrom, RenderApp, Apply;
    if k == 0 {
      RenderNothing(h, n);
    } else {
      ZeroCountsAreSilent(h, star, n + 1, k - 1);
      RenderStep(h, n, Zeros(k));
      OneZeroIsSilent(star, Zeros(k - 1));
      AppendEmpty(Some([]));
    }
  }

  lemma OneZeroIsSilent(star: Spec, rest: seq<byte>)
    requires star.star && star.term.None?
    ensures var (app, left) := Apply(star, [0] + rest);
            left == rest && RenderApp(app, rest != []) == Some([])
  {
    var all: seq<byte> := [0] + rest;
    assert all[1..] == rest;
    assert Chop(star.take, 0, rest) == [];
    var app := Application(star, Some(0), []);
    assert Apply(star, all) == (app, rest) by { assert rest[0..] == rest; }
    hide Apply, Chop;
    AppendEmpty(Some([]));
    assert Join(star.format, star.sep, []) == Some([]) && Trailer(app) == [];
  }

  /** ... and so does a repeat count of chunks without width. */
  lemma TrailingAfterEmptyChunk()
    ensures Render("1d.*0a", [5, 1, 1]) == Some("5.")
  {
    hide ParseHint, RenderFrom;
    var dot, star := Spec(false, 1, Dec, Some('.'), None), Spec(true, 0, Ascii, None, None);
    HintRoundTrip([dot, star]);
    assert WriteSpec(dot) == "1d." by { assert Decimal(1) == "1"; }
    assert WriteSpec(star) == "*0a" by { assert Decimal(0) == "0"; }
    assert WriteHint([star]) == "*0a" by { assert [star][1..] == []; }
    assert WriteHint([dot, star]) == "1d.*0a" by { assert [dot, star][1..] == [star]; }
    EmptyChunkKeepsDot(Hint([dot, star], true), dot, star);
  }

  lemma EmptyChunkKeepsDot(h: Hint, dot: Spec, star: Spec)
    requires h == Hint([dot, star], true)
    requires dot == Spec(false, 1, Dec, Some('.'), None) && star == Spec(true, 0, Ascii, None, None)
    ensures RenderFrom(h, 0, [5, 1, 1]) == Some("5.")
  {
    hide RenderFrom, RenderApp, Apply;
    RenderStep(h, 0, [5] + [1, 1]);
    FiveAndDot(dot, [1, 1]);
    RenderStep(h, 1, [1] + [1]);
    EmptyChunkIsSilent(star, [1]);
    RenderStep(h, 2, [1] + []);
    EmptyChunkIsSilent(star, []);
    SplitEnd(h, 3);
    assert RenderFrom(h, 3, []) == Some([]) by { RenderNothing(h, 3); }
    AppendEmpty(Some([]));
    AppendEmpty(Some("5."));
    assert [5] + [1, 1] == [5, 1, 1] && [1] + [1] == [1, 1] && [1] + [] == [1];
  }

  lemma RenderNothing(h: Hint, n: nat)
    ensures RenderFrom(h, n, []) == Some([])
  {}

  lemma EmptyChunkIsSilent(star: Spec, rest: seq<byte>)
    requires star == Spec(true, 0, Ascii, None, None)
    ensures var (app, left) := Apply(star, [1] + rest);
            left == rest && RenderApp(app, rest != []) == Some([])
  {
    var all: seq<byte> := [1] + rest;
    assert all[1..] == rest;
    var chunks: seq<seq<byte>> := if rest == [] then [] else [[]];
    assert Chop(0, 1, rest) == chunks by {
      if rest != [] { assert rest[..0] == [] && Chop(0, 0, rest[0..]) == []; }
    }
    assert Concat(chunks) == [];
    var app := Application(star, Some(1), chunks);
    assert Apply(star, all) == (app, rest) by { assert rest[0..] == rest; }
    hide Apply, Chop;
    assert Raw([]) == [];
    AppendEmpty(Some([]));
    assert Join(star.format, star.sep, chunks) == Some([]) && Trailer(app) == [];
  }
}
