/** The one-pass interpreter: two cursors, `hintPos` into the hint and `dataPos` into the
    value, move together while the hint is still being parsed.  Each method below is one
    phase of that loop and is proved against the two-stage meaning in `DisplayHint`. */
module DisplayHintInterpreter {
  import opened Text
  import opened DisplayHint
  import GoInt

  method WriteHex(w: string, src: seq<byte>) returns (r: string)
    ensures r == w + Hex(src)
  {
    r := w;
    for i := 0 to |src|
      invariant r + Hex(src[i..]) == w + Hex(src)
    {
      assert src[i..][1..] == src[i + 1..];
      r := r + [HexDigit(src[i] / 16)];
      r := r + [HexDigit(src[i] % 16)];
    }
  }

  /** `val = (val << 8) | b` on a uint64: shifted-out bits are lost, so eight octets are the limit. */
  method ReadBigEndian(chunk: seq<byte>) returns (val: nat)
    requires |chunk| <= 8
    ensures val == BigEndian(chunk)
  {
    val := 0;
    for i := 0 to |chunk|
      invariant val == BigEndian(chunk[..i]) < Power256(i)
    {
      assert chunk[..i + 1][..i] == chunk[..i];
      assert Power256(i + 1) <= GoInt.TWO_64;
      val := (val * 256) % GoInt.TWO_64 + chunk[i];
    }
    assert chunk[..|chunk|] == chunk;
  }

  function Power256(k: nat): nat
    requires k <= 8
  {
    [0x1, 0x100, 0x1_0000, 0x100_0000, 0x1_0000_0000, 0x100_0000_0000, 0x1_0000_0000_0000,
     0x100_0000_0000_0000, 0x1_0000_0000_0000_0000][k]
  }

  method WriteChunk(w: string, format: Format, chunk: seq<byte>) returns (ok: bool, r: string)
    ensures ok == RenderChunk(format, chunk).Some?
    ensures ok ==> r == w + RenderChunk(format, chunk).value
  {
    r := w;
    match format {
      case Dec =>
        if |chunk| > 8 { return false, r; }
        var val := ReadBigEndian(chunk);
        r := r + Numeral(val, 10);
      case Hexadecimal =>
        r := WriteHex(r, chunk);
      case Octal =>
        if |chunk| > 8 { return false, r; }
        var val := ReadBigEndian(chunk);
        r := r + Numeral(val, 8);
      case Ascii | Utf8 =>
        r := r + Raw(chunk);
    }
    ok := true;
  }

  lemma {:induction false} DigitRunIs(s: string, k: nat)
    requires k <= |s| && AllDigits(s[..k]) && (k < |s| ==> !IsDigit(s[k]))
    ensures DigitRun(s) == k
  {}

  /** The digits of the octet length, read into an `int` that wraps. */
  method ReadOctetLength(hint: string, hintPos: nat) returns (take: int, pos: nat)
    requires hintPos <= |hint|
    ensures pos == hintPos + DigitRun(hint[hintPos..]) <= |hint|
    ensures AllDigits(hint[hintPos..pos]) && take == GoInt.Wrap(NumeralValue(hint[hintPos..pos], 10))
  {
    take, pos := 0, hintPos;
    while pos < |hint| && IsDigit(hint[pos])
      invariant hintPos <= pos <= |hint|
      invariant AllDigits(hint[hintPos..pos])
      invariant take == GoInt.Wrap(NumeralValue(hint[hintPos..pos], 10))
    {
      var digit := DigitValue(hint[pos]);
      GoInt.WrapStep(NumeralValue(hint[hintPos..pos], 10), digit);
      assert hint[hintPos..pos + 1] == hint[hintPos..pos] + [hint[pos]];
      take := GoInt.Wrap(take * 10 + digit);
      pos := pos + 1;
    }
    assert hint[hintPos..][..pos - hintPos] == hint[hintPos..pos];
    DigitRunIs(hint[hintPos..], pos - hintPos);
  }

  method ReadLiteral(hint: string, hintPos: nat) returns (c: Option<char>, pos: nat)
    requires hintPos <= |hint|
    ensures hintPos <= pos <= |hint| && Literal(hint[hintPos..]) == (c, hint[pos..])
  {
    c, pos := None, hintPos;
    if pos < |hint| && !IsDigit(hint[pos]) && hint[pos] != '*' {
      c := Some(hint[pos]);
      pos := pos + 1;
      assert hint[hintPos..][1..] == hint[pos..];
    }
  }

  /** Reads the rest of a specification, after its optional `*`. */
  method ReadBody(star: bool, hint: string, hintPos: nat) returns (r: Option<Spec>, pos: nat)
    requires hintPos <= |hint|
    ensures pos <= |hint|
    ensures ParseBody(star, hint[hintPos..]) == if r.Some? then Some((r.value, hint[pos..])) else None
  {
    pos := hintPos;
    if pos >= |hint| || !IsDigit(hint[pos]) {
      return None, pos;
    }
    ghost var body := hint[hintPos..];
    var take;
    take, pos := ReadOctetLength(hint, pos);
    ghost var k := DigitRun(body);
    assert body[..k] == hint[hintPos..pos] && k > 0;
    if take < 0 || pos >= |hint| {
      return None, pos;
    }
    var format := FormatOf(hint[pos]);
    assert body[k] == hint[pos] && body[k + 1..] == hint[pos + 1..];
    if format == None {
      return None, pos;
    }
    var sep, term: Option<char>;
    sep, pos := ReadLiteral(hint, pos + 1);
    term := None;
    if star {
      term, pos := ReadLiteral(hint, pos);
    }
    r := Some(Spec(star, take, format.value, sep, term));
  }

  /** Reads one specification at `hintPos`. */
  method ReadSpec(hint: string, hintPos: nat) returns (r: Option<Spec>, pos: nat)
    requires hintPos <= |hint|
    ensures pos <= |hint|
    ensures ParseSpec(hint[hintPos..]) == if r.Some? then Some((r.value, hint[pos..])) else None
  {
    pos := hintPos;
    var star := false;
    if pos < |hint| && hint[pos] == '*' {
      star := true;
      pos := pos + 1;
      assert hint[hintPos..][1..] == hint[pos..];
    }
    r, pos := ReadBody(star, hint, pos);
  }

  /** What the repeat loop still has to write: chunk, separator, chunk, ..., terminator. */
  function Remaining(spec: Spec, times: nat, data: seq<byte>): Option<string>
    decreases times
  {
    if times == 0 || data == [] then Some(if data != [] then Mark(spec.term) else [])
    else
      var k := Min(spec.take, |data|);
      var mark := if data[k..] != [] && (spec.term.None? || times > 1) then Mark(spec.sep) else [];
      Append(Append(RenderChunk(spec.format, data[..k]), Some(mark)), Remaining(spec, times - 1, data[k..]))
  }

  lemma AppendAssoc(a: Option<string>, b: Option<string>, c: Option<string>)
    ensures Append(Append(a, b), c) == Append(a, Append(b, c))
  {
    if a.Some? && b.Some? && c.Some? {
      assert (a.value + b.value) + c.value == a.value + (b.value + c.value);
    }
  }

  lemma RemainingEnds(a: Application, chunk: seq<byte>, rest: seq<byte>, times: nat)
    requires a.chunks == [chunk] && (times == 0 || rest == [])
    ensures var mark := if rest != [] && (a.spec.term.None? || times > 0) then Mark(a.spec.sep) else [];
            Append(Append(RenderChunk(a.spec.format, chunk), Some(mark)), Remaining(a.spec, times, rest))
            == RenderApp(a, rest != [])
  {
    var mark := if rest != [] && (a.spec.term.None? || times > 0) then Mark(a.spec.sep) else [];
    var last := if rest != [] then Mark(a.spec.term) else [];
    AppendAssoc(RenderChunk(a.spec.format, chunk), Some(mark), Some(last));
    assert mark + last == if rest != [] then Trailer(a) else [];
  }

  lemma AppendEmpty(a: Option<string>)
    ensures Append(Some([]), a) == a == Append(a, Some([]))
  {
    if a.Some? {
      assert [] + a.value == a.value == a.value + [];
    }
  }

  lemma ChopCons(take: nat, times: nat, data: seq<byte>)
    requires times > 0 && data != []
    ensures var k := Min(take, |data|);
            var chunks, tail := Chop(take, times, data), Chop(take, times - 1, data[k..]);
            && chunks == [data[..k]] + tail && |Concat(chunks)| == k + |Concat(tail)|
            && (tail == [] ==> times == 1 || data[k..] == [])
  {}

  /** One more chunk in front of an application that is not empty. */
  lemma RenderAppCons(a: Application, tail: Application, chunk: seq<byte>, more: bool)
    requires a.spec == tail.spec && a.chunks == [chunk] + tail.chunks && tail.chunks != []
    ensures RenderApp(a, more)
            == Append(Append(RenderChunk(a.spec.format, chunk), Some(Mark(a.spec.sep))), RenderApp(tail, more))
  {
    hide RenderChunk;
    assert a.chunks[1..] == tail.chunks;
    AppendAssoc(Append(RenderChunk(a.spec.format, chunk), Some(Mark(a.spec.sep))),
                Join(a.spec.format, a.spec.sep, tail.chunks), Some(if more then Trailer(a) else []));
  }

  lemma RemainingCons(spec: Spec, times: nat, data: seq<byte>)
    requires times > 0 && data != []
    ensures var k := Min(spec.take, |data|);
            var mark := if data[k..] != [] && (spec.term.None? || times > 1) then Mark(spec.sep) else [];
            Remaining(spec, times, data) == Append(Append(RenderChunk(spec.format, data[..k]), Some(mark)),
                Remaining(spec, times - 1, data[k..]))
  {}

  lemma NothingRemains(a: Application, times: nat, data: seq<byte>)
    requires a.chunks == [] && (times == 0 || data == [])
    ensures Remaining(a.spec, times, data) == RenderApp(a, data != [])
  {
    var end := if data != [] then Mark(a.spec.term) else [];
    assert [] + end == end;
  }

  lemma {:induction false} RemainingIsApplication(a: Application, times: nat, data: seq<byte>)
    requires a.chunks == Chop(a.spec.take, times, data)
    ensures Remaining(a.spec, times, data) == RenderApp(a, |Concat(a.chunks)| < |data|)
    decreases times
  {
    hide Remaining, RenderApp;
    if times == 0 || data == [] {
      NothingRemains(a, times, data);
    } else {
      var k := Min(a.spec.take, |data|);
      var chunk, rest := data[..k], data[k..];
      var tail := Application(a.spec, None, Chop(a.spec.take, times - 1, rest));
      ChopCons(a.spec.take, times, data);
      RemainingCons(a.spec, times, data);
      hide Chop;
      if tail.chunks == [] {
        RemainingEnds(a, chunk, rest, times - 1);
      } else {
        RemainingIsApplication(tail, times - 1, rest);
        RenderAppCons(a, tail, chunk, |Concat(a.chunks)| < |data|);
        ChopNonEmpty(a.spec.take, times - 1, rest);
      }
    }
  }

  lemma ChopNonEmpty(take: nat, times: nat, data: seq<byte>)
    requires Chop(take, times, data) != []
    ensures times > 0 && data != []
  {}

  /** One round of the repeat loop: format a chunk and write the separator unless it is suppressed. */
  method ApplyOnce(spec: Spec, times: nat, data: seq<byte>, dataPos: nat, w: string)
    returns (ok: bool, pos: nat, r: string)
    requires dataPos < |data| <= GoInt.MAX_INT && spec.take <= GoInt.MAX_INT && times > 0
    ensures ok ==> dataPos <= pos <= |data| && pos - dataPos == Min(spec.take, |data| - dataPos)
    ensures !ok ==> Remaining(spec, times, data[dataPos..]) == None
    ensures ok ==>
              Append(Some(r), Remaining(spec, times - 1, data[pos..]))
              == Append(Some(w), Remaining(spec, times, data[dataPos..]))
  {
    r := w;
    var end := GoInt.Wrap(dataPos + spec.take);
    if end > |data| || end < dataPos { // catch overflow
      end := |data|;
    }
    var chunk := data[dataPos..end];
    ghost var left := data[dataPos..];
    assert chunk == left[..end - dataPos] && left[end - dataPos..] == data[end..];
    ok, r := WriteChunk(r, spec.format, chunk);
    pos := end;
    if !ok { return; }
    ghost var mark := [];
    if spec.sep.Some? && pos < |data| && (spec.term.None? || times != 1) {
      r := r + [spec.sep.value];
      mark := [spec.sep.value];
    }
    ghost var text := RenderChunk(spec.format, chunk);
    assert Remaining(spec, times, left) == Append(Append(text, Some(mark)), Remaining(spec, times - 1, data[pos..]));
    AppendAssoc(Some(w), Append(text, Some(mark)), Remaining(spec, times - 1, data[pos..]));
    assert r == w + (text.value + mark);
  }

  /** The repeat loop with the terminator after it. */
  method ApplyRepeatedly(spec: Spec, repeatCount: nat, data: seq<byte>, dataPos: nat, w: string)
    returns (ok: bool, pos: nat, r: string)
    requires dataPos <= |data| <= GoInt.MAX_INT && spec.take <= GoInt.MAX_INT
    ensures ok <==> Remaining(spec, repeatCount, data[dataPos..]).Some?
    ensures ok ==> r == w + Remaining(spec, repeatCount, data[dataPos..]).value
    ensures ok ==> pos == dataPos + Reach(spec.take, repeatCount, data[dataPos..]) <= |data|
  {
    hide Remaining, Reach;
    pos, r := dataPos, w;
    ghost var total := Append(Some(w), Remaining(spec, repeatCount, data[dataPos..]));
    ghost var end := dataPos + Reach(spec.take, repeatCount, data[dataPos..]);
    var i := 0;
    while i < repeatCount && pos < |data|
      invariant 0 <= i <= repeatCount && dataPos <= pos <= |data|
      invariant Append(Some(r), Remaining(spec, repeatCount - i, data[pos..])) == total
      invariant pos + Reach(spec.take, repeatCount - i, data[pos..]) == end
    {
      ReachStep(spec.take, repeatCount - i, data, pos);
      ok, pos, r := ApplyOnce(spec, repeatCount - i, data, pos, r);
      if !ok { return; }
      i := i + 1;
    }
    RemainingDone(spec, repeatCount - i, data[pos..]);
    if spec.term.Some? && pos < |data| {
      r := r + [spec.term.value];
    }
    ok := true;
  }

  lemma RemainingDone(spec: Spec, times: nat, data: seq<byte>)
    requires times == 0 || data == []
    ensures Remaining(spec, times, data) == Some(if data != [] then Mark(spec.term) else [])
    ensures Reach(spec.take, times, data) == 0
  {}

  /** How many octets the chunks take up. */
  function Reach(take: nat, times: nat, data: seq<byte>): nat { |Concat(Chop(take, times, data))| }

  lemma ReachStep(take: nat, times: nat, data: seq<byte>, pos: nat)
    requires times > 0 && pos < |data|
    ensures var k := Min(take, |data| - pos);
            Reach(take, times, data[pos..]) == k + Reach(take, times - 1, data[pos + k..])
  {}

  /** Applies one specification to the value at `dataPos`, writing to the builder. */
  method ApplySpec(spec: Spec, data: seq<byte>, dataPos: nat, w: string) returns (ok: bool, pos: nat, r: string)
    requires dataPos < |data| <= GoInt.MAX_INT && spec.take <= GoInt.MAX_INT
    ensures var (app, rest) := Apply(spec, data[dataPos..]);
            var text := RenderApp(app, rest != []);
            && ok == text.Some?
            && (ok ==> dataPos <= pos <= |data| && rest == data[pos..] && r == w + text.value)
  {
    hide Apply, Remaining, RenderApp, Chop;
    pos, r := dataPos, w;
    var repeatCount := 1;
    if spec.star && pos < |data| {
      repeatCount := data[pos];
      pos := pos + 1;
    }
    ApplyParts(spec, data, dataPos, pos, repeatCount);
    RemainingIsApplication(Apply(spec, data[dataPos..]).0, repeatCount, data[pos..]);
    ok, pos, r := ApplyRepeatedly(spec, repeatCount, data, pos, r);
  }

  lemma ApplyParts(spec: Spec, data: seq<byte>, dataPos: nat, start: nat, times: nat)
    requires dataPos < |data| && start == (if spec.star then dataPos + 1 else dataPos)
    requires times == if spec.star then data[dataPos] else 1
    ensures var (app, rest) := Apply(spec, data[dataPos..]);
            var body := data[start..];
            var reach := Reach(spec.take, times, body);
            && app.spec == spec && app.chunks == Chop(spec.take, times, body)
            && reach <= |body| && rest == data[start + reach..]
            && (rest != [] <==> |Concat(app.chunks)| < |body|)
  {}

  // ---------------------------------------------------------------- the outer loop

  /** Where the specifications of a hint start, and where reading them stops. */
  ghost function Starts(hint: string, pos: nat): seq<nat>
    requires pos <= |hint|
    decreases |hint| - pos
  {
    if pos == |hint| then [pos]
    else match ParseSpec(hint[pos..])
      case None => [pos]
      case Some((_, rest)) => [pos] + Starts(hint, |hint| - |rest|)
  }

  /** `starts` lays the specifications of h out over the hint. */
  ghost predicate Layout(hint: string, h: Hint, starts: seq<nat>) {
    && |starts| == |h.specs| + 1
    && (forall i :: 0 <= i < |starts| ==> starts[i] <= |hint|)
    && (forall i :: 0 <= i < |h.specs| ==> ReadsAt(hint, starts[i], h.specs[i], starts[i + 1]))
    && (if h.complete then starts[|h.specs|] == |hint|
        else starts[|h.specs|] < |hint| && ParseSpec(hint[starts[|h.specs|]..]) == None)
  }

  ghost predicate ReadsAt(hint: string, start: nat, spec: Spec, end: nat) {
    start < end <= |hint| && ParseSpec(hint[start..]) == Some((spec, hint[end..]))
  }

  lemma {:induction false} LayoutExists(hint: string, pos: nat)
    requires pos <= |hint|
    ensures Starts(hint, pos)[0] == pos
    ensures Layout(hint, ParseHint(hint[pos..]), Starts(hint, pos))
    decreases |hint| - pos
  {
    hide ParseSpec;
    if pos < |hint| && ParseSpec(hint[pos..]).Some? {
      var (spec, rest) := ParseSpec(hint[pos..]).value;
      var end := |hint| - |rest|;
      assert rest == hint[end..];
      LayoutExists(hint, end);
      var tail, h := ParseHint(rest), ParseHint(hint[pos..]);
      var starts := Starts(hint, pos);
      assert h.specs == [spec] + tail.specs && starts == [pos] + Starts(hint, end);
      forall i | 0 <= i < |h.specs| ensures ReadsAt(hint, starts[i], h.specs[i], starts[i + 1]) {
        if i > 0 {
          assert ReadsAt(hint, Starts(hint, end)[i - 1], tail.specs[i - 1], Starts(hint, end)[i]);
        }
      }
    }
  }

  /** What is true at the head of the outer loop after n applications. */
  ghost predicate AtStep(hint: string, h: Hint, starts: seq<nat>, n: nat, hintPos: nat, lastSpecStart: nat,
                         lastSpecConsumesByte: bool) {
    var used := Min(n, |h.specs|);
    && Layout(hint, h, starts)
    && hintPos == starts[used]
    && (n == 0 ==> hintPos < |hint|)
    && (n > 0 ==> used > 0 && lastSpecStart == starts[used - 1] && lastSpecConsumesByte == Consumes(h.specs[used - 1]))
    && (n > |h.specs| ==> h.complete)
  }

  lemma RenderStep(h: Hint, n: nat, data: seq<byte>)
    requires data != []
    ensures match SpecAt(h, n)
            case None => RenderFrom(h, n, data) == None
            case Some(spec) =>
              var (app, rest) := Apply(spec, data);
              RenderFrom(h, n, data) == Append(RenderApp(app, rest != []), RenderFrom(h, n + 1, rest))
  {}

  lemma ParsedTakeFits(s: string)
    ensures ParseSpec(s).Some? ==> ParseSpec(s).value.0.take <= GoInt.MAX_INT
  {}

  /** Steps (1) to (5) of the loop: go back to the last specification if the hint is used up, read one, remember it. */
  method NextSpec(hint: string, ghost h: Hint, ghost starts: seq<nat>, ghost n: nat, hintPos: nat,
                  lastSpecStart: nat, lastSpecConsumesByte: bool)
    returns (spec: Option<Spec>, pos: nat, specStart: nat, consumesByte: bool)
    requires AtStep(hint, h, starts, n, hintPos, lastSpecStart, lastSpecConsumesByte)
    ensures spec == SpecAt(h, n)
    ensures spec.Some? ==> pos <= |hint|
    ensures spec.Some? ==>
              AtStep(hint, h, starts, n + 1, pos, specStart, consumesByte) && spec.value.take <= GoInt.MAX_INT
    ensures spec.Some? && !Consumes(spec.value) ==> hintPos < pos
  {
    hide ParseSpec;
    pos, specStart, consumesByte := hintPos, hintPos, lastSpecConsumesByte;
    ghost var k := n;
    if pos >= |hint| {
      assert n < |h.specs| ==> ReadsAt(hint, starts[n], h.specs[n], starts[n + 1]);
      if !lastSpecConsumesByte {
        return None, pos, specStart, false;
      }
      pos := lastSpecStart;
      specStart := lastSpecStart;
      k := |h.specs| - 1;
    }
    assert k < |h.specs| ==> ReadsAt(hint, starts[k], h.specs[k], starts[k + 1]);
    ParsedTakeFits(hint[pos..]);
    spec, pos := ReadSpec(hint, pos);
    if spec == None {
      return;
    }
    assert |hint[pos..]| == |hint[starts[k + 1]..]|;
    consumesByte := spec.value.take > 0 || spec.value.star;
  }

  /** Applies the n-th specification; what is written so far plus what is still to come stays the same. */
  method ApplyNext(spec: Spec, ghost h: Hint, ghost n: nat, data: seq<byte>, dataPos: nat, w: string)
    returns (ok: bool, pos: nat, r: string)
    requires dataPos < |data| <= GoInt.MAX_INT && spec.take <= GoInt.MAX_INT
    requires SpecAt(h, n) == Some(spec)
    ensures !ok ==> RenderFrom(h, n, data[dataPos..]) == None
    ensures ok ==> dataPos <= pos <= |data| && (Consumes(spec) ==> dataPos < pos)
    ensures ok ==>
              Append(Some(r), RenderFrom(h, n + 1, data[pos..])) == Append(Some(w), RenderFrom(h, n, data[dataPos..]))
  {
    RenderStep(h, n, data[dataPos..]);
    ghost var (app, rest) := Apply(spec, data[dataPos..]);
    AppendAssoc(Some(w), RenderApp(app, rest != []), RenderFrom(h, n + 1, rest));
    ok, pos, r := ApplySpec(spec, data, dataPos, w);
  }

  lemma RenderEnds(h: Hint, n: nat, data: seq<byte>)
    ensures data == [] ==> RenderFrom(h, n, data) == Some([])
    ensures data != [] && SpecAt(h, n) == None ==> RenderFrom(h, n, data) == None
  {}

  /** The outer loop, for a hint and a value that are not empty. */
  method Interpret(hint: string, data: seq<byte>, ghost h: Hint, ghost starts: seq<nat>)
    returns (result: string, ok: bool)
    requires 0 < |data| <= GoInt.MAX_INT && AtStep(hint, h, starts, 0, 0, 0, false)
    ensures RenderFrom(h, 0, data) == if ok then Some(result) else None
  {
    hide RenderFrom, AtStep;
    ghost var n: nat := 0;
    var hintPos: nat, dataPos: nat := 0, 0;
    var lastSpecStart: nat, lastSpecConsumesByte := 0, false;
    result := [];
    ghost var meaning := RenderFrom(h, 0, data);
    AppendEmpty(meaning);
    assert data[0..] == data;
    while dataPos < |data|
      invariant dataPos <= |data| && hintPos <= |hint|
      invariant AtStep(hint, h, starts, n, hintPos, lastSpecStart, lastSpecConsumesByte)
      invariant Append(Some(result), RenderFrom(h, n, data[dataPos..])) == meaning
      decreases |data| - dataPos, |hint| - hintPos
    {
      RenderEnds(h, n, data[dataPos..]);
      var spec;
      spec, hintPos, lastSpecStart, lastSpecConsumesByte := NextSpec(hint, h, starts, n, hintPos, lastSpecStart,
          lastSpecConsumesByte);
      if spec == None {
        return [], false;
      }
      ok, dataPos, result := ApplyNext(spec.value, h, n, data, dataPos, result);
      if !ok {
        return [], false;
      }
      n := n + 1;
    }
    RenderEnds(h, n, data[dataPos..]);
    AppendEmpty(Some(result));
    ok := true;
  }

  /** applyDisplayHint: one pass, and exactly the two-stage meaning on every hint and value. */
  method ApplyDisplayHint(hint: string, data: seq<byte>) returns (result: string, ok: bool)
    requires |data| <= GoInt.MAX_INT
    ensures Render(hint, data) == if ok then Some(result) else None
  {
    if hint == [] || data == [] {
      return [], false;
    }
    LayoutExists(hint, 0);
    assert hint[0..] == hint;
    result, ok := Interpret(hint, data, ParseHint(hint), Starts(hint, 0));
  }
}
