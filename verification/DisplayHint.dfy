/** What a DISPLAY-HINT means, in two stages: the hint is parsed into octet-format
    specifications (section 3.1 of RFC 2579), and the value is then split into
    applications of those specifications and rendered.  Nothing here moves a cursor. */
module DisplayHint {
  import opened Text
  import GoInt

  datatype Format = Dec | Hexadecimal | Octal | Ascii | Utf8

  /** One octet-format specification: `*`, octet length, format, separator, terminator. */
  datatype Spec = Spec(star: bool, take: nat, format: Format, sep: Option<char>, term: Option<char>)

  /** A parsed hint.  `complete` is false when text that is no specification follows the last one. */
  datatype Hint = Hint(specs: seq<Spec>, complete: bool)

  // ---------------------------------------------------------------- stage one: parsing

  function FormatOf(c: char): Option<Format> {
    match c
    case 'd' => Some(Dec)
    case 'x' => Some(Hexadecimal)
    case 'o' => Some(Octal)
    case 'a' => Some(Ascii)
    case 't' => Some(Utf8)
    case _ => None
  }

  /** A character that can only start another specification cannot be a separator or terminator. */
  predicate StartsSpec(c: char) { IsDigit(c) || c == '*' }

  /** Length of the longest prefix made of digits. */
  function DigitRun(s: string): (k: nat)
    ensures k <= |s| && AllDigits(s[..k])
    ensures k < |s| ==> !IsDigit(s[k])
  {
    if s == [] || !IsDigit(s[0]) then 0
    else
      var k := 1 + DigitRun(s[1..]);
      assert forall i :: 1 <= i < k ==> s[i] == s[1..][i - 1];
      k
  }

  /** An optional separator or terminator at the front of s, and what follows it. */
  function Literal(s: string): (Option<char>, string) {
    if s != [] && !StartsSpec(s[0]) then (Some(s[0]), s[1..]) else (None, s)
  }

  /** A specification after its optional `*`: octet length, format, separator and, after a `*`, terminator.
      The octet length is a Go int: a numeral that does not fit wraps, and is refused only if it wraps below zero. */
  function ParseBody(star: bool, body: string): (r: Option<(Spec, string)>)
    ensures r.Some? ==> |r.value.1| < |body| && r.value.1 == body[|body| - |r.value.1|..]
  {
    var k := DigitRun(body);
    var take := GoInt.Wrap(NumeralValue(body[..k], 10));
    if k == 0 || take < 0 || k == |body| || FormatOf(body[k]).None? then None
    else
      var (sep, afterSep) := Literal(body[k + 1..]);
      var (term, rest) := if star then Literal(afterSep) else (None, afterSep);
      Some((Spec(star, take, FormatOf(body[k]).value, sep, term), rest))
  }

  /** The specification at the front of s and the text after it; None when there is none. */
  function ParseSpec(s: string): (r: Option<(Spec, string)>)
    ensures r.Some? ==> |r.value.1| < |s| && r.value.1 == s[|s| - |r.value.1|..]
  {
    if s != [] && s[0] == '*' then ParseBody(true, s[1..]) else ParseBody(false, s)
  }

  function ParseHint(s: string): Hint
    decreases |s|
  {
    if s == [] then Hint([], true)
    else match ParseSpec(s)
      case None => Hint([], false)
      case Some((spec, rest)) =>
        var h := ParseHint(rest);
        Hint([spec] + h.specs, h.complete)
  }

  // ---------------------------------------------------------------- stage two: splitting the value

  /** One use of a specification: the repeat-count octet when there is a `*`, and the chunks formatted. */
  datatype Application = Application(spec: Spec, count: Option<byte>, chunks: seq<seq<byte>>)

  /** Every octet the application accounts for, in order. */
  function Octets(a: Application): seq<byte> {
    (if a.count.Some? then [a.count.value] else []) + Concat(a.chunks)
  }

  function AllOctets(apps: seq<Application>): seq<byte> {
    if apps == [] then [] else Octets(apps[0]) + AllOctets(apps[1..])
  }

  /** Cuts `times` chunks of `take` octets off the front, the last one possibly short. */
  function Chop(take: nat, times: nat, data: seq<byte>): (chunks: seq<seq<byte>>)
    ensures |Concat(chunks)| <= |data| && Concat(chunks) == data[..|Concat(chunks)|]
    ensures take > 0 && times > 0 && data != [] ==> Concat(chunks) != []
    decreases times
  {
    if times == 0 || data == [] then []
    else
      var k := Min(take, |data|);
      var tail := Chop(take, times - 1, data[k..]);
      var chunks := [data[..k]] + tail;
      assert chunks[1..] == tail;
      assert data[..k] + data[k..][..|Concat(tail)|] == data[..k + |Concat(tail)|];
      chunks
  }

  predicate Consumes(spec: Spec) { spec.take > 0 || spec.star }

  /** The application of spec to the front of a non-empty value, and the octets after it. */
  function Apply(spec: Spec, data: seq<byte>): (r: (Application, seq<byte>))
    requires data != []
    ensures Octets(r.0) + r.1 == data
    ensures Consumes(spec) ==> |r.1| < |data|
  {
    var times := if spec.star then data[0] else 1;
    var body := if spec.star then data[1..] else data;
    var chunks := Chop(spec.take, times, body);
    var rest := body[|Concat(chunks)|..];
    assert body == Concat(chunks) + rest;
    assert spec.star ==> data == [data[0]] + body;
    (Application(spec, if spec.star then Some(data[0]) else None, chunks), rest)
  }

  /** Which specification is used n-th: the hint's own, then its last one again and again.
      None when the hint has no usable specification there. */
  function SpecAt(h: Hint, n: nat): (r: Option<Spec>)
    ensures r.Some? && n >= |h.specs| ==> Consumes(r.value)
  {
    if n < |h.specs| then Some(h.specs[n])
    else if h.complete && h.specs != [] && Consumes(h.specs[|h.specs| - 1]) then Some(h.specs[|h.specs| - 1])
    else None
  }

  /** The applications that use up the value, starting with the n-th specification. */
  function Split(h: Hint, n: nat, data: seq<byte>): Option<seq<Application>>
    decreases |data|, if n < |h.specs| then |h.specs| - n else 0
  {
    if data == [] then Some([])
    else match SpecAt(h, n)
      case None => None
      case Some(spec) =>
        var (app, rest) := Apply(spec, data);
        match Split(h, n + 1, rest)
        case None => None
        case Some(apps) => Some([app] + apps)
  }

  // ---------------------------------------------------------------- stage two: rendering

  /** Big-endian value of a chunk. */
  function BigEndian(chunk: seq<byte>): nat {
    if chunk == [] then 0 else BigEndian(chunk[..|chunk| - 1]) * 256 + chunk[|chunk| - 1]
  }

  /** One chunk as text; numbers wider than a uint64 are refused. */
  function RenderChunk(format: Format, chunk: seq<byte>): Option<string> {
    match format
    case Dec => if |chunk| > 8 then None else Some(Numeral(BigEndian(chunk), 10))
    case Octal => if |chunk| > 8 then None else Some(Numeral(BigEndian(chunk), 8))
    case Hexadecimal => Some(Hex(chunk))
    case Ascii | Utf8 => Some(Raw(chunk))
  }

  function Mark(c: Option<char>): string { if c.Some? then [c.value] else [] }

  function Append(a: Option<string>, b: Option<string>): Option<string> {
    if a.Some? && b.Some? then Some(a.value + b.value) else None
  }

  /** The chunks as text with the separator between them. */
  function Join(format: Format, sep: Option<char>, chunks: seq<seq<byte>>): Option<string> {
    if chunks == [] then Some([])
    else if |chunks| == 1 then RenderChunk(format, chunks[0])
    else Append(Append(RenderChunk(format, chunks[0]), Some(Mark(sep))), Join(format, sep, chunks[1..]))
  }

  /** What is written after an application when octets are left: the terminator if there is one,
      otherwise the separator if anything was formatted. */
  function Trailer(a: Application): string {
    if a.spec.term.Some? then Mark(a.spec.term) else if a.chunks != [] then Mark(a.spec.sep) else []
  }

  function RenderApp(a: Application, more: bool): Option<string> {
    Append(Join(a.spec.format, a.spec.sep, a.chunks), Some(if more then Trailer(a) else []))
  }

  function RenderAll(apps: seq<Application>): Option<string> {
    if apps == [] then Some([])
    else Append(RenderApp(apps[0], |apps| > 1), RenderAll(apps[1..]))
  }

  function RenderFrom(h: Hint, n: nat, data: seq<byte>): Option<string> {
    match Split(h, n, data)
    case None => None
    case Some(apps) => RenderAll(apps)
  }

  /** The text of a value under a hint, None when the caller must fall back to default formatting. */
  function Render(hint: string, data: seq<byte>): Option<string> {
    if hint == [] || data == [] then None else RenderFrom(ParseHint(hint), 0, data)
  }
}
