/** Common forms of hints, and what they show: numbers in base 10 and 8, groups with their lengths, and fixed
    layouts. */
module DisplayHintForms {
  import opened Text
  import opened DisplayHint
  import opened DisplayHintInterpreter
  import opened DisplayHintLaws

  // ---------------------------------------------------------------- numbers

  function Power256(n: nat): nat { if n == 0 then 1 else 256 * Power256(n - 1) }

  /** The number octets spell, most significant first: the sum of every octet by its place's weight. */
  function PlaceValue(octets: seq<byte>): nat {
    if octets == [] then 0 else octets[0] * Power256(|octets| - 1) + PlaceValue(octets[1..])
  }

  lemma {:induction false} PlaceValueLast(octets: seq<byte>)
    requires octets != []
    ensures PlaceValue(octets) == PlaceValue(octets[..|octets| - 1]) * 256 + octets[|octets| - 1]
  {
    var n := |octets| - 1;
    if n == 0 {
      assert octets[1..] == [] && octets[..0] == [];
      assert PlaceValue([]) == 0 && Power256(0) == 1;
    } else {
      var front := octets[..n];
      PlaceValueLast(octets[1..]);
      assert octets[1..][..n - 1] == front[1..] && octets[1..][n - 1] == octets[n] && front[0] == octets[0];
      Weigh(octets[0], Power256(n - 1), PlaceValue(front[1..]));
      assert Power256(n) == 256 * Power256(n - 1);
    }
  }

  lemma Weigh(x: nat, p: nat, rest: nat)
    ensures (x * p + rest) * 256 == x * (256 * p) + rest * 256
  {}

  lemma {:induction false} BigEndianIsPlaceValue(octets: seq<byte>)
    ensures BigEndian(octets) == PlaceValue(octets)
  {
    if octets != [] {
      BigEndianIsPlaceValue(octets[..|octets| - 1]);
      PlaceValueLast(octets);
    }
  }

  /** `<k>d` and `<k>o` on up to eight octets: the numeral, in base 10 or 8 and without leading zeros, of the number the
      octets spell. */
  lemma NumberHint(k: nat, octal: bool, data: seq<byte>)
    requires 1 <= k <= 8 && |data| == k
    ensures var base := if octal then 8 else 10;
            var t := Render(Decimal(k) + if octal then "o" else "d", data);
            && t.Some? && Canonical(t.value) && NumeralValue(t.value, base) == PlaceValue(data)
            && forall i :: 0 <= i < |t.value| ==> DigitValue(t.value[i]) < base
  {
    var f, base := if octal then Octal else Dec, if octal then 8 else 10;
    hide Render, SimpleHint;
    RenderSimple(k, f, None, data);
    assert SimpleHint(k, f, None) == Decimal(k) + if octal then "o" else "d" by { SimpleHintText(k, f); }
    OneChunk(Spec(false, k, f, None, None), data);
    BigEndianIsPlaceValue(data);
    NumeralRoundTrip(BigEndian(data), base);
    NumeralCanonical(BigEndian(data), base);
  }

  lemma SimpleHintText(k: nat, f: Format)
    ensures SimpleHint(k, f, None) == Decimal(k) + [FormatChar(f)]
  {}

  lemma OneChunk(spec: Spec, data: seq<byte>)
    requires spec.take == |data| && data != []
    ensures Uniform(spec, data) == RenderChunk(spec.format, data)
  {
    hide RenderChunk;
    assert data[..|data|] == data && data[|data|..] == [];
    AppendEmpty(RenderChunk(spec.format, data));
  }

  // ---------------------------------------------------------------- groups

  /** Octets in groups, each with its length in front. */
  function Grouped(groups: seq<seq<byte>>): seq<byte>
    requires forall i :: 0 <= i < |groups| ==> |groups[i]| < 256
  {
    if groups == [] then [] else [|groups[0]|] + groups[0] + Grouped(groups[1..])
  }

  function GroupTexts(sep: char, groups: seq<seq<byte>>): (r: seq<string>)
    ensures |r| == |groups| && forall i :: 0 <= i < |r| ==> r[i] == JoinWith(sep, Decimals(groups[i]))
  {
    seq(|groups|, i requires 0 <= i < |groups| => JoinWith(sep, Decimals(groups[i])))
  }

  lemma {:induction false} ChopOctets(data: seq<byte>, rest: seq<byte>)
    ensures Chop(1, |data|, data + rest) == Singles(data) && Concat(Singles(data)) == data
    decreases |data|
  {
    if data != [] {
      ChopOctets(data[1..], rest);
      ChopOneOctet(data, rest);
      assert Singles(data) == [[data[0]]] + Singles(data[1..]);
      assert Singles(data)[1..] == Singles(data[1..]) && [data[0]] + data[1..] == data;
    }
  }

  lemma ChopOneOctet(data: seq<byte>, rest: seq<byte>)
    requires data != []
    ensures Chop(1, |data|, data + rest) == [[data[0]]] + Chop(1, |data| - 1, data[1..] + rest)
  {
    var all := data + rest;
    assert all[1..] == data[1..] + rest && all[..1] == [data[0]];
  }

  function Singles(data: seq<byte>): (r: seq<seq<byte>>)
    ensures |r| == |data| && forall i :: 0 <= i < |r| ==> r[i] == [data[i]]
  {
    seq(|data|, i requires 0 <= i < |data| => [data[i]])
  }

  lemma {:induction false} JoinSingles(sep: char, data: seq<byte>)
    ensures Join(Dec, Some(sep), Singles(data)) == Some(JoinWith(sep, Decimals(data)))
  {
    if data != [] {
      OneOctet(data[0]);
      if |data| > 1 {
        JoinSingles(sep, data[1..]);
        assert Singles(data)[1..] == Singles(data[1..]) && Decimals(data)[1..] == Decimals(data[1..]);
      }
    }
  }

  lemma OneOctet(x: byte)
    ensures RenderChunk(Dec, [x]) == Some(Decimal(x))
  {
    assert [x][..0] == [] && BigEndian([x]) == x;
  }

  lemma GroupApplied(spec: Spec, sep: char, group: seq<byte>, rest: seq<byte>)
    requires spec.star && spec.take == 1 && spec.format == Dec && spec.sep == Some(sep) && |group| < 256
    ensures var (app, left) := Apply(spec, [|group|] + group + rest);
            left == rest && app == Application(spec, Some(|group|), Singles(group))
  {
    var data: seq<byte> := [|group|] + group + rest;
    assert data[1..] == group + rest;
    ChopOctets(group, rest);
    assert (group + rest)[|group|..] == rest;
  }

  lemma {:induction false} GroupsRendered(spec: Spec, sep: char, term: char, n: nat, groups: seq<seq<byte>>)
    requires spec == Spec(true, 1, Dec, Some(sep), Some(term))
    requires forall i :: 0 <= i < |groups| ==> |groups[i]| < 256
    ensures RenderFrom(Hint([spec], true), n, Grouped(groups)) == Some(JoinWith(term, GroupTexts(sep, groups)))
    decreases |groups|
  {
    hide RenderFrom, Apply, Join, JoinWith, Singles;
    var h := Hint([spec], true);
    if groups == [] {
      RenderNothing(h, n);
      assert JoinWith(term, GroupTexts(sep, groups)) == [] by { JoinNothing(term, GroupTexts(sep, groups)); }
    } else {
      var group, rest := groups[0], Grouped(groups[1..]);
      var more := GroupTexts(sep, groups[1..]);
      GroupsRendered(spec, sep, term, n + 1, groups[1..]);
      GroupApplied(spec, sep, group, rest);
      RenderStep(h, n, Grouped(groups));
      JoinSingles(sep, group);
      assert GroupTexts(sep, groups) == [JoinWith(sep, Decimals(group))] + more;
      JoinFirst(term, JoinWith(sep, Decimals(group)), more);
      GroupedEmpty(groups[1..]);
      var own, mark := JoinWith(sep, Decimals(group)), if more == [] then [] else [term];
      assert RenderApp(Application(spec, Some(|group|), Singles(group)), rest != []) == Some(own + mark);
      assert own + mark + JoinWith(term, more) == own + (mark + JoinWith(term, more));
      if more == [] { JoinNothing(term, more); }
    }
  }

  lemma GroupedEmpty(groups: seq<seq<byte>>)
    requires forall i :: 0 <= i < |groups| ==> |groups[i]| < 256
    ensures Grouped(groups) == [] <==> groups == []
  {}

  lemma JoinNothing(sep: char, parts: seq<string>)
    requires parts == []
    ensures JoinWith(sep, parts) == []
  {}

  lemma JoinFirst(sep: char, first: string, more: seq<string>)
    ensures JoinWith(sep, [first] + more) == first + (if more == [] then [] else [sep] + JoinWith(sep, more))
  {
    assert ([first] + more)[1..] == more;
    if more == [] { assert first + [] == first; }
  }

  /** `*1d<sep><term>`: groups of octets with their lengths are shown as their numbers, the separator between the
      numbers of one group and the terminator between groups. */
  lemma GroupHint(sep: char, term: char, groups: seq<seq<byte>>)
    requires !StartsSpec(sep) && !StartsSpec(term) && groups != []
    requires forall i :: 0 <= i < |groups| ==> |groups[i]| < 256
    ensures Render("*1d" + [sep, term], Grouped(groups)) == Some(JoinWith(term, GroupTexts(sep, groups)))
  {
    hide ParseHint, RenderFrom, GroupTexts;
    var spec := Spec(true, 1, Dec, Some(sep), Some(term));
    var hint := "*1d" + [sep, term];
    HintRoundTrip([spec]);
    assert WriteHint([spec]) == hint by {
      assert Decimal(1) == "1";
      assert WriteSpec(spec) == hint && [spec][1..] == [];
    }
    GroupsRendered(spec, sep, term, 0, groups);
    GroupedEmpty(groups);
    RenderIsFrom(hint, Grouped(groups));
  }

  lemma RenderIsFrom(hint: string, data: seq<byte>)
    requires hint != [] && data != []
    ensures Render(hint, data) == RenderFrom(ParseHint(hint), 0, data)
  {}

  lemma {:induction false} JoinTogether(sep: char, a: seq<string>, b: seq<string>)
    requires a != [] && b != []
    ensures JoinWith(sep, a + b) == JoinWith(sep, a) + [sep] + JoinWith(sep, b)
    decreases |a|
  {
    hide JoinWith;
    assert a + b == [a[0]] + (a[1..] + b) && a == [a[0]] + a[1..];
    JoinFirst(sep, a[0], a[1..] + b);
    JoinFirst(sep, a[0], a[1..]);
    if a[1..] == [] {
      assert a[1..] + b == b && a[0] + [] == a[0];
      assert a[0] + ([sep] + JoinWith(sep, b)) == a[0] + [sep] + JoinWith(sep, b);
    } else {
      JoinTogether(sep, a[1..], b);
      var x, y := JoinWith(sep, a[1..]), JoinWith(sep, b);
      assert a[0] + ([sep] + (x + [sep] + y)) == a[0] + ([sep] + x) + [sep] + y;
    }
  }

  lemma {:induction false} PlainGroupsRendered(spec: Spec, sep: char, n: nat, groups: seq<seq<byte>>)
    requires spec == Spec(true, 1, Dec, Some(sep), None) && groups != [] && groups[|groups| - 1] != []
    requires forall i :: 0 <= i < |groups| ==> |groups[i]| < 256
    ensures RenderFrom(Hint([spec], true), n, Grouped(groups)) == Some(JoinWith(sep, Decimals(Concat(groups))))
    decreases |groups|
  {
    hide RenderFrom, Apply, Join, JoinWith, Singles, Decimals;
    var h := Hint([spec], true);
    var group, rest, more := groups[0], Grouped(groups[1..]), Concat(groups[1..]);
    var own := JoinWith(sep, Decimals(group));
    GroupApplied(spec, sep, group, rest);
    RenderStep(h, n, Grouped(groups));
    JoinSingles(sep, group);
    GroupedEmpty(groups[1..]);
    var app := Application(spec, Some(|group|), Singles(group));
    if groups[1..] == [] {
      RenderNothing(h, n + 1);
      assert group + [] == group && own + [] + [] == own;
    } else {
      PlainGroupsRendered(spec, sep, n + 1, groups[1..]);
      NotAllEmpty(groups[1..]);
      DecimalsAppend(group, more);
      if group == [] {
        JoinNothing(sep, Decimals(group));
        assert group + more == more && [] + [] + JoinWith(sep, Decimals(more)) == JoinWith(sep, Decimals(more));
      } else {
        JoinTogether(sep, Decimals(group), Decimals(more));
        GroupAndMark(spec, sep, group, own);
      }
    }
  }

  lemma GroupAndMark(spec: Spec, sep: char, group: seq<byte>, own: string)
    requires spec == Spec(true, 1, Dec, Some(sep), None) && 0 < |group| < 256
    requires Join(Dec, Some(sep), Singles(group)) == Some(own)
    ensures RenderApp(Application(spec, Some(|group|), Singles(group)), true) == Some(own + [sep])
  {
    hide Join;
  }

  lemma DecimalsAppend(a: seq<byte>, b: seq<byte>)
    ensures Decimals(a + b) == Decimals(a) + Decimals(b)
    ensures (Decimals(a) == [] <==> a == []) && (Decimals(b) == [] <==> b == [])
  {}

  /** `*1d<sep>`: without a terminator the groups are shown as one list, an empty group leaving no separator behind. */
  lemma PlainGroupHint(sep: char, groups: seq<seq<byte>>)
    requires !StartsSpec(sep) && groups != [] && groups[|groups| - 1] != []
    requires forall i :: 0 <= i < |groups| ==> |groups[i]| < 256
    ensures Render("*1d" + [sep], Grouped(groups)) == Some(JoinWith(sep, Decimals(Concat(groups))))
  {
    hide ParseHint, RenderFrom, Decimals;
    var spec, hint := Spec(true, 1, Dec, Some(sep), None), "*1d" + [sep];
    HintRoundTrip([spec]);
    assert WriteHint([spec]) == hint by {
      assert Decimal(1) == "1";
      assert WriteSpec(spec) == hint && [spec][1..] == [];
    }
    PlainGroupsRendered(spec, sep, 0, groups);
    GroupedEmpty(groups);
    RenderIsFrom(hint, Grouped(groups));
  }

  // ---------------------------------------------------------------- fixed layouts

  /** Chunks of given widths with their separators, none after the last. */
  function Layout(specs: seq<Spec>, chunks: seq<seq<byte>>): Option<string>
    requires |specs| == |chunks|
  {
    if specs == [] then Some([])
    else
      Append(Append(RenderChunk(specs[0].format, chunks[0]), Some(if |specs| > 1 then Mark(specs[0].sep) else [])),
             Layout(specs[1..], chunks[1..]))
  }

  predicate Fits(spec: Spec, chunk: seq<byte>) { !spec.star && spec.term.None? && |chunk| == spec.take }

  lemma {:induction false} LayoutFrom(h: Hint, n: nat, chunks: seq<seq<byte>>)
    requires n + |chunks| == |h.specs| && (chunks != [] ==> chunks[|chunks| - 1] != [])
    requires forall i :: 0 <= i < |chunks| ==> Fits(h.specs[n..][i], chunks[i])
    ensures RenderFrom(h, n, Concat(chunks)) == Layout(h.specs[n..], chunks)
    decreases |chunks|
  {
    if chunks == [] {
      RenderNothing(h, n);
    } else {
      hide RenderFrom, RenderChunk;
      var spec, chunk, rest := h.specs[n], chunks[0], Concat(chunks[1..]);
      forall i | 0 <= i < |chunks[1..]| ensures Fits(h.specs[n + 1..][i], chunks[1..][i]) {
        assert h.specs[n + 1..][i] == h.specs[n..][i + 1] && chunks[1..][i] == chunks[i + 1];
      }
      assert Fits(h.specs[n..][0], chunk);
      LayoutFrom(h, n + 1, chunks[1..]);
      assert h.specs[n..][1..] == h.specs[n + 1..];
      NotAllEmpty(chunks);
      PlainApplied(spec, chunk, rest);
      RenderStep(h, n, chunk + rest);
      if chunks[1..] != [] { NotAllEmpty(chunks[1..]); }
    }
  }

  lemma {:induction false} NotAllEmpty(chunks: seq<seq<byte>>)
    requires chunks != [] && chunks[|chunks| - 1] != []
    ensures Concat(chunks) != []
  {
    if |chunks| > 1 { NotAllEmpty(chunks[1..]); }
  }

  lemma PlainApplied(spec: Spec, chunk: seq<byte>, rest: seq<byte>)
    requires !spec.star && |chunk| == spec.take && chunk + rest != []
    ensures var (app, left) := Apply(spec, chunk + rest);
            left == rest && app == Application(spec, None, [chunk])
  {
    var data := chunk + rest;
    assert data[..|chunk|] == chunk && data[|chunk|..] == rest;
    assert Chop(spec.take, 1, data) == [chunk] + Chop(spec.take, 0, rest);
    assert Concat([chunk]) == chunk;
  }

  /** A hint without `*`, on a value as long as it asks for: every chunk as its own specification shows it, each
      specification's own separator after it.  A specification of width 0 writes its separator alone. */
  lemma FixedHint(specs: seq<Spec>, chunks: seq<seq<byte>>)
    requires |specs| == |chunks| && specs != [] && chunks[|chunks| - 1] != []
    requires forall i :: 0 <= i < |specs| ==> Writable(specs[i]) && !specs[i].star && |chunks[i]| == specs[i].take
    ensures Render(WriteHint(specs), Concat(chunks)) == Layout(specs, chunks)
  {
    hide ParseHint, RenderFrom, Writable;
    HintRoundTrip(specs);
    var h := Hint(specs, true);
    assert specs[0..] == specs;
    forall i | 0 <= i < |specs| ensures Fits(specs[i], chunks[i]) { NoTerm(specs[i]); }
    LayoutFrom(h, 0, chunks);
    NotAllEmpty(chunks);
    RenderIsFrom(WriteHint(specs), Concat(chunks));
  }

  lemma NoTerm(spec: Spec)
    requires Writable(spec) && !spec.star
    ensures spec.term.None?
  {}

  /** For instance, a port after an address in brackets, written with specifications of width 0. */
  lemma BracketsExample()
    ensures Render("0a[2x]0a:2d", [0x20, 0x01, 0x00, 0x50]) == Some("[2001]:80")
  {
    hide Render, Layout, WriteHint, Concat;
    var specs := [Spec(false, 0, Ascii, Some('['), None), Spec(false, 2, Hexadecimal, Some(']'), None),
                  Spec(false, 0, Ascii, Some(':'), None), Spec(false, 2, Dec, None, None)];
    var chunks: seq<seq<byte>> := [[], [0x20, 0x01], [], [0x00, 0x50]];
    BracketsText(specs);
    BracketsLayout(specs, chunks);
    FourChunks(chunks);
    FixedHint(specs, chunks);
  }

  lemma FourChunks(chunks: seq<seq<byte>>)
    requires chunks == [[], [0x20, 0x01], [], [0x00, 0x50]]
    ensures Concat(chunks) == [0x20, 0x01, 0x00, 0x50]
  {
    assert chunks[3..][1..] == [] && Concat(chunks[3..]) == [0x00, 0x50];
    assert chunks[2..][1..] == chunks[3..] && Concat(chunks[2..]) == [0x00, 0x50];
    assert chunks[1..][1..] == chunks[2..] && Concat(chunks[1..]) == [0x20, 0x01, 0x00, 0x50];
  }

  lemma BracketsText(specs: seq<Spec>)
    requires |specs| == 4 && specs[0] == Spec(false, 0, Ascii, Some('['), None)
    requires specs[1] == Spec(false, 2, Hexadecimal, Some(']'), None)
    requires specs[2] == Spec(false, 0, Ascii, Some(':'), None) && specs[3] == Spec(false, 2, Dec, None, None)
    ensures WriteHint(specs) == "0a[2x]0a:2d"
  {
    assert Decimal(0) == "0" && Decimal(2) == "2";
    assert WriteSpec(specs[0]) == "0a[" && WriteSpec(specs[1]) == "2x]";
    assert WriteSpec(specs[2]) == "0a:" && WriteSpec(specs[3]) == "2d";
    hide WriteSpec;
    assert WriteHint(specs[3..]) == "2d" by { assert specs[3..][1..] == []; }
    assert WriteHint(specs[2..]) == "0a:2d" by { assert specs[2..][1..] == specs[3..]; }
    assert WriteHint(specs[1..]) == "2x]0a:2d" by { assert specs[1..][1..] == specs[2..]; }
  }

  lemma BracketsLayout(specs: seq<Spec>, chunks: seq<seq<byte>>)
    requires |specs| == |chunks| == 4 && specs[0] == Spec(false, 0, Ascii, Some('['), None)
    requires specs[1] == Spec(false, 2, Hexadecimal, Some(']'), None)
    requires specs[2] == Spec(false, 0, Ascii, Some(':'), None) && specs[3] == Spec(false, 2, Dec, None, None)
    requires chunks == [[], [0x20, 0x01], [], [0x00, 0x50]]
    ensures Layout(specs, chunks) == Some("[2001]:80")
  {
    assert RenderChunk(Ascii, []) == Some("") by { assert Raw([]) == []; }
    assert RenderChunk(Hexadecimal, [0x20, 0x01]) == Some("2001") by { TwoOctets(); }
    assert RenderChunk(Dec, [0x00, 0x50]) == Some("80") by { TwoOctets(); }
    hide RenderChunk, Layout;
    LayoutEnd(specs[4..], chunks[4..]);
    assert "80" + "" + "" == "80";
    LayoutStep(specs, chunks, 3, "80", "", "", "80");
    assert "" + ":" + "80" == ":80";
    LayoutStep(specs, chunks, 2, "", ":", "80", ":80");
    assert "2001" + "]" + ":80" == "2001]:80";
    LayoutStep(specs, chunks, 1, "2001", "]", ":80", "2001]:80");
    assert "" + "[" + "2001]:80" == "[2001]:80";
    LayoutStep(specs, chunks, 0, "", "[", "2001]:80", "[2001]:80");
    assert specs[0..] == specs && chunks[0..] == chunks;
  }

  lemma LayoutEnd(specs: seq<Spec>, chunks: seq<seq<byte>>)
    requires specs == [] && chunks == []
    ensures Layout(specs, chunks) == Some("")
  {}

  lemma LayoutStep(specs: seq<Spec>, chunks: seq<seq<byte>>, k: nat, own: string, mark: string, tail: string,
                   all: string)
    requires k < |specs| == |chunks| && RenderChunk(specs[k].format, chunks[k]) == Some(own)
    requires mark == (if k + 1 < |specs| then Mark(specs[k].sep) else "") && all == own + mark + tail
    requires Layout(specs[k + 1..], chunks[k + 1..]) == Some(tail)
    ensures Layout(specs[k..], chunks[k..]) == Some(all)
  {
    hide RenderChunk;
    assert specs[k..][1..] == specs[k + 1..] && chunks[k..][1..] == chunks[k + 1..];
  }

  lemma TwoOctets()
    ensures Hex([0x20, 0x01]) == "2001" && Decimal(BigEndian([0x00, 0x50])) == "80"
  {
    var a: seq<byte>, b: seq<byte> := [0x20, 0x01], [0x00, 0x50];
    assert a[1..] == [0x01] && a[1..][1..] == [];
    assert b[..1] == [0x00] && b[..1][..0] == [] && BigEndian(b) == 80;
    assert Decimal(80) == Decimal(8) + "0" && Decimal(8) == "8";
  }
}
