/** Text shared by the whole model.  A Go string is a sequence of bytes; each byte is
    written here as the `char` with that code. */
module Text {

  type byte = b: int | 0 <= b < 256

  datatype Option<+T> = None | Some(value: T)

  function Min(a: nat, b: nat): nat { if a < b then a else b }

  predicate IsDigit(c: char) { '0' <= c <= '9' }

  predicate AllDigits(s: string) { forall i :: 0 <= i < |s| ==> IsDigit(s[i]) }

  function DigitValue(c: char): (d: nat)
    requires IsDigit(c)
    ensures d < 10
  {
    c as int - '0' as int
  }

  function Digit(d: nat): (c: char)
    requires d < 10
    ensures IsDigit(c) && DigitValue(c) == d
  {
    ('0' as int + d) as char
  }

  /** The numeral of n in the given base, no leading zeros (strconv.AppendUint, strconv.Itoa). */
  function Numeral(n: nat, base: nat): (s: string)
    requires base == 8 || base == 10
    ensures s != [] && AllDigits(s)
  {
    if n < base then [Digit(n)] else Numeral(n / base, base) + [Digit(n % base)]
  }

  /** Positional value of a digit string. */
  function NumeralValue(s: string, base: nat): nat
    requires (base == 8 || base == 10) && AllDigits(s)
  {
    if s == [] then 0 else NumeralValue(s[..|s| - 1], base) * base + DigitValue(s[|s| - 1])
  }

  lemma {:induction false} NumeralRoundTrip(n: nat, base: nat)
    requires base == 8 || base == 10
    ensures NumeralValue(Numeral(n, base), base) == n
  {
    var s := Numeral(n, base);
    if n < base {
      assert s[..|s| - 1] == [];
    } else {
      var q := n / base;
      assert q * base + n % base == n && q < n by {
        if base == 8 { assert n / 8 * 8 + n % 8 == n; } else { assert n / 10 * 10 + n % 10 == n; }
      }
      NumeralRoundTrip(q, base);
      assert s[..|s| - 1] == Numeral(q, base);
    }
  }

  /** A numeral without leading zeros. */
  predicate Canonical(s: string) { s != [] && AllDigits(s) && (s[0] == '0' ==> |s| == 1) }

  lemma {:induction false} NumeralCanonical(n: nat, base: nat)
    requires base == 8 || base == 10
    ensures Canonical(Numeral(n, base)) && (Numeral(n, base)[0] == '0' <==> n == 0)
    ensures forall i :: 0 <= i < |Numeral(n, base)| ==> DigitValue(Numeral(n, base)[i]) < base
  {
    if n >= base {
      NumeralCanonical(n / base, base);
      assert n / base > 0 by { if base == 8 { assert n / 8 > 0; } else { assert n / 10 > 0; } }
      assert Numeral(n, base)[0] == Numeral(n / base, base)[0];
    }
  }

  function Decimal(n: nat): (s: string)
    ensures s != [] && AllDigits(s)
  {
    Numeral(n, 10)
  }

  lemma DecimalInjective(m: nat, n: nat)
    requires Decimal(m) == Decimal(n)
    ensures m == n
  {
    NumeralRoundTrip(m, 10);
    NumeralRoundTrip(n, 10);
  }

  /** strconv.Itoa on a signed integer. */
  function Itoa(n: int): string {
    if n < 0 then "-" + Decimal(-n) else Decimal(n)
  }

  predicate IsHexDigit(c: char) { IsDigit(c) || 'A' <= c <= 'F' }

  function HexDigit(d: nat): (c: char)
    requires d < 16
    ensures IsHexDigit(c) && HexValue(c) == d
  {
    if d < 10 then Digit(d) else ('A' as int + (d - 10)) as char
  }

  function HexValue(c: char): (d: nat)
    requires IsHexDigit(c)
    ensures d < 16
  {
    if IsDigit(c) then DigitValue(c) else c as int - 'A' as int + 10
  }

  /** Two upper-case hexadecimal digits for every byte. */
  function Hex(bytes: seq<byte>): (s: string)
    ensures |s| == 2 * |bytes|
    ensures forall i :: 0 <= i < |s| ==> IsHexDigit(s[i])
  {
    if bytes == [] then []
    else [HexDigit(bytes[0] / 16), HexDigit(bytes[0] % 16)] + Hex(bytes[1..])
  }

  function UnHex(s: string): Option<seq<byte>> {
    if s == [] then Some([])
    else if |s| == 1 || !IsHexDigit(s[0]) || !IsHexDigit(s[1]) then None
    else match UnHex(s[2..])
      case None => None
      case Some(bytes) => Some([HexValue(s[0]) * 16 + HexValue(s[1])] + bytes)
  }

  lemma UnHexPair(b: byte, t: string)
    requires UnHex(t).Some?
    ensures UnHex([HexDigit(b / 16), HexDigit(b % 16)] + t) == Some([b] + UnHex(t).value)
  {}

  lemma {:induction false} HexRoundTrip(bytes: seq<byte>)
    ensures UnHex(Hex(bytes)) == Some(bytes)
  {
    if bytes != [] {
      HexRoundTrip(bytes[1..]);
      UnHexPair(bytes[0], Hex(bytes[1..]));
      assert bytes == [bytes[0]] + bytes[1..];
    }
  }

  /** The bytes written to a string unchanged. */
  function Raw(bytes: seq<byte>): (s: string)
    ensures |s| == |bytes|
  {
    seq(|bytes|, i requires 0 <= i < |bytes| => bytes[i] as char)
  }

  lemma RawInjective(a: seq<byte>, b: seq<byte>)
    requires Raw(a) == Raw(b)
    ensures a == b
  {
    forall i | 0 <= i < |a| ensures a[i] == b[i] {
      assert Raw(a)[i] == Raw(b)[i];
    }
  }

  /** What fails on all but the last element fails, so what fails on a front fails. */
  lemma {:induction false} StaysFailed<T(!new)>(s: seq<T>, i: nat, failed: seq<T> -> bool)
    requires i <= |s| && failed(s[..i])
    requires forall front :: front != [] && failed(front[..|front| - 1]) ==> failed(front)
    ensures failed(s)
    decreases |s| - i
  {
    if i == |s| {
      assert s[..i] == s;
    } else {
      assert s[..i + 1][..i] == s[..i];
      StaysFailed(s, i + 1, failed);
    }
  }

  function Concat<T>(parts: seq<seq<T>>): seq<T> {
    if parts == [] then [] else parts[0] + Concat(parts[1..])
  }

  // ---------------------------------------------------------------- splitting at a character

  /** strings.Split for a one-character separator: always at least one part. */
  function SplitOn(sep: char, s: string): (parts: seq<string>)
    ensures parts != []
  {
    if s == [] then [[]]
    else
      var tail := SplitOn(sep, s[1..]);
      if s[0] == sep then [[]] + tail else [[s[0]] + tail[0]] + tail[1..]
  }

  /** strings.Join. */
  function JoinWith(sep: char, parts: seq<string>): string {
    if parts == [] then []
    else if |parts| == 1 then parts[0]
    else parts[0] + [sep] + JoinWith(sep, parts[1..])
  }

  lemma {:induction false} SplitHead(sep: char, a: string, b: string)
    requires sep !in a
    ensures SplitOn(sep, a + [sep] + b) == [a] + SplitOn(sep, b)
  {
    var s := a + [sep] + b;
    if a == [] {
      assert s[1..] == b;
    } else {
      SplitHead(sep, a[1..], b);
      assert s[1..] == a[1..] + [sep] + b;
      assert [a[0]] + a[1..] == a;
    }
  }

  lemma {:induction false} SplitWhole(sep: char, a: string)
    requires sep !in a
    ensures SplitOn(sep, a) == [a]
  {
    if a != [] {
      SplitWhole(sep, a[1..]);
      assert [a[0]] + a[1..] == a;
    }
  }

  lemma {:induction false} SplitJoin(sep: char, parts: seq<string>)
    requires parts != [] && forall i :: 0 <= i < |parts| ==> sep !in parts[i]
    ensures SplitOn(sep, JoinWith(sep, parts)) == parts
  {
    if |parts| == 1 {
      SplitWhole(sep, parts[0]);
    } else {
      SplitJoin(sep, parts[1..]);
      SplitHead(sep, parts[0], JoinWith(sep, parts[1..]));
    }
  }

  /** The text without any occurrence of c. */
  function Strip(c: char, s: string): string {
    if s == [] then [] else (if s[0] == c then [] else [s[0]]) + Strip(c, s[1..])
  }

  lemma {:induction false} StripAppend(c: char, a: string, b: string)
    ensures Strip(c, a + b) == Strip(c, a) + Strip(c, b)
  {
    if a == [] {
      assert a + b == b;
    } else {
      StripAppend(c, a[1..], b);
      assert (a + b)[0] == a[0] && (a + b)[1..] == a[1..] + b;
      var first := if a[0] == c then [] else [a[0]];
      assert first + (Strip(c, a[1..]) + Strip(c, b)) == first + Strip(c, a[1..]) + Strip(c, b);
    }
  }

  lemma {:induction false} StripAbsent(c: char, s: string)
    requires c !in s
    ensures Strip(c, s) == s
  {
    if s != [] {
      StripAbsent(c, s[1..]);
    }
  }
}
