/** Object identifiers as text ("1.3.6.1") and as lists of sub-identifiers. */
module Oid {
  import opened Text
  import GoInt

  function Digits(s: string): int { if s == [] || !AllDigits(s) then 0 else NumeralValue(s, 10) }

  /** The number a text spells with an optional sign, 0 if it spells none. */
  function Signed(s: string): int {
    if s != [] && s[0] == '-' then -Digits(s[1..])
    else if s != [] && s[0] == '+' then Digits(s[1..])
    else Digits(s)
  }

  /** strconv.Atoi with its error ignored: clamped to the int range. */
  function Atoi(s: string): int {
    var v := Signed(s);
    if v > GoInt.MAX_INT then GoInt.MAX_INT else if v < -GoInt.TWO_63 then -GoInt.TWO_63 else v
  }

  predicate IsInt(n: int) { -GoInt.TWO_63 <= n <= GoInt.MAX_INT }

  lemma AtoiItoa(n: int)
    requires IsInt(n)
    ensures Atoi(Itoa(n)) == n && '.' !in Itoa(n) && Itoa(n) != []
  {
    var digits := Decimal(if n < 0 then -n else n);
    NumeralRoundTrip(if n < 0 then -n else n, 10);
    assert '.' !in digits && digits[0] != '-' && digits[0] != '+' by {
      forall i | 0 <= i < |digits| ensures digits[i] != '.' && digits[i] != '-' && digits[i] != '+' {
        assert IsDigit(digits[i]);
      }
    }
    if n < 0 {
      assert Itoa(n)[1..] == digits;
    }
  }

  function Map<S, T>(f: S -> T, s: seq<S>): (r: seq<T>)
    ensures |r| == |s| && forall i :: 0 <= i < |s| ==> r[i] == f(s[i])
  {
    seq(|s|, i requires 0 <= i < |s| => f(s[i]))
  }

  /** oidToList: split at the dots and convert; the empty text gives one 0. */
  function OidToList(oid: string): (l: seq<int>)
    ensures l != []
  {
    Map(Atoi, SplitOn('.', oid))
  }

  /** listToOid. */
  function ListToOid(l: seq<int>): string {
    JoinWith('.', Map(Itoa, l))
  }

  lemma OidRoundTrip(l: seq<int>)
    requires l != [] && forall i :: 0 <= i < |l| ==> IsInt(l[i])
    ensures OidToList(ListToOid(l)) == l
  {
    var parts := Map(Itoa, l);
    forall i | 0 <= i < |l| ensures '.' !in parts[i] && Atoi(parts[i]) == l[i] { AtoiItoa(l[i]); }
    SplitJoin('.', parts);
  }

  lemma {:induction false} JoinAppend(a: seq<string>, b: seq<string>)
    requires a != [] && b != []
    ensures JoinWith('.', a + b) == JoinWith('.', a) + "." + JoinWith('.', b)
  {
    var ab := a + b;
    if |a| == 1 {
      assert ab[0] == a[0] && ab[1..] == b;
    } else {
      JoinAppend(a[1..], b);
      assert ab[0] == a[0] && ab[1..] == a[1..] + b;
      assert a[0] + "." + (JoinWith('.', a[1..]) + "." + JoinWith('.', b))
          == a[0] + "." + JoinWith('.', a[1..]) + "." + JoinWith('.', b);
    }
  }

  lemma ListToOidAppend(a: seq<int>, b: seq<int>)
    requires a != [] && b != []
    ensures ListToOid(a + b) == ListToOid(a) + "." + ListToOid(b)
  {
    hide JoinWith, Itoa;
    JoinAppend(Map(Itoa, a), Map(Itoa, b));
    assert Map(Itoa, a + b) == Map(Itoa, a) + Map(Itoa, b);
  }

  /** getPrevOid: the OID with its last sub-identifier one less. */
  function PrevOid(oid: string): string {
    var parts := SplitOn('.', oid);
    var last := |parts| - 1;
    JoinWith('.', parts[last := Itoa(Atoi(parts[last]) - 1)])
  }

  /** The previous column: only the last sub-identifier changes, and by one. */
  lemma PrevOidIsPrevious(front: seq<int>, last: int)
    requires (forall i :: 0 <= i < |front| ==> IsInt(front[i])) && IsInt(last)
    ensures PrevOid(ListToOid(front + [last])) == ListToOid(front + [last - 1])
  {
    hide Atoi, Itoa, JoinWith, SplitOn;
    var l := front + [last];
    var parts := Map(Itoa, l);
    forall i | 0 <= i < |l| ensures '.' !in parts[i] && Atoi(parts[i]) == l[i] { AtoiItoa(l[i]); }
    SplitJoin('.', parts);
    assert parts[|front| := Itoa(last - 1)] == Map(Itoa, front + [last - 1]);
  }
}
