/** Comparison of version strings: numbers separated by anything else, missing ones counted as 0. */
module SemVer {
  import opened Common

  const INT_MAX := 0x7FFF_FFFF

  predicate IsDigit(c: char) {
    '0' <= c <= '9'
  }

  /** The digits at the start of a string. */
  function Digits(s: string): (n: nat)
    ensures n <= |s| && forall i :: 0 <= i < n ==> IsDigit(s[i])
    ensures n < |s| ==> !IsDigit(s[n])
  {
    if s == "" || !IsDigit(s[0]) then 0 else 1 + Digits(s[1..])
  }

  function NonDigits(s: string): (n: nat)
    ensures n <= |s| && forall i :: 0 <= i < n ==> !IsDigit(s[i])
    ensures n < |s| ==> IsDigit(s[n])
  {
    if s == "" || IsDigit(s[0]) then 0 else 1 + NonDigits(s[1..])
  }

  function Value(digits: string): nat
    requires forall c <- digits :: IsDigit(c)
  {
    if digits == "" then 0
    else
      assert IsDigit(digits[|digits| - 1]);
      10 * Value(digits[..|digits| - 1]) + (digits[|digits| - 1] as int - '0' as int)
  }

  /** What the scanner consumes for one component, separator included. */
  function Step(s: string): (n: nat)
    ensures n <= |s| && (s != "" ==> n > 0)
  {
    Digits(s) + NonDigits(s[Digits(s)..])
  }

  function Number(s: string): nat {
    assert forall c <- s[..Digits(s)] :: IsDigit(c);
    Value(s[..Digits(s)])
  }

  /** The numbers in a version string, left to right; text before the first number makes a 0. */
  function Components(s: string): (r: seq<nat>)
    ensures s == "" <==> r == []
    decreases |s|
  {
    if s == "" then [] else [Number(s)] + Components(s[Step(s)..])
  }

  // ----- numerals

  /** The decimal numeral of a number, by division. */
  function Show(n: nat): (s: string)
    ensures s != "" && forall c <- s :: '0' <= c <= '9'
  {
    if n < 10 then [DIGITS[n]] else Show(n / 10) + [DIGITS[n % 10]]
  }

  const DIGITS := "0123456789"

  /** The number of a numeral is the number it was made from. */
  lemma {:induction false} ValueOfShow(n: nat)
    ensures (forall c <- Show(n) :: IsDigit(c)) && Value(Show(n)) == n
  {
    var s := Show(n);
    assert forall i :: 0 <= i < 10 ==> DIGITS[i] as int - '0' as int == i;
    if n < 10 {
      assert s[..0] == "";
    } else {
      ValueOfShow(n / 10);
      assert s[..|s| - 1] == Show(n / 10);
    }
  }

  /** Zeros in front make no difference. */
  lemma {:induction false} LeadingZeros(s: string)
    requires forall c <- s :: IsDigit(c)
    ensures (forall c <- "0" + s :: IsDigit(c)) && Value("0" + s) == Value(s)
  {
    if s == "" {
      assert ("0" + s)[..0] == "";
    } else {
      var t := s[..|s| - 1];
      assert forall c <- t :: c in s;
      LeadingZeros(t);
      assert ("0" + s)[..|s|] == "0" + t;
    }
  }

  /** A version as it is written: numerals with one separator between. */
  function Print(v: seq<nat>, separator: char): string
    requires v != []
  {
    if |v| == 1 then Show(v[0]) else Show(v[0]) + [separator] + Print(v[1..], separator)
  }

  lemma {:induction false} DigitsOfNumeral(s: string, rest: string)
    requires (forall c <- s :: IsDigit(c)) && (rest == "" || !IsDigit(rest[0]))
    ensures Digits(s + rest) == |s|
    decreases |s|
  {
    if s == "" {
      assert s + rest == rest;
    } else {
      assert (s + rest)[1..] == s[1..] + rest;
      DigitsOfNumeral(s[1..], rest);
    }
  }

  /** Reading a written version gives the numbers it was written from. */
  lemma {:induction false} ComponentsOfPrint(v: seq<nat>, separator: char)
    requires v != [] && !('0' <= separator <= '9')
    ensures Components(Print(v, separator)) == v
    decreases |v|
  {
    hide Show, Digits, Components, Value;
    var s, n := Print(v, separator), Show(v[0]);
    ValueOfShow(v[0]);
    if |v| == 1 {
      assert s == n + "";
      DigitsOfNumeral(n, "");
      NumeralFirst(s, n, "");
      assert v == [v[0]];
    } else {
      var rest := Print(v[1..], separator);
      StartsWithDigit(v[1..], separator);
      AppendAssoc(n, [separator], rest);
      DigitsOfNumeral(n, [separator] + rest);
      NumeralFirst(s, n, [separator] + rest);
      assert ([separator] + rest)[1..] == rest;
      ComponentsOfPrint(v[1..], separator);
      assert v == [v[0]] + v[1..];
    }
  }

  lemma StartsWithDigit(v: seq<nat>, separator: char)
    requires v != []
    ensures Print(v, separator) != "" && IsDigit(Print(v, separator)[0])
  {
    assert Show(v[0])[0] in Show(v[0]);
  }

  /** A string that begins with a numeral, followed by nothing or by one separator. */
  lemma NumeralFirst(s: string, n: string, rest: string)
    requires s == n + rest && n != "" && Digits(s) == |n|
    requires rest == "" || (!IsDigit(rest[0]) && |rest| > 1 && IsDigit(rest[1]))
    ensures (forall c <- n :: IsDigit(c))
    ensures Number(s) == Value(n)
    ensures Components(s) == [Value(n)] + if rest == "" then [] else Components(rest[1..])
  {
    assert s[..|n|] == n && s[|n|..] == rest;
    assert forall c <- s[..Digits(s)] :: IsDigit(c);
    if rest == "" {
      assert s[Step(s)..] == "";
    } else {
      assert NonDigits(rest) == 1 by {
        assert NonDigits(rest[1..]) == 0;
      }
      assert s[Step(s)..] == rest[1..];
    }
  }

  /** So 1.10 is newer than 1.9. */
  lemma TenIsNewerThanNine()
    ensures Compare(Components(Print([1, 10], '.')), Components(Print([1, 9], '.'))) == 1
    ensures Print([1, 10], '.') == "1.10" && Print([1, 9], '.') == "1.9"
  {
    ComponentsOfPrint([1, 10], '.');
    ComponentsOfPrint([1, 9], '.');
    assert Show(10) == Show(1) + "0";
    assert Compare([10], [9]) == 1;
    assert [1, 10][1..] == [10] && [1, 9][1..] == [9];
  }

  // ----- the order

  function NumberAt(v: seq<nat>, i: nat): nat {
    if i < |v| then v[i] else 0
  }

  /** The sign of the comparison at the first position where the zero-padded sequences differ. */
  function Compare(a: seq<nat>, b: seq<nat>): (r: int)
    ensures -1 <= r <= 1
    decreases |a| + |b|
  {
    if a == [] && b == [] then 0
    else if NumberAt(a, 0) > NumberAt(b, 0) then 1
    else if NumberAt(a, 0) < NumberAt(b, 0) then -1
    else Compare(if a == [] then a else a[1..], if b == [] then b else b[1..])
  }

  /** The order itself: at some position a is smaller, and before it they are equal. */
  ghost predicate Less(a: seq<nat>, b: seq<nat>) {
    exists k: nat :: LessAt(a, b, k)
  }

  ghost predicate LessAt(a: seq<nat>, b: seq<nat>, k: nat) {
    NumberAt(a, k) < NumberAt(b, k) && forall i: nat :: i < k ==> NumberAt(a, i) == NumberAt(b, i)
  }

  ghost predicate Same(a: seq<nat>, b: seq<nat>) {
    forall i: nat :: NumberAt(a, i) == NumberAt(b, i)
  }

  function Tail(v: seq<nat>): seq<nat> {
    if v == [] then v else v[1..]
  }

  /** The numbers that are read, those up to the first difference, can be held in an int. */
  ghost predicate Fit(a: seq<nat>, b: seq<nat>)
    decreases |a| + |b|
  {
    (a == [] && b == []) ||
    (NumberAt(a, 0) <= INT_MAX && NumberAt(b, 0) <= INT_MAX
     && (NumberAt(a, 0) == NumberAt(b, 0) ==> Fit(Tail(a), Tail(b))))
  }

  lemma TailAt(v: seq<nat>, i: nat)
    ensures NumberAt(Tail(v), i) == NumberAt(v, i + 1)
  {}

  lemma LessOfTail(a: seq<nat>, b: seq<nat>, k: nat)
    requires NumberAt(a, 0) == NumberAt(b, 0) && LessAt(Tail(a), Tail(b), k)
    ensures LessAt(a, b, k + 1)
  {
    forall i: nat | i < k + 1 ensures NumberAt(a, i) == NumberAt(b, i) {
      if i > 0 {
        TailAt(a, i - 1);
        TailAt(b, i - 1);
      }
    }
    TailAt(a, k);
    TailAt(b, k);
  }

  /** The comparison is the lexicographic order of the zero-padded sequences. */
  lemma {:induction false} CompareMeaning(a: seq<nat>, b: seq<nat>)
    ensures Compare(a, b) == -1 ==> Less(a, b)
    ensures Compare(a, b) == 1 ==> Less(b, a)
    ensures Compare(a, b) == 0 ==> Same(a, b)
    decreases |a| + |b|
  {
    if a == [] && b == [] {
    } else if NumberAt(a, 0) > NumberAt(b, 0) {
      assert LessAt(b, a, 0);
    } else if NumberAt(a, 0) < NumberAt(b, 0) {
      assert LessAt(a, b, 0);
    } else {
      CompareMeaning(Tail(a), Tail(b));
      if k: nat :| LessAt(Tail(a), Tail(b), k) {
        LessOfTail(a, b, k);
      }
      if k: nat :| LessAt(Tail(b), Tail(a), k) {
        LessOfTail(b, a, k);
      }
      if Compare(a, b) == 0 {
        forall i: nat ensures NumberAt(a, i) == NumberAt(b, i) {
          if i > 0 {
            TailAt(a, i - 1);
            TailAt(b, i - 1);
          }
        }
      }
    }
  }

  lemma LessExcludes(a: seq<nat>, b: seq<nat>)
    requires Less(a, b)
    ensures !Less(b, a) && !Same(a, b)
  {
    var k: nat :| LessAt(a, b, k);
    forall j: nat ensures !LessAt(b, a, j) {}
  }

  /** Both directions, for all three results. */
  lemma CompareIff(a: seq<nat>, b: seq<nat>)
    ensures Compare(a, b) == -1 <==> Less(a, b)
    ensures Compare(a, b) == 1 <==> Less(b, a)
    ensures Compare(a, b) == 0 <==> Same(a, b)
  {
    CompareMeaning(a, b);
    if Less(a, b) {
      LessExcludes(a, b);
    }
    if Less(b, a) {
      LessExcludes(b, a);
    }
  }

  lemma Antisymmetric(a: seq<nat>, b: seq<nat>)
    ensures Compare(a, b) == -Compare(b, a)
  {
    CompareIff(a, b);
    CompareIff(b, a);
  }

  lemma LessTransitive(a: seq<nat>, b: seq<nat>, c: seq<nat>)
    requires (Less(a, b) || Same(a, b)) && (Less(b, c) || Same(b, c))
    ensures Less(a, c) || Same(a, c)
    ensures Less(a, b) || Less(b, c) ==> Less(a, c)
  {
    if Less(a, b) {
      var k: nat :| LessAt(a, b, k);
      if Less(b, c) {
        var j: nat :| LessAt(b, c, j);
        assert LessAt(a, c, Min(k, j));
      } else {
        assert LessAt(a, c, k);
      }
    } else if Less(b, c) {
      var j: nat :| LessAt(b, c, j);
      assert LessAt(a, c, j);
    }
  }

  /** Versions are totally preordered: not newer and not newer gives not newer, strictly if either is. */
  lemma Transitive(a: seq<nat>, b: seq<nat>, c: seq<nat>)
    requires Compare(a, b) <= 0 && Compare(b, c) <= 0
    ensures Compare(a, c) <= 0
    ensures Compare(a, b) < 0 || Compare(b, c) < 0 ==> Compare(a, c) < 0
  {
    CompareIff(a, b);
    CompareIff(b, c);
    CompareIff(a, c);
    LessTransitive(a, b, c);
  }

  // ----- the scanner

  /** The numbers still to be read from position p of a string. */
  function Rest(s: string, p: nat): seq<nat>
    requires p <= |s|
  {
    Components(s[p..])
  }

  /** Reads one number and the separator behind it. */
  method ReadComponent(s: string, p: nat) returns (v: nat, q: nat)
    requires p <= |s| && Number(s[p..]) <= INT_MAX
    ensures q == p + Step(s[p..]) && v == Number(s[p..])
  {
    v, q := ReadNumber(s, p);
    ghost var t := s[p..];
    ghost var u := t[Digits(t)..];
    while q < |s| && !IsDigit(s[q])
      invariant p + Digits(t) <= q <= p + Step(t)
    {
      assert s[q] == u[q - p - Digits(t)];
      q := q + 1;
    }
  }

  method ReadNumber(s: string, p: nat) returns (v: nat, q: nat)
    requires p <= |s| && Number(s[p..]) <= INT_MAX
    ensures q == p + Digits(s[p..]) && v == Number(s[p..])
  {
    ghost var t := s[p..];
    v := 0;
    q := p;
    assert t[..0] == "";
    while q < |s| && IsDigit(s[q])
      invariant p <= q <= p + Digits(t) && v == Value(t[..q - p])
      invariant v <= INT_MAX
    {
      assert s[q] == t[q - p];
      assert t[..q - p + 1][..q - p] == t[..q - p];
      v := v * 10 + (s[q] as int - '0' as int);
      q := q + 1;
      PrefixValue(t, q - p);
    }
  }

  /** A number that fits has only prefixes that fit. */
  lemma {:induction false} PrefixValue(s: string, n: nat)
    requires n <= Digits(s)
    ensures (forall c <- s[..n] :: IsDigit(c)) && Value(s[..n]) <= Number(s)
    decreases Digits(s) - n
  {
    assert forall c <- s[..Digits(s)] :: IsDigit(c);
    if n < Digits(s) {
      PrefixValue(s, n + 1);
      assert s[..n + 1][..n] == s[..n];
    }
  }

  /** null (None) compares equal to everything; otherwise the numbers decide. */
  method CompareSemVer(sw1: Option<string>, sw2: Option<string>) returns (r: int)
    requires sw1.Some? && sw2.Some? ==> Fit(Components(sw1.value), Components(sw2.value))
    ensures r == if sw1.None? || sw2.None? then 0 else Compare(Components(sw1.value), Components(sw2.value))
  {
    if sw1.None? || sw2.None? {
      return 0;
    }
    var s1, s2 := sw1.value, sw2.value;
    hide Components, Fit, Number, Step, Compare, Rest, Tail, NumberAt;
    StartOf(s1);
    StartOf(s2);
    var p1, p2 := 0, 0;
    r := 0;
    while r == 0 && (p1 < |s1| || p2 < |s2|)
      invariant 0 <= p1 <= |s1| && 0 <= p2 <= |s2|
      invariant r == 0 ==> Fit(Rest(s1, p1), Rest(s2, p2))
      invariant r == 0 ==> Compare(Rest(s1, p1), Rest(s2, p2)) == Compare(Components(s1), Components(s2))
      invariant r != 0 ==> r == Compare(Components(s1), Components(s2))
      decreases r == 0, |s1| - p1 + |s2| - p2
    {
      r, p1, p2 := CompareNext(s1, p1, s2, p2);
    }
    if r == 0 {
      NothingLeft(s1, p1, s2, p2);
    }
  }

  /** One round: the next component of both strings. */
  method CompareNext(s1: string, p1: nat, s2: string, p2: nat) returns (r: int, q1: nat, q2: nat)
    requires p1 <= |s1| && p2 <= |s2| && (p1 < |s1| || p2 < |s2|)
    requires Fit(Rest(s1, p1), Rest(s2, p2))
    ensures p1 <= q1 <= |s1| && p2 <= q2 <= |s2| && q1 + q2 > p1 + p2
    ensures r != 0 ==> r == Compare(Rest(s1, p1), Rest(s2, p2))
    ensures r == 0 ==> Compare(Rest(s1, q1), Rest(s2, q2)) == Compare(Rest(s1, p1), Rest(s2, p2))
    ensures r == 0 ==> Fit(Rest(s1, q1), Rest(s2, q2))
  {
    hide Components, Fit, Number, Step, Compare, Rest, Tail, NumberAt;
    StepAt(s1, p1);
    StepAt(s2, p2);
    CompareStep(Rest(s1, p1), Rest(s2, p2));
    FitStep(Rest(s1, p1), Rest(s2, p2));
    var v1, v2;
    v1, q1 := ReadComponent(s1, p1);
    v2, q2 := ReadComponent(s2, p2);
    r := if v1 > v2 then 1 else if v1 < v2 then -1 else 0;
  }

  lemma StartOf(s: string)
    ensures s[0..] == s && Rest(s, 0) == Components(s)
  {
    assert s[0..] == s;
  }

  lemma NothingLeft(s: string, p: nat, t: string, q: nat)
    requires p == |s| && q == |t|
    ensures Compare(Rest(s, p), Rest(t, q)) == 0
  {}

  lemma CompareStep(a: seq<nat>, b: seq<nat>)
    requires a != [] || b != []
    ensures Compare(a, b) == if NumberAt(a, 0) > NumberAt(b, 0) then 1
                             else if NumberAt(a, 0) < NumberAt(b, 0) then -1
                             else Compare(Tail(a), Tail(b))
  {}

  lemma FitStep(a: seq<nat>, b: seq<nat>)
    requires (a != [] || b != []) && Fit(a, b)
    ensures NumberAt(a, 0) <= INT_MAX && NumberAt(b, 0) <= INT_MAX
    ensures NumberAt(a, 0) == NumberAt(b, 0) ==> Fit(Tail(a), Tail(b))
  {}

  /** Advancing over one component drops the first number, or stays at the end. */
  lemma StepAt(s: string, p: nat)
    requires p <= |s|
    ensures Number(s[p..]) == NumberAt(Rest(s, p), 0)
    ensures Rest(s, p + Step(s[p..])) == Tail(Rest(s, p))
    ensures p < |s| ==> Step(s[p..]) > 0 && Rest(s, p) != []
    ensures p + Step(s[p..]) <= |s|
  {
    var t := s[p..];
    assert t[Step(t)..] == s[p + Step(t)..];
  }
}
