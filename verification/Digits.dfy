/** Positional numerals of any base, most significant digit first, and the change of base that keeps leading zeros. */
module Digits {
  import opened Arithmetic

  ghost predicate InBase(s: seq<nat>, b: nat) {
    forall i :: 0 <= i < |s| ==> s[i] < b
  }

  function Value(b: nat, s: seq<nat>): nat {
    if s == [] then 0 else Value(b, s[..|s| - 1]) * b + s[|s| - 1]
  }

  /** The shortest numeral of a number; none for 0. */
  function Numeral(b: nat, n: nat): seq<nat>
    requires b >= 2
  {
    if n == 0 then [] else
      QuotientSmaller(n, b);
      Numeral(b, n / b) + [n % b]
  }

  lemma QuotientSmaller(n: nat, b: nat)
    requires n > 0 && b >= 2
    ensures n / b < n
  {
    var q := n / b;
    assert n == b * q + n % b;
    assert b * q == 2 * q + (b - 2) * q;
    assert (b - 2) * q >= 0;
  }

  function Zeros(z: nat): seq<nat> {
    seq(z, _ => 0)
  }

  /** How many zeros a numeral starts with. */
  function Lead(s: seq<nat>): nat {
    if s != [] && s[0] == 0 then 1 + Lead(s[1..]) else 0
  }

  predicate NoLead(s: seq<nat>) {
    s == [] || s[0] != 0
  }

  lemma Shift(v: nat, b: nat, d: nat)
    requires d < b
    ensures (v * b + d) / b == v && (v * b + d) % b == d
  {
    DivUnique(v * b + d, b, v, d);
    assert v * b + d == b * ((v * b + d) / b) + (v * b + d) % b;
  }

  lemma {:induction false} NumeralShape(b: nat, n: nat)
    requires b >= 2
    ensures InBase(Numeral(b, n), b) && NoLead(Numeral(b, n))
  {
    if n > 0 {
      QuotientSmaller(n, b);
      NumeralShape(b, n / b);
      SmallNumeral(n, b);
    }
  }

  lemma SmallNumeral(n: nat, b: nat)
    requires n > 0 && b >= 2
    ensures n / b == 0 ==> n % b == n
  {
    assert n == b * (n / b) + n % b;
  }

  lemma DivMod(n: nat, b: nat)
    requires b > 0
    ensures n == n / b * b + n % b
  {
    assert n == b * (n / b) + n % b;
  }

  lemma {:induction false} ValueOfNumeral(b: nat, n: nat)
    requires b >= 2
    ensures Value(b, Numeral(b, n)) == n
  {
    if n > 0 {
      QuotientSmaller(n, b);
      var s := Numeral(b, n);
      assert s[..|s| - 1] == Numeral(b, n / b);
      ValueOfNumeral(b, n / b);
      DivMod(n, b);
    }
  }

  lemma {:induction false} ValuePositive(b: nat, s: seq<nat>)
    requires b >= 2 && s != [] && s[0] != 0
    ensures Value(b, s) > 0
  {
    var t := s[..|s| - 1];
    if t != [] {
      ValuePositive(b, t);
      MulAtLeast(b, Value(b, t));
    }
  }

  lemma {:induction false} NumeralOfValue(b: nat, s: seq<nat>)
    requires b >= 2 && InBase(s, b) && NoLead(s)
    ensures Numeral(b, Value(b, s)) == s
  {
    if s != [] {
      var t, d := s[..|s| - 1], s[|s| - 1];
      NumeralOfValue(b, t);
      Shift(Value(b, t), b, d);
      ValuePositive(b, s);
      assert s == t + [d];
    }
  }

  lemma {:induction false} ValueWithZeros(b: nat, z: nat, s: seq<nat>)
    ensures Value(b, Zeros(z) + s) == Value(b, s)
    decreases |s| + z
  {
    var u := Zeros(z) + s;
    if s != [] {
      assert u[..|u| - 1] == Zeros(z) + s[..|s| - 1];
      ValueWithZeros(b, z, s[..|s| - 1]);
    } else if z > 0 {
      assert u[..|u| - 1] == Zeros(z - 1) + s;
      ValueWithZeros(b, z - 1, s);
    }
  }

  lemma {:induction false} LeadWithZeros(z: nat, s: seq<nat>)
    requires NoLead(s)
    ensures Lead(Zeros(z) + s) == z
  {
    var u := Zeros(z) + s;
    if z == 0 {
      assert u == s;
    } else {
      assert u[1..] == Zeros(z - 1) + s;
      LeadWithZeros(z - 1, s);
    }
  }

  lemma {:induction false} Split(s: seq<nat>)
    ensures Lead(s) <= |s| && s == Zeros(Lead(s)) + s[Lead(s)..] && NoLead(s[Lead(s)..])
  {
    if s != [] && s[0] == 0 {
      Split(s[1..]);
      assert s[1..][Lead(s[1..])..] == s[Lead(s)..];
      assert Zeros(Lead(s)) == [0] + Zeros(Lead(s[1..]));
      assert s == [0] + s[1..];
    } else {
      assert s[0..] == s;
    }
  }

  /** The same number in another base, with as many leading zeros. */
  function Transcode(b: nat, c: nat, s: seq<nat>): seq<nat>
    requires c >= 2
  {
    Zeros(Lead(s)) + Numeral(c, Value(b, s))
  }

  lemma TranscodeShape(b: nat, c: nat, s: seq<nat>)
    requires c >= 2
    ensures InBase(Transcode(b, c, s), c)
    ensures Lead(Transcode(b, c, s)) == Lead(s) && Value(c, Transcode(b, c, s)) == Value(b, s)
  {
    var n := Value(b, s);
    NumeralShape(c, n);
    LeadWithZeros(Lead(s), Numeral(c, n));
    ValueWithZeros(c, Lead(s), Numeral(c, n));
    ValueOfNumeral(c, n);
  }

  /** Changing the base and back is the identity: the change of base is a bijection. */
  lemma TranscodeBack(b: nat, c: nat, s: seq<nat>)
    requires b >= 2 && c >= 2 && InBase(s, b)
    ensures Transcode(c, b, Transcode(b, c, s)) == s
  {
    TranscodeShape(b, c, s);
    Split(s);
    var rest := s[Lead(s)..];
    ValueWithZeros(b, Lead(s), rest);
    NumeralOfValue(b, rest);
  }

  // ---------------------------------------------------------------- magnitude

  function Pow(b: nat, k: nat): nat {
    if k == 0 then 1 else Pow(b, k - 1) * b
  }

  lemma PowZero(b: nat)
    ensures Pow(b, 0) == 1
  {
  }

  lemma {:induction false} ValueAppend(b: nat, s: seq<nat>, t: seq<nat>)
    ensures Value(b, s + t) == Value(b, s) * Pow(b, |t|) + Value(b, t)
  {
    var u := s + t;
    if t == [] {
      assert u == s;
    } else {
      var t0, d := t[..|t| - 1], t[|t| - 1];
      assert u[..|u| - 1] == s + t0;
      ValueAppend(b, s, t0);
      Distribute(Value(b, s), Pow(b, |t0|), b, Value(b, t0));
    }
  }

  lemma Distribute(v: nat, p: nat, b: nat, w: nat)
    ensures (v * p + w) * b == v * (p * b) + w * b
  {
  }

  lemma {:induction false} ValueBound(b: nat, s: seq<nat>)
    requires InBase(s, b)
    ensures Value(b, s) < Pow(b, |s|)
  {
    if s != [] {
      var t := s[..|s| - 1];
      ValueBound(b, t);
      Below(Value(b, t), Pow(b, |t|), b, s[|s| - 1]);
    }
  }

  lemma Below(v: nat, p: nat, b: nat, d: nat)
    requires v < p && d < b
    ensures v * b + d < p * b
  {
    MulAtLeast(b, p - v);
    assert b * (p - v) == p * b - v * b;
  }

  lemma MulOrder(a: nat, c: nat, p: nat)
    requires a <= c
    ensures a * p <= c * p
  {
    assert (c - a) * p == c * p - a * p;
    assert (c - a) * p >= 0;
  }
}
