/** Big numbers as byte strings: the sign-carrying MPI form, and the compact form of difficulty targets. */
module BigNum {
  import opened Digits

  function Reverse<T>(s: seq<T>): seq<T> {
    if s == [] then [] else Reverse(s[1..]) + [s[0]]
  }

  lemma {:induction false} ReverseAppend<T>(s: seq<T>, t: seq<T>)
    ensures Reverse(s + t) == Reverse(t) + Reverse(s)
  {
    if s == [] {
      assert s + t == t;
    } else {
      assert (s + t)[1..] == s[1..] + t;
      ReverseAppend(s[1..], t);
    }
  }

  lemma {:induction false} ReverseReverse<T>(s: seq<T>)
    ensures Reverse(Reverse(s)) == s && |Reverse(s)| == |s|
  {
    if s != [] {
      ReverseReverse(s[1..]);
      ReverseAppend(Reverse(s[1..]), [s[0]]);
      assert [s[0]][1..] == [];
    }
  }

  // ---------------------------------------------------------------- the MPI form

  /** Big endian, the top bit of the first byte being the sign. */
  function FromMpi(s: seq<nat>): int {
    if s == [] then 0
    else if s[0] >= 128 then 0 - Value(256, [s[0] - 128] + s[1..])
    else Value(256, s)
  }

  /** A zero byte goes first when the number itself would set the sign bit. */
  function ToMpi(n: nat): seq<nat> {
    var d := Numeral(256, n);
    if d != [] && d[0] >= 128 then [0] + d else d
  }

  /** The shortest MPI of a non-negative number. */
  ghost predicate Canonical(s: seq<nat>) {
    InBase(s, 256) && (s != [] ==> s[0] < 128 && (s[0] != 0 || (|s| >= 2 && s[1] >= 128)))
  }

  lemma MpiBack(n: nat)
    ensures FromMpi(ToMpi(n)) == n && Value(256, ToMpi(n)) == n && Canonical(ToMpi(n))
  {
    var d := Numeral(256, n);
    NumeralShape(256, n);
    ValueOfNumeral(256, n);
    ValueWithZeros(256, 1, d);
    assert Zeros(1) == [0];
  }

  lemma MpiOfValue(s: seq<nat>)
    requires Canonical(s)
    ensures ToMpi(Value(256, s)) == s && FromMpi(s) == Value(256, s)
  {
    if s != [] && s[0] == 0 {
      assert s == Zeros(1) + s[1..];
      ValueWithZeros(256, 1, s[1..]);
      NumeralOfValue(256, s[1..]);
    } else {
      NumeralOfValue(256, s);
    }
  }

  /** Little-endian bytes to number. */
  function SetVch(vch: seq<nat>): int {
    FromMpi(Reverse(vch))
  }

  /** The first byte with its top bit set. */
  function SetSign(s: seq<nat>): seq<nat> {
    if s == [] then s else [s[0] + 128] + s[1..]
  }

  /** Any number: its magnitude, with the sign bit set if it is negative. */
  function SignedMpi(n: int): seq<nat> {
    if n >= 0 then ToMpi(n) else SetSign(ToMpi(0 - n))
  }

  /** Setting the sign bit negates. */
  lemma SetSignNegates(s: seq<nat>)
    requires InBase(s, 256) && (s != [] ==> s[0] < 128)
    ensures InBase(SetSign(s), 256) && FromMpi(SetSign(s)) == 0 - FromMpi(s)
  {
    hide Value;
    if s != [] {
      assert [SetSign(s)[0] - 128] + SetSign(s)[1..] == s;
    }
  }

  lemma SignedMpiBack(n: int)
    ensures InBase(SignedMpi(n), 256) && FromMpi(SignedMpi(n)) == n
  {
    var m := if n >= 0 then n else 0 - n;
    MpiBack(m);
    SetSignNegates(ToMpi(m));
  }

  /** Number to little-endian bytes. */
  function GetVch(n: int): seq<nat> {
    Reverse(SignedMpi(n))
  }

  lemma VchBack(n: int)
    ensures SetVch(GetVch(n)) == n
  {
    SignedMpiBack(n);
    ReverseReverse(SignedMpi(n));
  }

  // ---------------------------------------------------------------- the compact form

  const TOP: nat := 0x100_0000

  /** The three bytes after the length: the first ones of the MPI, zeros where there are fewer. */
  function Leading(s: seq<nat>): seq<nat> {
    if |s| >= 3 then s[..3] else s + Zeros(3 - |s|)
  }

  /** Length in the top byte of 32 bits, then the leading three bytes. */
  function GetCompact(n: int): nat {
    var s := SignedMpi(n);
    |s| % 0x100 * TOP + Value(256, Leading(s))
  }

  /** The length fits its byte. */
  predicate Compactable(n: nat) {
    |ToMpi(n)| <= 255
  }

  function Bytes3(m: nat): seq<nat> {
    [m / 0x1_0000, m / 0x100 % 0x100, m % 0x100]
  }

  /** As many bytes as the length says, the first three given, the rest zero. */
  function Buffer(nSize: nat, b: seq<nat>): seq<nat>
    requires |b| == 3
  {
    if nSize <= 3 then b[..nSize] else b + Zeros(nSize - 3)
  }

  function SetCompact(c: nat): int {
    FromMpi(Buffer(c / TOP, Bytes3(c % TOP)))
  }

  lemma Value3(a: nat, b: nat, c: nat)
    ensures Value(256, [a, b, c]) == a * 0x1_0000 + b * 0x100 + c
  {
    assert [a, b, c][..2] == [a, b] && [a, b][..1] == [a] && [a][..0] == [];
    assert Value(256, [a]) == a;
    assert Value(256, [a, b]) == a * 256 + b;
  }

  lemma Bytes3Back(t: seq<nat>)
    requires |t| == 3 && InBase(t, 256)
    ensures Value(256, t) < TOP && Bytes3(Value(256, t)) == t
  {
    assert t == [t[0], t[1], t[2]];
    Value3(t[0], t[1], t[2]);
    Split3(t[0], t[1], t[2]);
  }

  lemma Split3(a: nat, b: nat, c: nat)
    requires a < 256 && b < 256 && c < 256
    ensures Bytes3(a * 0x1_0000 + b * 0x100 + c) == [a, b, c]
  {
    var m := a * 0x1_0000 + b * 0x100 + c;
    Shift(a * 0x100 + b, 0x100, c);
    Shift(a, 0x100, b);
    Shift(a, 0x1_0000, b * 0x100 + c);
  }

  lemma LeadingShape(s: seq<nat>)
    requires InBase(s, 256)
    ensures |Leading(s)| == 3 && InBase(Leading(s), 256)
  {
  }

  /** What expanding a compact form reads: the MPI with all but its first three bytes cleared. */
  function Truncated(s: seq<nat>): seq<nat> {
    if |s| <= 3 then s else s[..3] + Zeros(|s| - 3)
  }

  lemma ExpandBuffer(n: int)
    ensures |Leading(SignedMpi(n))| == 3 && InBase(Leading(SignedMpi(n)), 256)
    ensures SetCompact(GetCompact(n)) == FromMpi(Buffer(|SignedMpi(n)| % 0x100, Leading(SignedMpi(n))))
  {
    hide Value, FromMpi;
    var s := SignedMpi(n);
    SignedMpiBack(n);
    LeadingShape(s);
    Bytes3Back(Leading(s));
    Shift(|s| % 0x100, TOP, Value(256, Leading(s)));
  }

  /** The compact form carries the sign along: a negated number comes back as the negated result, at every length. */
  lemma CompactNegates(n: int)
    ensures SetCompact(GetCompact(0 - n)) == 0 - SetCompact(GetCompact(n))
  {
    hide SetCompact, GetCompact;
    if n < 0 {
      NegativeExpands(0 - n);
    } else if n > 0 {
      NegativeExpands(n);
    } else {
      ZeroExpands();
    }
  }

  lemma ZeroExpands()
    ensures SetCompact(GetCompact(0)) == 0
  {
    hide SetCompact, GetCompact;
    ExpandBuffer(0);
    assert SignedMpi(0) == [];
  }

  lemma NegativeExpands(n: nat)
    requires n > 0
    ensures SetCompact(GetCompact(0 - n)) == 0 - SetCompact(GetCompact(n))
  {
    hide Value, SetCompact, GetCompact, ToMpi, FromMpi;
    var s := ToMpi(n);
    MpiBack(n);
    EmptyMpi();
    ExpandBuffer(n);
    ExpandBuffer(0 - n);
    var b := Buffer(|s| % 0x100, Leading(s));
    LeadingSign(s);
    BufferSign(|s| % 0x100, Leading(s));
    SetSignNegates(b);
  }

  lemma LeadingSign(s: seq<nat>)
    requires s != []
    ensures Leading(SetSign(s)) == SetSign(Leading(s))
  {
    assert |s| < 3 ==> (s + Zeros(3 - |s|))[1..] == s[1..] + Zeros(3 - |s|);
  }

  lemma BufferSign(nSize: nat, t: seq<nat>)
    requires |t| == 3
    ensures Buffer(nSize, SetSign(t)) == SetSign(Buffer(nSize, t))
  {
    assert t == [t[0], t[1], t[2]] && SetSign(t) == [t[0] + 128, t[1], t[2]];
    if nSize > 3 {
      assert (t + Zeros(nSize - 3))[1..] == t[1..] + Zeros(nSize - 3);
    } else if nSize > 0 {
      assert t[..nSize][1..] == t[1..nSize];
    }
  }

  lemma EmptyMpi()
    ensures FromMpi([]) == 0
  {
  }

  lemma ExpandReadsTruncated(n: nat)
    requires Compactable(n)
    ensures SetCompact(GetCompact(n)) == Value(256, Truncated(ToMpi(n)))
    ensures Canonical(Truncated(ToMpi(n)))
  {
    var s := ToMpi(n);
    MpiBack(n);
    ExpandBuffer(n);
    hide Value;
    assert Buffer(|s|, Leading(s)) == Truncated(s);
    MpiOfValue(Truncated(s));
  }

  /** The weight of the bytes the compact form drops. */
  function Unit(s: seq<nat>): nat {
    Pow(256, if |s| <= 3 then 0 else |s| - 3)
  }

  lemma ZerosValue(k: nat)
    ensures Value(256, Zeros(k)) == 0
  {
    ValueWithZeros(256, k, []);
    assert Zeros(k) + [] == Zeros(k);
  }

  lemma TruncatedValue(s: seq<nat>)
    requires InBase(s, 256)
    ensures Value(256, Truncated(s)) <= Value(256, s) < Value(256, Truncated(s)) + Unit(s)
    ensures |s| >= 3 ==> Value(256, Truncated(s)) == Value(256, s[..3]) * Unit(s)
  {
    hide Value, Pow;
    assert Pow(256, 0) == 1 by { PowZero(256); }
    if |s| == 3 {
      assert s[..3] == s;
    } else if |s| > 3 {
      assert s == s[..3] + s[3..];
      ValueAppend(256, s[..3], s[3..]);
      ValueBound(256, s[3..]);
      ValueAppend(256, s[..3], Zeros(|s| - 3));
      ZerosValue(|s| - 3);
    }
  }

  /** Rounded down, by less than one part in 2^15. */
  predicate Close(n: nat, r: int) {
    0 <= r <= n && (n - r) * 0x8000 < n
  }

  lemma CompactRoundsDown(n: nat)
    requires n > 0 && Compactable(n)
    ensures Close(n, SetCompact(GetCompact(n)))
  {
    var s := ToMpi(n);
    MpiBack(n);
    ExpandReadsTruncated(n);
    TruncatedValue(s);
    if |s| > 3 {
      var a := Value(256, s[..3]);
      assert s[..3] == [s[0], s[1], s[2]];
      Value3(s[0], s[1], s[2]);
      assert a >= 0x8000;
      MulOrder(0x8000, a, Unit(s));
    }
  }

  /** A second round trip changes nothing. */
  lemma CompactStable(n: nat)
    requires Compactable(n)
    ensures SetCompact(GetCompact(n)) >= 0
    ensures GetCompact(SetCompact(GetCompact(n))) == GetCompact(n)
  {
    var s := ToMpi(n);
    ExpandReadsTruncated(n);
    MpiOfValue(Truncated(s));
    assert Leading(Truncated(s)) == Leading(s);
  }

  // ---------------------------------------------------------------- order

  /** The length says between which powers the number lies. */
  lemma MpiSize(n: nat)
    ensures var k := |ToMpi(n)|;
            && (k == 0 <==> n == 0)
            && (k >= 1 ==> n < 128 * Pow(256, k - 1))
            && (k >= 2 ==> n >= 128 * Pow(256, k - 2))
  {
    var s := ToMpi(n);
    var k := |s|;
    MpiBack(n);
    if k >= 1 {
      assert s == [s[0]] + s[1..];
      ValueAppend(256, [s[0]], s[1..]);
      ValueBound(256, s[1..]);
      assert [s[0]][..0] == [];
      assert Value(256, [s[0]]) == s[0];
      MulOrder(s[0] + 1, 128, Pow(256, k - 1));
      Plus1(s[0], Pow(256, k - 1));
    }
    if k >= 2 {
      var p := Pow(256, k - 2);
      var t := [s[0], s[1]];
      assert s == t + s[2..];
      ValueAppend(256, t, s[2..]);
      assert t[..1] == [s[0]] && [s[0]][..0] == [];
      assert Value(256, t) == s[0] * 256 + s[1];
      MulOrder(128, Value(256, t), p);
    }
    if k == 0 { assert Value(256, s) == 0; }
  }

  lemma Plus1(a: nat, p: nat)
    ensures (a + 1) * p == a * p + p
  {
  }

  lemma {:induction false} PowGrows(i: nat, j: nat)
    requires i <= j
    ensures Pow(256, i) <= Pow(256, j)
  {
    if i < j { PowGrows(i, j - 1); }
  }

  lemma SizeMonotone(n: nat, m: nat)
    requires n <= m
    ensures |ToMpi(n)| <= |ToMpi(m)|
  {
    var j, k := |ToMpi(m)|, |ToMpi(n)|;
    MpiSize(n);
    MpiSize(m);
    if 1 <= j < k { PowGrows(j - 1, k - 2); }
  }

  lemma LeadingMonotone(n: nat, m: nat)
    requires n <= m && |ToMpi(n)| == |ToMpi(m)|
    ensures Value(256, Leading(ToMpi(n))) <= Value(256, Leading(ToMpi(m)))
  {
    var s, t := ToMpi(n), ToMpi(m);
    MpiBack(n);
    MpiBack(m);
    if |s| >= 3 {
      TruncatedValue(s);
      TruncatedValue(t);
      var a, b := Value(256, s[..3]), Value(256, t[..3]);
      if a > b {
        MulOrder(b + 1, a, Unit(s));
        Plus1(b, Unit(s));
      }
    } else {
      ValueAppend(256, s, Zeros(3 - |s|));
      ValueAppend(256, t, Zeros(3 - |s|));
      MulOrder(n, m, Pow(256, 3 - |s|));
    }
  }

  /** Larger numbers have larger compact forms. */
  lemma CompactMonotone(n: nat, m: nat)
    requires n <= m && Compactable(m)
    ensures GetCompact(n) <= GetCompact(m)
  {
    hide Value, ToMpi;
    var s, t := ToMpi(n), ToMpi(m);
    SizeMonotone(n, m);
    MpiBack(n);
    LeadingShape(s);
    Bytes3Back(Leading(s));
    if |s| == |t| { LeadingMonotone(n, m); }
  }

  // ---------------------------------------------------------------- where the compact form stops working

  lemma MpiBound(s: seq<nat>)
    requires InBase(s, 256)
    ensures FromMpi(s) < Pow(256, |s|)
  {
    hide Value, Pow;
    PowPositive(|s|);
    ValueBound(256, s);
  }

  lemma {:induction false} PowPositive(k: nat)
    ensures Pow(256, k) > 0
  {
    if k > 0 { PowPositive(k - 1); }
  }

  /** With more than 255 bytes the length wraps, and what comes back is not close. */
  lemma LongFormsAreLost(n: nat)
    requires !Compactable(n)
    ensures !Close(n, SetCompact(GetCompact(n)))
  {
    hide Value, Pow, FromMpi, SetCompact, GetCompact, ToMpi;
    var k, w := |ToMpi(n)|, |ToMpi(n)| % 0x100;
    ExpandBuffer(n);
    MpiBound(Buffer(w, Leading(ToMpi(n))));
    MpiSize(n);
    PowGrows(w, k - 2);
  }

  /** Compact-then-expand is close exactly for the numbers of at most 255 bytes. */
  lemma CompactCloseIff(n: nat)
    requires n > 0
    ensures Close(n, SetCompact(GetCompact(n))) <==> Compactable(n)
  {
    if Compactable(n) { CompactRoundsDown(n); } else { LongFormsAreLost(n); }
  }
}
