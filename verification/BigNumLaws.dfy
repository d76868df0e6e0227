/** What the byte forms of big numbers mean, in powers and bit fields. */
module BigNumLaws {
  import opened Arithmetic
  import opened BigNum
  import opened Digits

  // ---------------------------------------------------------------- bytes

  /** Little endian, every byte a digit. */
  ghost function Unsigned(vch: seq<nat>): nat {
    if vch == [] then 0 else vch[0] + 0x100 * Unsigned(vch[1..])
  }

  lemma {:induction false} ReverseValue(vch: seq<nat>)
    ensures Value(256, Reverse(vch)) == Unsigned(vch)
  {
    if vch != [] {
      var t := Reverse(vch[1..]);
      ReverseValue(vch[1..]);
      assert (t + [vch[0]])[..|t|] == t;
    }
  }

  /** The sign bit has the weight of the top bit of all the bytes. */
  lemma MpiMeaning(s: seq<nat>)
    requires InBase(s, 256) && s != []
    ensures var v, w := Value(256, s), 128 * Pow(256, |s| - 1);
            FromMpi(s) == if v >= w then w - v else v
  {
    hide Value, Pow;
    var p, rest := Pow(256, |s| - 1), s[1..];
    assert s == [s[0]] + rest;
    OneDigit(s[0]);
    ValueAppend(256, [s[0]], rest);
    ValueBound(256, rest);
    TopBit(s[0], p, Value(256, rest));
    if s[0] >= 128 {
      OneDigit(s[0] - 128);
      ValueAppend(256, [s[0] - 128], rest);
    }
  }

  lemma TopBit(d: nat, p: nat, v: nat)
    requires v < p
    ensures d * p + v >= 128 * p <==> d >= 128
    ensures d >= 128 ==> (d - 128) * p == d * p - 128 * p
  {
    if d >= 128 {
      MulOrder(128, d, p);
    } else {
      MulOrder(d + 1, 128, p);
      Plus1(d, p);
    }
  }

  lemma OneDigit(d: nat)
    ensures Value(256, [d]) == d
  {
    assert [d][..0] == [];
  }

  lemma TwoDigits(d: nat, e: nat)
    ensures Value(256, [d, e]) == d * 256 + e
  {
    assert [d, e][..1] == [d];
    OneDigit(d);
  }

  /** A byte string is its little-endian number, less the sign bit, which is the top bit of the last byte. */
  lemma VchMeaning(vch: seq<nat>)
    requires InBase(vch, 256) && vch != []
    ensures var w := 128 * Pow(256, |vch| - 1);
            SetVch(vch) == if Unsigned(vch) >= w then w - Unsigned(vch) else Unsigned(vch)
  {
    ReverseValue(vch);
    ReverseBytes(vch);
    ReverseReverse(vch);
    MpiMeaning(Reverse(vch));
  }

  lemma {:induction false} ReverseBytes(vch: seq<nat>)
    requires InBase(vch, 256)
    ensures InBase(Reverse(vch), 256)
  {
    if vch != [] { ReverseBytes(vch[1..]); }
  }

  // ---------------------------------------------------------------- expanding

  /** The mantissa shifted by whole bytes to a length of k bytes. */
  ghost function Shifted(m: nat, k: nat): nat {
    if k >= 3 then m * Pow(256, k - 3)
    else if k == 2 then m / 0x100
    else if k == 1 then m / 0x1_0000
    else 0
  }

  lemma Bytes3Value(m: nat)
    requires m < 0x100_0000
    ensures InBase(Bytes3(m), 256) && Value(256, Bytes3(m)) == m
  {
    Value3(m / 0x1_0000, m / 0x100 % 0x100, m % 0x100);
  }

  lemma PowStep(k: nat)
    requires k >= 3
    ensures Pow(256, k - 1) == 0x1_0000 * Pow(256, k - 3)
  {
    assert Pow(256, k - 1) == Pow(256, k - 2) * 256;
    assert Pow(256, k - 2) == Pow(256, k - 3) * 256;
  }

  lemma LongBuffer(k: nat, m: nat)
    requires m < 0x100_0000 && k >= 3
    ensures FromMpi(Buffer(k, Bytes3(m))) == if m >= 0x80_0000 then 0 - Shifted(m - 0x80_0000, k) else Shifted(m, k)
  {
    hide FromMpi, Value, Pow;
    var b, p := Bytes3(m), Pow(256, k - 3);
    Bytes3Value(m);
    ValueAppend(256, b, Zeros(k - 3));
    ZerosValue(k - 3);
    assert Buffer(k, b) == b + Zeros(k - 3);
    MpiMeaning(Buffer(k, b));
    PowStep(k);
    PowPositive(k - 3);
    SignWeight(m, p);
  }

  lemma ShortBuffer(k: nat, m: nat)
    requires m < 0x100_0000 && 1 <= k <= 2
    ensures FromMpi(Buffer(k, Bytes3(m))) == if m >= 0x80_0000 then 0 - Shifted(m - 0x80_0000, k) else Shifted(m, k)
  {
    hide FromMpi, Value, Pow;
    var b := Bytes3(m);
    Bytes3Value(m);
    SmallPowers();
    if k == 2 {
      assert Buffer(k, b) == [b[0], b[1]];
      TwoDigits(b[0], b[1]);
      assert b[0] * 256 + b[1] == m / 0x100;
    } else {
      assert Buffer(k, b) == [b[0]];
      OneDigit(b[0]);
    }
    MpiMeaning(Buffer(k, b));
  }

  /** A buffer reads as the three bytes shifted to its length, the top one of their 24 bits negating. */
  lemma BufferMeaning(k: nat, m: nat)
    requires m < 0x100_0000
    ensures FromMpi(Buffer(k, Bytes3(m))) == if m >= 0x80_0000 then 0 - Shifted(m - 0x80_0000, k) else Shifted(m, k)
  {
    hide FromMpi;
    if k >= 3 {
      LongBuffer(k, m);
    } else if k >= 1 {
      ShortBuffer(k, m);
    } else {
      assert Buffer(k, Bytes3(m)) == [];
      EmptyMpi();
    }
  }

  lemma SmallPowers()
    ensures Pow(256, 0) == 1 && Pow(256, 1) == 0x100 && Pow(256, 2) == 0x1_0000 && Pow(256, 3) == 0x100_0000
  {
    assert Pow(256, 1) == Pow(256, 0) * 256;
    assert Pow(256, 2) == Pow(256, 1) * 256;
    assert Pow(256, 3) == Pow(256, 2) * 256;
  }

  lemma SignWeight(m: nat, p: nat)
    requires p > 0
    ensures m * p >= 128 * (0x1_0000 * p) <==> m >= 0x80_0000
    ensures m >= 0x80_0000 ==> 128 * (0x1_0000 * p) - m * p == 0 - (m - 0x80_0000) * p
  {
    assert 128 * (0x1_0000 * p) == 0x80_0000 * p;
    if m >= 0x80_0000 {
      MulOrder(0x80_0000, m, p);
    } else {
      MulOrder(m + 1, 0x80_0000, p);
      Plus1(m, p);
    }
  }

  lemma SignAndMantissa(c: nat)
    ensures var m := c % 0x100_0000;
            && (m >= 0x80_0000 <==> c / 0x80_0000 % 2 == 1)
            && c % 0x80_0000 == if m >= 0x80_0000 then m - 0x80_0000 else m
  {
    var q := c / 0x100_0000;
    assert c == q * 0x100_0000 + c % 0x100_0000;
  }

  /** 8 bits of length, 1 of sign and 23 of mantissa: the mantissa shifted to the length, negated under the sign. */
  lemma ExpandMeaning(c: nat)
    ensures var size, negative, mantissa := c / 0x100_0000, c / 0x80_0000 % 2 == 1, c % 0x80_0000;
            SetCompact(c) == if negative then 0 - Shifted(mantissa, size) else Shifted(mantissa, size)
  {
    hide Shifted, FromMpi, Buffer, Bytes3;
    SignAndMantissa(c);
    BufferMeaning(c / 0x100_0000, c % 0x100_0000);
  }

  // ---------------------------------------------------------------- compacting

  /** k bytes are as few as hold the magnitude a and a sign bit. */
  ghost predicate IsLength(a: nat, k: nat) {
    && (k == 0 <==> a == 0)
    && (k >= 1 ==> a < 128 * Pow(256, k - 1))
    && (k >= 2 ==> a >= 128 * Pow(256, k - 2))
  }

  lemma LengthUnique(a: nat, j: nat, k: nat)
    requires IsLength(a, j) && IsLength(a, k)
    ensures j == k
  {
    if 1 <= j < k { PowGrows(j - 1, k - 2); }
    if 1 <= k < j { PowGrows(k - 1, j - 2); }
  }

  /** The leading three bytes are the number shifted, and leave the sign bit free. */
  lemma LeadingMeaning(a: nat)
    ensures var k, m := |ToMpi(a)|, Value(256, Leading(ToMpi(a)));
            && IsLength(a, k) && m < 0x80_0000
            && (k >= 3 ==> Pow(256, k - 3) > 0 && m == a / Pow(256, k - 3))
            && (k < 3 ==> m == a * Pow(256, 3 - k))
  {
    hide ToMpi, Pow, Value;
    var s := ToMpi(a);
    var t, k := Leading(s), |s|;
    MpiBack(a);
    MpiSize(a);
    LeadingShape(s);
    assert t == [t[0], t[1], t[2]];
    Value3(t[0], t[1], t[2]);
    assert s != [] ==> t[0] == s[0];
    if k >= 3 {
      assert s == s[..3] + s[3..];
      ValueAppend(256, s[..3], s[3..]);
      ValueBound(256, s[3..]);
      PowPositive(k - 3);
      DivUnique(a, Pow(256, k - 3), Value(256, t), Value(256, s[3..]));
    } else {
      ValueAppend(256, s, Zeros(3 - k));
      ZerosValue(3 - k);
    }
  }

  /** The sign bit is the top one of the leading 24. */
  lemma LeadingOf(n: int)
    ensures var a := if n < 0 then 0 - n else n;
            && |SignedMpi(n)| == |ToMpi(a)|
            && Value(256, Leading(SignedMpi(n))) == Value(256, Leading(ToMpi(a))) + if n < 0 then 0x80_0000 else 0
  {
    hide ToMpi, Value;
    if n < 0 {
      var s := ToMpi(0 - n);
      MpiSize(0 - n);
      LeadingSign(s);
      var t := Leading(s);
      assert t == [t[0], t[1], t[2]] && SetSign(t) == [t[0] + 128, t[1], t[2]];
      Value3(t[0], t[1], t[2]);
      Value3(t[0] + 128, t[1], t[2]);
    }
  }

  /** 32 bits: the length modulo 256, the sign, and the leading 23 bits of the magnitude at that length. */
  lemma CompactMeaning(n: int, k: nat)
    requires IsLength(if n < 0 then 0 - n else n, k)
    ensures var a, c := if n < 0 then 0 - n else n, GetCompact(n);
            && c < 0x1_0000_0000
            && c / 0x100_0000 == k % 0x100
            && (c / 0x80_0000 % 2 == 1 <==> n < 0)
            && (k >= 3 ==> Pow(256, k - 3) > 0 && c % 0x80_0000 == a / Pow(256, k - 3))
            && (k < 3 ==> c % 0x80_0000 == a * Pow(256, 3 - k))
  {
    hide ToMpi, SignedMpi, Leading, Value, Pow, IsLength;
    var a := if n < 0 then 0 - n else n;
    LeadingMeaning(a);
    LengthUnique(a, k, |ToMpi(a)|);
    LeadingOf(n);
    Fields(k % 0x100, n < 0, Value(256, Leading(ToMpi(a))));
  }

  lemma Fields(size: nat, negative: bool, m: nat)
    requires size < 0x100 && m < 0x80_0000
    ensures var c := size * 0x100_0000 + m + if negative then 0x80_0000 else 0;
            c / 0x100_0000 == size && (c / 0x80_0000 % 2 == 1 <==> negative) && c % 0x80_0000 == m && c < 0x1_0000_0000
  {
  }

  /** Every number has such a length, and its compact form is of 32 bits. */
  lemma CompactFits(n: int)
    ensures GetCompact(n) < 0x1_0000_0000
    ensures exists k: nat :: IsLength(if n < 0 then 0 - n else n, k) && GetCompact(n) / 0x100_0000 == k % 0x100
  {
    var a := if n < 0 then 0 - n else n;
    MpiSize(a);
    CompactMeaning(n, |ToMpi(a)|);
  }
}
