/** Base58 text: the change of base between bytes and the 58-letter alphabet, and the forms with a checksum. */
module Base58 {
  import opened Options
  import opened Digits
  import opened BigNum

  type Bytes = seq<nat>

  // ---------------------------------------------------------------- the alphabet

  /** 1-9, A-Z without I and O, a-z without l. */
  function CharOf(d: nat): char
    requires d < 58
  {
    if d < 9 then (d + 49) as char
    else if d < 17 then (d - 9 + 65) as char
    else if d < 22 then (d - 17 + 74) as char
    else if d < 33 then (d - 22 + 80) as char
    else if d < 44 then (d - 33 + 97) as char
    else (d - 44 + 109) as char
  }

  /** The place of a character in the alphabet. */
  function DigitOf(c: char): Option<nat> {
    var k := c as int;
    if 49 <= k < 58 then Some(k - 49)
    else if 65 <= k < 73 then Some(k - 65 + 9)
    else if 74 <= k < 79 then Some(k - 74 + 17)
    else if 80 <= k < 91 then Some(k - 80 + 22)
    else if 97 <= k < 108 then Some(k - 97 + 33)
    else if 109 <= k < 123 then Some(k - 109 + 44)
    else None
  }

  predicate IsSpace(c: char) {
    c == ' ' || 9 <= c as int <= 13
  }

  lemma AlphabetInverse(d: nat, c: char)
    ensures d < 58 ==> DigitOf(CharOf(d)) == Some(d)
    ensures DigitOf(c).Some? ==> DigitOf(c).value < 58 && CharOf(DigitOf(c).value) == c && !IsSpace(c)
    ensures DigitOf(c) == Some(0) <==> c == '1'
  {
  }

  function Spell(ds: seq<nat>): string
    requires InBase(ds, 58)
  {
    if ds == [] then [] else Spell(ds[..|ds| - 1]) + [CharOf(ds[|ds| - 1])]
  }

  /** Only letters of the alphabet. */
  ghost predicate Lettered(s: string) {
    forall i :: 0 <= i < |s| ==> DigitOf(s[i]).Some?
  }

  function Unspell(s: string): seq<nat>
    requires Lettered(s)
  {
    if s == [] then [] else Unspell(s[..|s| - 1]) + [DigitOf(s[|s| - 1]).value]
  }

  lemma {:induction false} SpellBack(ds: seq<nat>)
    requires InBase(ds, 58)
    ensures Lettered(Spell(ds)) && Unspell(Spell(ds)) == ds && |Spell(ds)| == |ds|
  {
    hide CharOf, DigitOf;
    if ds != [] {
      var init, d := ds[..|ds| - 1], ds[|ds| - 1];
      SpellBack(init);
      AlphabetInverse(d, CharOf(d));
      var s := Spell(ds);
      assert s[..|s| - 1] == Spell(init);
      assert ds == init + [d];
    }
  }

  lemma {:induction false} UnspellBack(s: string)
    requires Lettered(s)
    ensures InBase(Unspell(s), 58) && Spell(Unspell(s)) == s && |Unspell(s)| == |s|
  {
    hide CharOf, DigitOf;
    if s != [] {
      var init, c := s[..|s| - 1], s[|s| - 1];
      UnspellBack(init);
      AlphabetInverse(0, c);
      var ds := Unspell(s);
      assert ds[..|ds| - 1] == Unspell(init);
      assert s == init + [c];
    }
  }

  lemma {:induction false} SpellAppend(a: seq<nat>, b: seq<nat>)
    requires InBase(a, 58) && InBase(b, 58)
    ensures InBase(a + b, 58) && Spell(a + b) == Spell(a) + Spell(b)
  {
    hide CharOf;
    var ab := a + b;
    if b == [] {
      assert ab == a;
    } else {
      assert ab[..|ab| - 1] == a + b[..|b| - 1];
      SpellAppend(a, b[..|b| - 1]);
    }
  }

  // ---------------------------------------------------------------- encoding

  lemma PositiveFromBytes(bytes: Bytes)
    requires InBase(bytes, 256)
    ensures SetVch(Reverse(bytes) + [0]) == Value(256, bytes)
  {
    ReverseAppend(Reverse(bytes), [0]);
    ReverseReverse(bytes);
    var zero: seq<nat> := [0];
    assert zero[1..] == [] && Reverse(zero) == zero;
    assert Zeros(1) == zero;
    ValueWithZeros(256, 1, bytes);
  }

  function Encoded(bytes: Bytes): string {
    TranscodeShape(256, 58, bytes);
    Spell(Transcode(256, 58, bytes))
  }

  /** One more digit of the numeral, from the low end. */
  lemma NumeralLowDigit(bn: nat)
    requires bn > 0
    ensures InBase(Numeral(58, bn), 58) && InBase(Numeral(58, bn / 58), 58)
    ensures Spell(Numeral(58, bn)) == Spell(Numeral(58, bn / 58)) + [CharOf(bn % 58)]
  {
    NumeralShape(58, bn);
    NumeralShape(58, bn / 58);
    var s := Numeral(58, bn);
    assert s[..|s| - 1] == Numeral(58, bn / 58);
  }

  lemma {:induction false} SpellZeros(z: nat)
    ensures InBase(Zeros(z), 58) && Spell(Zeros(z)) == seq(z, _ => '1') && Reverse(seq(z, _ => '1')) == seq(z, _ => '1')
  {
    if z > 0 {
      SpellZeros(z - 1);
      assert Zeros(z)[..z - 1] == Zeros(z - 1);
      assert CharOf(0) == '1';
      var ones, fewer := seq(z, _ => '1'), seq(z - 1, _ => '1');
      assert ones == fewer + ['1'] && ones[1..] == fewer;
    }
  }

  /** The division loop: the digits of a number, lowest first. */
  method DigitLoop(n: nat) returns (str: string)
    ensures InBase(Numeral(58, n), 58) && Reverse(str) == Spell(Numeral(58, n))
  {
    hide Spell, Numeral;
    var bn := n;
    str := [];
    NumeralShape(58, n);
    NumeralOfZero();
    while bn > 0
      invariant InBase(Numeral(58, bn), 58)
      invariant Spell(Numeral(58, n)) == Spell(Numeral(58, bn)) + Reverse(str)
    {
      NumeralLowDigit(bn);
      ReverseAppend(str, [CharOf(bn % 58)]);
      assert [CharOf(bn % 58)][1..] == [];
      str := str + [CharOf(bn % 58)];
      bn := bn / 58;
    }
  }

  lemma NumeralOfZero()
    ensures Numeral(58, 0) == [] && Spell([]) == []
  {
  }

  method LeadingZeros(bytes: Bytes) returns (z: nat)
    ensures z == Lead(bytes)
  {
    z := 0;
    assert bytes[0..] == bytes;
    while z < |bytes| && bytes[z] == 0
      invariant 0 <= z <= |bytes| && Lead(bytes) == z + Lead(bytes[z..])
    {
      assert bytes[z..][1..] == bytes[z + 1..];
      z := z + 1;
    }
  }

  method EncodeBase58(bytes: Bytes) returns (str: string)
    requires InBase(bytes, 256)
    ensures str == Encoded(bytes)
  {
    hide Spell, Numeral, SetVch, Value, Lead, Reverse;
    PositiveFromBytes(bytes);
    var bn := SetVch(Reverse(bytes) + [0]);
    str := DigitLoop(bn);
    var z := LeadingZeros(bytes);
    var ones := seq(z, _ => '1');
    SpellZeros(z);
    ReverseAppend(str, ones);
    SpellAppend(Zeros(z), Numeral(58, bn));
    str := Reverse(str + ones);
  }

  // ---------------------------------------------------------------- decoding

  function LeadSpaces(s: string): nat {
    if s != [] && IsSpace(s[0]) then 1 + LeadSpaces(s[1..]) else 0
  }

  function LeadLetters(s: string): nat {
    if s != [] && DigitOf(s[0]).Some? then 1 + LeadLetters(s[1..]) else 0
  }

  lemma {:induction false} LeadsFit(s: string)
    ensures LeadSpaces(s) <= |s| && (forall i :: 0 <= i < LeadSpaces(s) ==> IsSpace(s[i]))
    ensures LeadSpaces(s) < |s| ==> !IsSpace(s[LeadSpaces(s)])
    ensures LeadLetters(s) <= |s| && Lettered(s[..LeadLetters(s)])
    ensures LeadLetters(s) < |s| ==> DigitOf(s[LeadLetters(s)]).None?
  {
    if s != [] { LeadsFit(s[1..]); }
  }

  /** What is left of a text after its leading space. */
  function Trimmed(s: string): string {
    LeadsFit(s);
    s[LeadSpaces(s)..]
  }

  function Body(s: string): (b: string)
    ensures Lettered(b)
  {
    LeadsFit(Trimmed(s));
    Trimmed(s)[..LeadLetters(Trimmed(s))]
  }

  /** After the letters only space may follow. */
  predicate Accepted(s: string) {
    LeadsFit(Trimmed(s));
    var rest := Trimmed(s)[LeadLetters(Trimmed(s))..];
    LeadSpaces(rest) == |rest|
  }

  function Decoded(s: string): Option<Bytes> {
    if Accepted(s) then Some(Transcode(58, 256, Unspell(Body(s)))) else None
  }

  method SkipSpace(s: string) returns (rest: string)
    ensures LeadSpaces(s) <= |s| && rest == s[LeadSpaces(s)..]
  {
    var p := 0;
    assert s[0..] == s;
    while p < |s| && IsSpace(s[p])
      invariant 0 <= p <= |s| && LeadSpaces(s) == p + LeadSpaces(s[p..])
    {
      assert s[p..][1..] == s[p + 1..];
      p := p + 1;
    }
    rest := s[p..];
  }

  lemma UnspellGrows(s: string, p: nat)
    requires p < |s| && Lettered(s[..p]) && DigitOf(s[p]).Some?
    ensures Lettered(s[..p + 1])
    ensures Value(58, Unspell(s[..p + 1])) == Value(58, Unspell(s[..p])) * 58 + DigitOf(s[p]).value
  {
    var t := s[..p + 1];
    assert t[..p] == s[..p];
    var ds := Unspell(t);
    assert ds[..|ds| - 1] == Unspell(s[..p]);
  }

  /** The multiplication loop: the number the leading letters spell, and whether only space follows. */
  method LetterLoop(s: string) returns (ok: bool, bn: nat)
    ensures LeadLetters(s) <= |s| && Lettered(s[..LeadLetters(s)])
    ensures ok <==> LeadSpaces(s[LeadLetters(s)..]) == |s[LeadLetters(s)..]|
    ensures ok ==> bn == Value(58, Unspell(s[..LeadLetters(s)]))
  {
    LeadsFit(s);
    hide Unspell, Value;
    bn := 0;
    var p := 0;
    assert s[0..] == s;
    EmptyValue(s[..0]);
    while p < |s| && DigitOf(s[p]).Some?
      invariant 0 <= p <= |s| && LeadLetters(s) == p + LeadLetters(s[p..])
      invariant Lettered(s[..p]) && bn == Value(58, Unspell(s[..p]))
    {
      assert s[p..][1..] == s[p + 1..];
      UnspellGrows(s, p);
      bn := bn * 58 + DigitOf(s[p]).value;
      p := p + 1;
    }
    LeadsFit(s[p..]);
    var rest := SkipSpace(s[p..]);
    ok := rest == [];
  }

  lemma EmptyValue(s: string)
    requires s == []
    ensures Lettered(s) && Value(58, Unspell(s)) == 0
  {
  }

  lemma {:induction false} LeadOnes(s: string, k: nat)
    requires k <= |s| && Lettered(s[..k]) && (k < |s| ==> DigitOf(s[k]).None?)
    ensures Lead(Unspell(s[..k])) == OnesAt(s, 0)
  {
    UnspellFront(s[..k]);
    if k > 0 && s[0] == '1' {
      assert s[1..][..k - 1] == s[..k][1..];
      LeadOnes(s[1..], k - 1);
      OnesShift(s, 0);
    }
  }

  /** How many ones follow from position p on. */
  function OnesAt(s: string, p: nat): nat
    decreases |s| - p
  {
    if p < |s| && s[p] == '1' then 1 + OnesAt(s, p + 1) else 0
  }

  lemma {:induction false} OnesShift(s: string, p: nat)
    requires s != []
    ensures OnesAt(s, p + 1) == OnesAt(s[1..], p)
    decreases |s| - p
  {
    if p + 1 < |s| && s[p + 1] == '1' { OnesShift(s, p + 1); }
  }

  /** The first letter is the first digit. */
  lemma {:induction false} UnspellFront(s: string)
    requires Lettered(s)
    ensures s == [] ==> Unspell(s) == []
    ensures s != [] ==> Unspell(s) == [DigitOf(s[0]).value] + Unspell(s[1..])
    ensures s != [] ==> (DigitOf(s[0]).value == 0 <==> s[0] == '1')
  {
    if |s| > 1 {
      UnspellFront(s[..|s| - 1]);
      assert s[1..][..|s| - 2] == s[..|s| - 1][1..];
    }
    if s != [] { AlphabetInverse(0, s[0]); }
  }

  /** Dropping the sign byte leaves the plain bytes of the number. */
  lemma SignByteTrimmed(n: nat)
    ensures var v := GetVch(n);
            var t := if |v| >= 2 && v[|v| - 1] == 0 && v[|v| - 2] >= 0x80 then v[..|v| - 1] else v;
            Reverse(t) == Numeral(256, n)
  {
    var d := Numeral(256, n);
    NumeralShape(256, n);
    ReverseReverse(d);
    var v := GetVch(n);
    LastOfReverse(d);
    if d != [] && d[0] >= 128 {
      assert ([0] + d)[1..] == d;
      assert v == Reverse(d) + [0];
      assert v[..|v| - 1] == Reverse(d);
    }
  }

  lemma LastOfReverse(d: seq<nat>)
    ensures |Reverse(d)| == |d| && (d != [] ==> Reverse(d)[|d| - 1] == d[0])
  {
    ReverseReverse(d);
    if d != [] { ReverseReverse(d[1..]); }
  }

  method DecodeBase58(psz: string) returns (ok: bool, vchRet: Bytes)
    ensures ok <==> Decoded(psz).Some?
    ensures ok ==> vchRet == Decoded(psz).value
  {
    hide Unspell, Value, Numeral, GetVch, Lead, LeadSpaces, LeadLetters, Reverse;
    vchRet := [];
    var s := SkipSpace(psz);
    var bn;
    ok, bn := LetterLoop(s);
    if !ok {
      return;
    }
    SignByteTrimmed(bn);
    var vchTmp := GetVch(bn);
    if |vchTmp| >= 2 && vchTmp[|vchTmp| - 1] == 0 && vchTmp[|vchTmp| - 2] >= 0x80 {
      vchTmp := vchTmp[..|vchTmp| - 1];
    }
    LeadsFit(s);
    LeadOnes(s, LeadLetters(s));
    var z := CountOnes(s);
    vchRet := Zeros(z) + Reverse(vchTmp);
  }

  method CountOnes(s: string) returns (z: nat)
    ensures z == OnesAt(s, 0)
  {
    z := 0;
    while z < |s| && s[z] == '1'
      invariant 0 <= z <= |s| && OnesAt(s, 0) == z + OnesAt(s, z)
    {
      z := z + 1;
    }
  }

  // ---------------------------------------------------------------- the round trips

  lemma LetteredIsBody(s: string)
    requires Lettered(s)
    ensures Accepted(s) && Body(s) == s
  {
    LeadsFit(s);
    AlphabetInverse(0, if s == [] then 'x' else s[0]);
    assert LeadSpaces(s) == 0 && Trimmed(s) == s;
    assert LeadLetters(s) == |s|;
    assert s[|s|..] == [] && s[..|s|] == s;
  }

  /** Decoding an encoding gives back the bytes, leading zeros included. */
  lemma DecodeEncode(bytes: Bytes)
    requires InBase(bytes, 256)
    ensures Decoded(Encoded(bytes)) == Some(bytes)
  {
    hide Transcode, Spell, Unspell, Accepted, Body;
    var ds := Transcode(256, 58, bytes);
    TranscodeShape(256, 58, bytes);
    SpellBack(ds);
    LetteredIsBody(Spell(ds));
    TranscodeBack(256, 58, bytes);
  }

  /** Encoding what a text decodes to gives back its letters, leading ones included. */
  lemma EncodeDecode(s: string)
    requires Decoded(s).Some?
    ensures Encoded(Decoded(s).value) == Body(s)
  {
    hide Transcode, Spell, Unspell, Accepted, Body;
    var ds := Unspell(Body(s));
    UnspellBack(Body(s));
    TranscodeBack(58, 256, ds);
  }

  /** Two texts decode to the same bytes exactly if they have the same letters. */
  lemma DecodeInjective(s: string, t: string)
    requires Decoded(s).Some? && Decoded(t).Some?
    ensures Decoded(s) == Decoded(t) <==> Body(s) == Body(t)
  {
    EncodeDecode(s);
    EncodeDecode(t);
  }

  // ---------------------------------------------------------------- with a checksum

  /** The first four bytes of the hash. */
  function Sum(hash: Bytes -> Bytes, bytes: Bytes): Bytes
    requires |hash(bytes)| == 32
  {
    hash(bytes)[..4]
  }

  ghost predicate IsHash(hash: Bytes -> Bytes) {
    forall x :: |hash(x)| == 32 && InBase(hash(x), 256)
  }

  /** The bytes end in the checksum of the others. */
  ghost predicate Sealed(hash: Bytes -> Bytes, v: Bytes, x: Bytes)
    requires IsHash(hash)
  {
    v == x + Sum(hash, x)
  }

  lemma SealedParts(hash: Bytes -> Bytes, v: Bytes, x: Bytes)
    requires IsHash(hash) && Sealed(hash, v, x)
    ensures |v| >= 4 && x == v[..|v| - 4] && Sum(hash, x) == v[|v| - 4..]
  {
  }

  /** What is encoded with its checksum decodes to bytes that end in it, after the bytes themselves and no others. */
  lemma CheckedRoundTrip(hash: Bytes -> Bytes, bytes: Bytes, x: Bytes)
    requires IsHash(hash) && InBase(bytes, 256)
    ensures var text := Encoded(bytes + Sum(hash, bytes));
            Decoded(text).Some? && (Sealed(hash, Decoded(text).value, x) <==> x == bytes)
  {
    hide Encoded, Decoded;
    var v := bytes + Sum(hash, bytes);
    DecodeEncode(v);
    SealedParts(hash, v, bytes);
    if Sealed(hash, v, x) { SealedParts(hash, v, x); }
  }

  /** The text decodes to the bytes and their checksum, so DecodeBase58Check gives back the bytes. */
  method EncodeBase58Check(hash: Bytes -> Bytes, bytes: Bytes) returns (str: string)
    requires IsHash(hash) && InBase(bytes, 256)
    ensures str == Encoded(bytes + Sum(hash, bytes))
    ensures Decoded(str).Some? && forall x :: Sealed(hash, Decoded(str).value, x) <==> x == bytes
  {
    hide Encoded, Decoded, Sealed;
    str := EncodeBase58(bytes + hash(bytes)[..4]);
    CheckedRoundTrip(hash, bytes, bytes);
    forall x ensures Decoded(str).Some? && (Sealed(hash, Decoded(str).value, x) <==> x == bytes) {
      CheckedRoundTrip(hash, bytes, x);
    }
  }

  /** Exactly the texts whose bytes end in the right checksum are accepted, and give the bytes before it. */
  method DecodeBase58Check(hash: Bytes -> Bytes, psz: string) returns (ok: bool, vchRet: Bytes)
    requires IsHash(hash)
    ensures ok <==> Decoded(psz).Some? && exists x :: Sealed(hash, Decoded(psz).value, x)
    ensures ok ==> Sealed(hash, Decoded(psz).value, vchRet) && Encoded(vchRet + Sum(hash, vchRet)) == Body(psz)
    ensures !ok ==> vchRet == []
  {
    hide Decoded, Encoded, Body;
    ok, vchRet := DecodeBase58(psz);
    ghost var v := vchRet;
    forall x | Sealed(hash, v, x) ensures |v| >= 4 && x == v[..|v| - 4] && Sum(hash, x) == v[|v| - 4..] {
      SealedParts(hash, v, x);
    }
    if !ok || |vchRet| < 4 {
      return false, [];
    }
    var k := |vchRet| - 4;
    if hash(vchRet[..k])[..4] != vchRet[k..] {
      return false, [];
    }
    vchRet := vchRet[..k];
    assert Sealed(hash, v, vchRet);
    EncodeDecode(psz);
  }
}
