/** The alphabet and the accepted texts of Base58, in characters. */
module Base58Laws {
  import opened Base58
  import opened Digits

  /** Digits and letters in the order of their codes, without 0, I, O and l. */
  const ALPHABET := "123456789" + "ABCDEFGH" + "JKLMN" + "PQRSTUVWXYZ" + "abcdefghijk" + "mnopqrstuvwxyz"

  ghost predicate IsLetter(c: char) {
    c in ALPHABET
  }

  /** The letter of a digit is the one at its place in the alphabet, and only those letters have a digit. */
  lemma AlphabetOrder(d: nat, c: char)
    requires d < 58
    ensures |ALPHABET| == 58 && CharOf(d) == ALPHABET[d]
    ensures IsLetter(c) <==> DigitOf(c).Some?
  {
    forall i | 0 <= i < 58 ensures CharOf(i) == ALPHABET[i] { AlphabetAt(i); }
    if DigitOf(c).Some? { AlphabetInverse(0, c); }
    if IsLetter(c) {
      var i :| 0 <= i < |ALPHABET| && ALPHABET[i] == c;
      AlphabetInverse(i, c);
    }
  }

  lemma AlphabetAt(i: nat)
    requires i < 58
    ensures CharOf(i) == ALPHABET[i]
  {
  }

  ghost predicate Blank(c: char) {
    c == ' ' || c == '\t' || c == '\n' || c == '\r' || c as int == 11 || c as int == 12
  }

  /** Letters from a to b, and blanks before and after them. */
  ghost predicate Framed(s: string, a: nat, b: nat) {
    && a <= b <= |s|
    && (forall i :: 0 <= i < |s| && !(a <= i < b) ==> Blank(s[i]))
    && (forall i :: a <= i < b ==> IsLetter(s[i]))
  }

  lemma LeadSpacesAre(s: string, a: nat)
    requires a <= |s| && (forall i :: 0 <= i < a ==> IsSpace(s[i])) && (a < |s| ==> !IsSpace(s[a]))
    ensures LeadSpaces(s) == a && Trimmed(s) == s[a..]
  {
    LeadsFit(s);
  }

  lemma LeadLettersAre(s: string, k: nat)
    requires k <= |s| && (forall i :: 0 <= i < k ==> DigitOf(s[i]).Some?) && (k < |s| ==> DigitOf(s[k]).None?)
    ensures LeadLetters(s) == k
  {
    LeadsFit(s);
  }

  lemma FramedParts(s: string, a: nat, b: nat)
    requires Framed(s, a, b) && a < b
    ensures Trimmed(s) == s[a..] && LeadLetters(s[a..]) == b - a && LeadSpaces(s[b..]) == |s| - b
  {
    hide DigitOf, IsSpace, LeadSpaces, LeadLetters, Blank, Trimmed, IsLetter;
    Letters(s, a, b);
    Blanks(s);
    LeadSpacesAre(s, a);
    LeadLettersAre(s[a..], b - a);
    LeadSpacesAre(s[b..], |s| - b);
  }

  lemma Letters(s: string, a: nat, b: nat)
    requires Framed(s, a, b)
    ensures forall i :: a <= i < b ==> DigitOf(s[i]).Some? && !IsSpace(s[i])
  {
    forall i | a <= i < b ensures DigitOf(s[i]).Some? && !IsSpace(s[i]) {
      AlphabetOrder(0, s[i]);
      AlphabetInverse(0, s[i]);
    }
  }

  lemma Blanks(s: string)
    ensures forall i :: 0 <= i < |s| ==> (Blank(s[i]) <==> IsSpace(s[i]))
    ensures forall i :: 0 <= i < |s| && Blank(s[i]) ==> DigitOf(s[i]).None?
  {
  }

  lemma AllBlank(s: string)
    requires forall i :: 0 <= i < |s| ==> Blank(s[i])
    ensures LeadSpaces(s) == |s| && Trimmed(s) == []
  {
    Blanks(s);
    LeadsFit(s);
  }

  /** A frame decides: what it encloses is decoded, the blanks around it are not. */
  lemma FramedDecodes(s: string, a: nat, b: nat)
    requires Framed(s, a, b)
    ensures Decoded(s).Some? && Body(s) == s[a..b]
    ensures InBase(Unspell(Body(s)), 58)
    ensures Lead(Decoded(s).value) == Lead(Unspell(Body(s)))
    ensures Value(256, Decoded(s).value) == Value(58, Unspell(Body(s)))
  {
    if a < b {
      FramedParts(s, a, b);
      assert s[a..][b - a..] == s[b..] && s[a..][..b - a] == s[a..b];
    } else {
      AllBlank(s);
      LeadsFit([]);
    }
    UnspellBack(Body(s));
    TranscodeShape(58, 256, Unspell(Body(s)));
  }

  lemma MakeFrame(s: string, a: nat, b: nat)
    requires a <= b <= |s|
    requires forall i :: 0 <= i < |s| && !(a <= i < b) ==> IsSpace(s[i])
    requires forall i :: a <= i < b ==> DigitOf(s[i]).Some?
    ensures Framed(s, a, b)
  {
    hide DigitOf, IsSpace, Blank, IsLetter;
    Blanks(s);
    forall i | a <= i < b ensures IsLetter(s[i]) { AlphabetOrder(0, s[i]); }
  }

  lemma AcceptedFramed(s: string)
    requires Accepted(s)
    ensures exists a: nat, b: nat :: Framed(s, a, b)
  {
    var t := Trimmed(s);
    var a, b := LeadSpaces(s), LeadSpaces(s) + LeadLetters(t);
    LeadsFit(s);
    LeadsFit(t);
    LeadsFit(t[LeadLetters(t)..]);
    assert t[LeadLetters(t)..] == s[b..];
    hide DigitOf, IsSpace, Framed, LeadSpaces, LeadLetters;
    assert forall i :: a <= i < b ==> s[i] == t[..b - a][i - a];
    assert forall i :: b <= i < |s| ==> s[i] == s[b..][i - b];
    MakeFrame(s, a, b);
  }

  /** A text is accepted exactly if it is letters of the alphabet with nothing but blanks around them. */
  lemma AcceptedIff(s: string)
    ensures Decoded(s).Some? <==> exists a: nat, b: nat :: Framed(s, a, b)
  {
    if a: nat, b: nat :| Framed(s, a, b) { FramedDecodes(s, a, b); }
    if Accepted(s) { AcceptedFramed(s); }
  }
}
