/**
 * `generateCode`: a random string over a fixed 62-character alphabet. The
 * random source is injected: each `Math.floor(Math.random() * chars.length)`
 * becomes a given position in the alphabet.
 */
module CodeGen {
  import opened Validation

  const UpperCase: string := "ABCDEFGHIJKLMNOPQRSTUVWXYZ"
  const LowerCase: string := "abcdefghijklmnopqrstuvwxyz"
  const Digits: string := "0123456789"

  /** The `chars` constant of `generateCode`, written in its three runs. */
  const Alphabet: string := UpperCase + LowerCase + Digits

  /** Every draw is a position in the alphabet. */
  predicate InAlphabet(draws: seq<nat>) {
    forall i :: 0 <= i < |draws| ==> draws[i] < |Alphabet|
  }

  /** The string the draws pick out of the alphabet, one character per draw. */
  function Spell(draws: seq<nat>): string
    requires InAlphabet(draws)
  {
    seq(|draws|, i requires 0 <= i < |draws| => Alphabet[draws[i]])
  }

  /** The three runs spell the 62-character literal of `generateCode`. */
  lemma AlphabetIsLiteral()
    ensures Alphabet == "ABCDEFGHIJKLMNOPQRSTUVWXYZabcdefghijklmnopqrstuvwxyz0123456789"
  {
  }

  /** The alphabet holds 62 characters, all of the class `[A-Za-z0-9]`. */
  lemma AlphabetIsCodeChars()
    ensures |Alphabet| == 62
    ensures forall i :: 0 <= i < |Alphabet| ==> IsCodeChar(Alphabet[i])
  {
    forall i | 0 <= i < |Alphabet| ensures IsCodeChar(Alphabet[i]) {
      if i < 26 {
        assert Alphabet[i] == UpperCase[i];
      } else if i < 52 {
        assert Alphabet[i] == LowerCase[i - 26];
      } else {
        assert Alphabet[i] == Digits[i - 52];
      }
    }
  }

  /** Where a class character sits in the alphabet: the alphabet holds every one. */
  function AlphabetIndex(c: char): (i: nat)
    requires IsCodeChar(c)
    ensures i < |Alphabet| && Alphabet[i] == c
  {
    if 'A' <= c <= 'Z' then c as int - 'A' as int
    else if 'a' <= c <= 'z' then 26 + (c as int - 'a' as int)
    else 52 + (c as int - '0' as int)
  }

  /**
   * `generateCode(length)`: appends one alphabet character per draw. The
   * result has exactly `length` characters, each from the alphabet.
   */
  method GenerateCode(length: nat, draws: seq<nat>) returns (out: string)
    requires |draws| == length && InAlphabet(draws)
    ensures out == Spell(draws)
    ensures |out| == length
    ensures forall i :: 0 <= i < |out| ==> out[i] in Alphabet && IsCodeChar(out[i])
  {
    AlphabetIsCodeChars();
    out := "";
    for i := 0 to length
      invariant |out| == i
      invariant forall k :: 0 <= k < i ==> out[k] == Alphabet[draws[k]]
    {
      out := out + [Alphabet[draws[i]]];
    }
  }

  /** A spelt string of 6 to 8 characters always passes `isValidCode`. */
  lemma SpeltCodeIsValid(draws: seq<nat>)
    requires InAlphabet(draws) && 6 <= |draws| <= 8
    ensures IsValidCode(Spell(draws))
  {
    AlphabetIsCodeChars();
    var code := Spell(draws);
    forall i | 0 <= i < |code| ensures IsCodeChar(code[i]) {
      assert code[i] == Alphabet[draws[i]];
    }
  }

  /** Conversely, every string that passes `isValidCode` can be generated. */
  lemma EveryValidCodeIsSpelt(code: string)
    requires IsValidCode(code)
    ensures exists draws :: InAlphabet(draws) && |draws| == |code| && Spell(draws) == code
  {
    var draws := seq(|code|, i requires 0 <= i < |code| => AlphabetIndex(code[i]));
    assert InAlphabet(draws);
    assert Spell(draws) == code;
  }
}
