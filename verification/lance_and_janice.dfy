/**
  Level 1, "I Love Lance & Janice": a mirror (Atbash) cipher on the lower-case
  letters a..z; every other character passes through unchanged.
 */
module LanceAndJanice {
  import opened Common

  /** Messages longer than this are refused (the source's `max_supported_size`). */
  const MaxSupportedSize: int := 1000000

  /** The 26 letters the cipher acts on, in alphabetical order. */
  const Alphabet: string := "abcdefghijklmnopqrstuvwxyz"

  predicate IsLower(c: char)
  {
    'a' <= c <= 'z'
  }

  /**
    One character of the cipher: a lower-case letter is replaced by the letter
    at the mirrored position of the alphabet, anything else is kept.
   */
  function DecodeChar(c: char): (r: char)
    ensures IsLower(c) <==> IsLower(r)
    ensures !IsLower(c) ==> r == c
    ensures IsLower(c) ==> r as int - 'a' as int == 25 - (c as int - 'a' as int)
  {
    if IsLower(c) then
      var alphabetSize := 'z' as int - 'a' as int + 1;
      ('a' as int + (alphabetSize - (c as int - 'a' as int)) - 1) as char
    else
      c
  }

  /** The cipher against an explicit table: the i-th letter maps to the (25-i)-th. */
  lemma DecodeCharMirrorsAlphabet(i: nat)
    requires i < |Alphabet|
    ensures DecodeChar(Alphabet[i]) == Alphabet[|Alphabet| - 1 - i]
  {
  }

  /** Applying the cipher twice gives the character back. */
  lemma DecodeCharInvolution(c: char)
    ensures DecodeChar(DecodeChar(c)) == c
  {
  }

  /** The whole message deciphered character by character. */
  function Decipher(s: string): (r: string)
    ensures |r| == |s|
    ensures forall i :: 0 <= i < |s| ==> r[i] == DecodeChar(s[i])
  {
    if s == [] then [] else Decipher(s[..|s| - 1]) + [DecodeChar(s[|s| - 1])]
  }

  /** The cipher is its own inverse on whole messages. */
  lemma DecipherInvolution(s: string)
    ensures Decipher(Decipher(s)) == s
  {
    var t := Decipher(Decipher(s));
    forall i | 0 <= i < |s|
      ensures t[i] == s[i]
    {
      DecodeCharInvolution(s[i]);
    }
  }

  /** Deciphering a byte string gives a byte string: letters stay letters, other bytes are kept. */
  lemma DecipherKeepsBytes(s: Bytes)
    ensures IsBytes(Decipher(s))
  {
    var r := Decipher(s);
    forall i | 0 <= i < |r|
      ensures r[i] as int < 256
    {
      assert r[i] == DecodeChar(s[i]);
    }
  }

  /** Characters other than a..z, upper-case letters included, come out unchanged. */
  lemma DecipherKeepsNonLetters(s: string)
    requires forall i :: 0 <= i < |s| ==> !IsLower(s[i])
    ensures Decipher(s) == s
  {
  }

  /**
    The source's `solution`: the empty string for an empty message or one
    of more than a million bytes, otherwise the message with every
    lower-case letter mirrored.
   */
  method Solution(s: Bytes) returns (r: Bytes)
    ensures |s| == 0 || |s| > MaxSupportedSize ==> r == ""
    ensures 0 < |s| <= MaxSupportedSize ==> r == Decipher(s)
    ensures 0 < |s| <= MaxSupportedSize ==> Decipher(r) == s
  {
    if |s| == 0 {
      return "";
    }
    if |s| > MaxSupportedSize {
      return "";
    }
    var plainText: string := "";
    var k := 0;
    while k < |s|
      invariant 0 <= k <= |s|
      invariant plainText == Decipher(s[..k])
    {
      assert s[..k + 1][..k] == s[..k];
      plainText := plainText + [DecodeChar(s[k])];
      k := k + 1;
    }
    assert s[..k] == s;
    DecipherInvolution(s);
    DecipherKeepsBytes(s);
    return plainText;
  }

  /** The word "encryption" in cipher text. */
  lemma EncryptionWordExample()
    ensures Decipher("vmxibkgrlm") == "encryption"
  {
  }

  /** An all-capitals message is left alone. */
  lemma AllCapsExample()
    ensures Decipher("THIS IS A CAPS TEST") == "THIS IS A CAPS TEST"
  {
    DecipherKeepsNonLetters("THIS IS A CAPS TEST");
  }
}
