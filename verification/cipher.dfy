/** Whole-message Vigenere Autokey transforms: `encipher` and `decipher`.

    Enciphering keys position i with character i of `key + plaintext`.
    Deciphering cannot see the plaintext in advance, so it keys position i
    with `key[i]` while the key lasts and afterwards with the plaintext
    character it recovered |key| positions earlier. */
module Cipher {
  import opened Letters
  import opened Outcomes

  /** `encipher(key, plaintext)`. Total: with an empty key the plaintext
      keys itself. */
  function Encipher(key: seq<char>, plaintext: seq<char>): (r: seq<char>)
    ensures |r| == |plaintext|
    ensures IsLowerText(key) && IsLowerText(plaintext) ==> IsLowerText(r)
  {
    var fullKey := key + plaintext;
    seq(|plaintext|, i requires 0 <= i < |plaintext| => ShiftChar(plaintext[i], Offset(fullKey[i])))
  }

  /** The key character that deciphering uses at position i, given the
      plaintext recovered so far. */
  function KeyCharAt(key: seq<char>, plaintext: seq<char>, i: nat): char
    requires i < |key| || i - |key| < |plaintext|
  {
    if i < |key| then key[i] else plaintext[i - |key|]
  }

  /** `plaintext` is what the self-keying recurrence recovers from
      `ciphertext` under `key`: each character is the ciphertext character
      unshifted by the key character, and past the key by the plaintext
      character |key| positions back. */
  ghost predicate SelfKeyed(key: seq<char>, ciphertext: seq<char>, plaintext: seq<char>) {
    && |plaintext| == |ciphertext|
    && (|key| > 0 || ciphertext == [])
    && forall i :: 0 <= i < |ciphertext| ==>
         plaintext[i] == UnshiftChar(ciphertext[i], Offset(KeyCharAt(key, plaintext, i)))
  }

  /** The decipher loop, written from the back: the last character is keyed
      by what the prefix deciphers to. Needs a non-empty key once there is
      anything to decipher. */
  function DecipherText(key: seq<char>, ciphertext: seq<char>): (r: seq<char>)
    requires |key| > 0 || ciphertext == []
    ensures |r| == |ciphertext|
    decreases |ciphertext|
  {
    if ciphertext == [] then []
    else
      var n := |ciphertext| - 1;
      var prefix := DecipherText(key, ciphertext[..n]);
      prefix + [UnshiftChar(ciphertext[n], Offset(KeyCharAt(key, prefix, n)))]
  }

  /** `decipher(key, ciphertext)`: with an empty key and a non-empty
      ciphertext the first step reads `plaintext.charAt(0)` of the still
      empty plaintext and throws. */
  function Decipher(key: seq<char>, ciphertext: seq<char>): (r: Result<seq<char>>)
    ensures r.Failure? <==> key == [] && ciphertext != []
    ensures r.Failure? ==> r.error == IndexOutOfBounds
    ensures r.Success? ==> SelfKeyed(key, ciphertext, r.value)
  {
    if key == [] && ciphertext != [] then Failure(IndexOutOfBounds)
    else
      DecipherIsSelfKeyed(key, ciphertext);
      Success(DecipherText(key, ciphertext))
  }

  /** Deciphering follows the self-keying recurrence. */
  lemma {:induction false} DecipherIsSelfKeyed(key: seq<char>, ciphertext: seq<char>)
    requires |key| > 0 || ciphertext == []
    ensures SelfKeyed(key, ciphertext, DecipherText(key, ciphertext))
  {
    if ciphertext != [] {
      var n := |ciphertext| - 1;
      var prefix := DecipherText(key, ciphertext[..n]);
      DecipherIsSelfKeyed(key, ciphertext[..n]);
      var r := DecipherText(key, ciphertext);
      assert r[..n] == prefix;
      forall i | 0 <= i < |ciphertext|
        ensures r[i] == UnshiftChar(ciphertext[i], Offset(KeyCharAt(key, r, i)))
      {
        if i < n {
          assert KeyCharAt(key, r, i) == KeyCharAt(key, prefix, i);
        } else {
          assert KeyCharAt(key, r, n) == KeyCharAt(key, prefix, n);
        }
      }
    }
  }

  /** The recurrence determines the plaintext: whatever satisfies it is what
      `DecipherText` returns. */
  lemma {:induction false} SelfKeyedIsDecipher(key: seq<char>, ciphertext: seq<char>, plaintext: seq<char>)
    requires SelfKeyed(key, ciphertext, plaintext)
    ensures plaintext == DecipherText(key, ciphertext)
  {
    if ciphertext != [] {
      var n := |ciphertext| - 1;
      var prefix := plaintext[..n];
      forall i | 0 <= i < n
        ensures prefix[i] == UnshiftChar(ciphertext[..n][i], Offset(KeyCharAt(key, prefix, i)))
      {
        assert KeyCharAt(key, prefix, i) == KeyCharAt(key, plaintext, i);
      }
      SelfKeyedIsDecipher(key, ciphertext[..n], prefix);
      assert KeyCharAt(key, prefix, n) == KeyCharAt(key, plaintext, n);
      assert plaintext == prefix + [plaintext[n]];
    }
  }

  /** Deciphering is prefix-stable: the first n characters depend only on
      the key and the first n ciphertext characters. */
  lemma {:induction false} DecipherPrefix(key: seq<char>, ciphertext: seq<char>, n: nat)
    requires |key| > 0
    requires n <= |ciphertext|
    ensures DecipherText(key, ciphertext[..n]) == DecipherText(key, ciphertext)[..n]
  {
    var r := DecipherText(key, ciphertext);
    DecipherIsSelfKeyed(key, ciphertext);
    forall i | 0 <= i < n
      ensures r[..n][i] == UnshiftChar(ciphertext[..n][i], Offset(KeyCharAt(key, r[..n], i)))
    {
      assert KeyCharAt(key, r[..n], i) == KeyCharAt(key, r, i);
    }
    SelfKeyedIsDecipher(key, ciphertext[..n], r[..n]);
  }

  /** A lowercase ciphertext deciphers to a lowercase plaintext under any key
      whose characters are at most 'z': the plaintext characters that key
      later positions are themselves unshifted characters, so at most 'z'. */
  lemma {:induction false} DecipherLowercase(key: seq<char>, ciphertext: seq<char>)
    requires |key| > 0 && AtMostZ(key) && IsLowerText(ciphertext)
    ensures IsLowerText(DecipherText(key, ciphertext))
  {
    DecipherIsSelfKeyed(key, ciphertext);
  }

  /** The round trip: deciphering an enciphered lowercase plaintext returns
      it, for every non-empty key whose characters are at most 'z' (every
      lowercase key among them). */
  lemma RoundTrip(key: seq<char>, plaintext: seq<char>)
    requires |key| > 0 && AtMostZ(key) && IsLowerText(plaintext)
    ensures Decipher(key, Encipher(key, plaintext)) == Success(plaintext)
  {
    var c := Encipher(key, plaintext);
    forall i | 0 <= i < |c|
      ensures plaintext[i] == UnshiftChar(c[i], Offset(KeyCharAt(key, plaintext, i)))
    {
      var k := KeyCharAt(key, plaintext, i);
      assert k == (key + plaintext)[i];
      UnshiftShift(plaintext[i], Offset(k));
    }
    SelfKeyedIsDecipher(key, c, plaintext);
  }
}
