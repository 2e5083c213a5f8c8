/** The strided keystream extractor, `getGeneratedSet`.

    Under the hypothesis "the key has length L and letter c at position p",
    the Autokey recurrence decides every plaintext character at positions
    p, p+L, p+2L, ... on its own: the first is the ciphertext character
    unshifted by c, and each later one is unshifted by the character
    recovered L positions before it. So each key position can be tried
    without knowing the others. */
module Extractor {
  import opened Letters
  import opened Cipher

  /** The loop of `getGeneratedSet` from index i on, with `shift` the shift
      it currently holds. The key length is positive, as every caller in
      the solver guarantees; with 0 the source loop would not advance. */
  function GenerateFrom(i: nat, keyLength: nat, shift: int, cipher: seq<char>): (r: seq<char>)
    requires keyLength >= 1
    decreases |cipher| - i
  {
    if i >= |cipher| then []
    else
      var d := UnshiftChar(cipher[i], shift);
      [d] + GenerateFrom(i + keyLength, keyLength, Offset(d), cipher)
  }

  /** `getGeneratedSet(keyPosition, keyLength, c, cipher)`. */
  function GeneratedSet(keyPosition: nat, keyLength: nat, c: char, cipher: seq<char>): seq<char>
    requires keyLength >= 1
  {
    GenerateFrom(keyPosition, keyLength, Offset(c), cipher)
  }

  /** The characters of `s` at indices start, start+step, start+2*step, ... */
  function Stride(s: seq<char>, start: nat, step: nat): (r: seq<char>)
    requires step >= 1
    decreases |s| - start
  {
    if start >= |s| then [] else [s[start]] + Stride(s, start + step, step)
  }

  /** The stride holds one character per index start + k*step inside `s`,
      and that character is `s[start + k*step]`. */
  lemma StrideShape(s: seq<char>, start: nat, step: nat)
    requires step >= 1
    ensures var t := Stride(s, start, step);
      && start + |t| * step >= |s|
      && forall k :: 0 <= k < |t| ==> start + k * step < |s| && t[k] == s[start + k * step]
  {
    StrideLength(s, start, step);
    forall k | 0 <= k < |Stride(s, start, step)|
      ensures start + k * step < |s| && Stride(s, start, step)[k] == s[start + k * step]
    {
      StrideAt(s, start, step, k);
    }
  }

  lemma {:induction false} StrideLength(s: seq<char>, start: nat, step: nat)
    requires step >= 1
    ensures start + |Stride(s, start, step)| * step >= |s|
    decreases |s| - start
  {
    if start < |s| {
      StrideLength(s, start + step, step);
      StepIndex(start, step, |Stride(s, start, step)|);
    }
  }

  lemma {:induction false} StrideAt(s: seq<char>, start: nat, step: nat, k: nat)
    requires step >= 1
    requires k < |Stride(s, start, step)|
    ensures start + k * step < |s| && Stride(s, start, step)[k] == s[start + k * step]
    decreases k
  {
    if k > 0 {
      StrideAt(s, start + step, step, k - 1);
      StepIndex(start, step, k);
    }
  }

  lemma StepIndex(start: nat, step: nat, k: nat)
    requires k >= 1
    ensures start + k * step == (start + step) + (k - 1) * step
  {
  }

  /** The extracted set runs along the stride of the ciphertext at the key
      position: one character per ciphertext index p, p+L, p+2L, ...; the
      first is unshifted by the seed letter and each later one by its
      predecessor in the set. */
  lemma {:induction false} GenerateFromShape(i: nat, keyLength: nat, shift: int, cipher: seq<char>)
    requires keyLength >= 1
    ensures var r := GenerateFrom(i, keyLength, shift, cipher);
      var t := Stride(cipher, i, keyLength);
      && |r| == |t|
      && (|r| > 0 ==> r[0] == UnshiftChar(t[0], shift))
      && forall k :: 1 <= k < |r| ==> r[k] == UnshiftChar(t[k], Offset(r[k - 1]))
    decreases |cipher| - i
  {
    if i < |cipher| {
      var d := UnshiftChar(cipher[i], shift);
      GenerateFromShape(i + keyLength, keyLength, Offset(d), cipher);
    }
  }

  lemma GeneratedSetShape(keyPosition: nat, keyLength: nat, c: char, cipher: seq<char>)
    requires keyLength >= 1
    ensures var r := GeneratedSet(keyPosition, keyLength, c, cipher);
      var t := Stride(cipher, keyPosition, keyLength);
      && |r| == |t|
      && (|r| > 0 ==> r[0] == UnshiftChar(t[0], Offset(c)))
      && forall k :: 1 <= k < |r| ==> r[k] == UnshiftChar(t[k], Offset(r[k - 1]))
  {
    GenerateFromShape(keyPosition, keyLength, Offset(c), cipher);
  }

  /** Following the strided recurrence from index i agrees with the full
      decipherment, provided the shift held at i is the one deciphering
      uses there. */
  lemma {:induction false} GenerateFromAgrees(key: seq<char>, cipher: seq<char>, i: nat, shift: int)
    requires |key| >= 1
    requires i < |cipher| ==> shift == Offset(KeyCharAt(key, DecipherText(key, cipher), i))
    ensures GenerateFrom(i, |key|, shift, cipher) == Stride(DecipherText(key, cipher), i, |key|)
    decreases |cipher| - i
  {
    if i < |cipher| {
      var plain := DecipherText(key, cipher);
      DecipherIsSelfKeyed(key, cipher);
      var d := UnshiftChar(cipher[i], shift);
      assert d == plain[i];
      GenerateFromAgrees(key, cipher, i + |key|, Offset(d));
    }
  }

  /** The extractor agrees with `decipher`: seeded with the true key letter
      at position p < |key|, it yields exactly the plaintext characters at
      indices p, p+|key|, p+2|key|, ... */
  lemma GeneratedSetIsStrideOfDecipher(key: seq<char>, cipher: seq<char>, p: nat)
    requires p < |key|
    ensures GeneratedSet(p, |key|, key[p], cipher) == Stride(DecipherText(key, cipher), p, |key|)
  {
    GenerateFromAgrees(key, cipher, p, Offset(key[p]));
  }

  /** Extraction from an enciphered message under its own key returns the
      plaintext stride. */
  lemma GeneratedSetRecoversPlaintext(key: seq<char>, plaintext: seq<char>, p: nat)
    requires p < |key| && AtMostZ(key) && IsLowerText(plaintext)
    ensures GeneratedSet(p, |key|, key[p], Encipher(key, plaintext)) == Stride(plaintext, p, |key|)
  {
    RoundTrip(key, plaintext);
    GeneratedSetIsStrideOfDecipher(key, Encipher(key, plaintext), p);
  }

  /** The worked example of `getGeneratedSet`'s documentation: under the
      key "ab", "hfspzxmzyzeuwpgzs" deciphers to "hellomynameishose" ... */
  lemma WorkedExampleDeciphers()
    ensures DecipherText("ab", "hfspzxmzyzeuwpgzs") == "hellomynameishose"
  {
    var key, c, plain := "ab", "hfspzxmzyzeuwpgzs", "hellomynameishose";
    WorkedExampleKeyed(key, c, plain, 0, 4);
    WorkedExampleKeyed(key, c, plain, 4, 8);
    WorkedExampleKeyed(key, c, plain, 8, 12);
    WorkedExampleKeyed(key, c, plain, 12, 17);
    SelfKeyedIsDecipher(key, c, plain);
  }

  /** The example satisfies the self-keying recurrence on positions
      lo .. hi-1. */
  lemma WorkedExampleKeyed(key: seq<char>, c: seq<char>, plain: seq<char>, lo: nat, hi: nat)
    requires key == "ab" && c == "hfspzxmzyzeuwpgzs" && plain == "hellomynameishose"
    requires lo <= hi <= 17 && hi - lo <= 5
    ensures forall i :: lo <= i < hi ==> plain[i] == UnshiftChar(c[i], Offset(KeyCharAt(key, plain, i)))
  {
  }

  /** ... its even- and odd-indexed characters are "hloyaesoe" and
      "elmnmihs" ... */
  lemma WorkedExampleStrides()
    ensures Stride("hellomynameishose", 0, 2) == "hloyaesoe"
    ensures Stride("hellomynameishose", 1, 2) == "elmnmihs"
  {
  }

  /** ... and those are what the extractor returns when seeded with the
      true key letters, by its agreement with `decipher`. */
  lemma WorkedExample()
    ensures GeneratedSet(0, 2, 'a', "hfspzxmzyzeuwpgzs") == "hloyaesoe"
    ensures GeneratedSet(1, 2, 'b', "hfspzxmzyzeuwpgzs") == "elmnmihs"
  {
    WorkedExampleDeciphers();
    WorkedExampleStrides();
    GeneratedSetIsStrideOfDecipher("ab", "hfspzxmzyzeuwpgzs", 0);
    GeneratedSetIsStrideOfDecipher("ab", "hfspzxmzyzeuwpgzs", 1);
  }

  /** The loop of `getGeneratedSet` as written: the index advances by
      `keyLength` and each recovered character becomes the next shift. */
  method GetGeneratedSet(keyPosition: nat, keyLength: nat, c: char, cipher: seq<char>) returns (set_: seq<char>)
    requires keyLength >= 1
    ensures set_ == GeneratedSet(keyPosition, keyLength, c, cipher)
  {
    var shiftAmount := Offset(c);
    set_ := [];
    var i := keyPosition;
    while i < |cipher|
      invariant set_ + GenerateFrom(i, keyLength, shiftAmount, cipher) == GeneratedSet(keyPosition, keyLength, c, cipher)
      decreases |cipher| - i
    {
      var deciphered := UnshiftChar(cipher[i], shiftAmount);
      shiftAmount := Offset(deciphered);
      set_ := set_ + [deciphered];
      i := i + keyLength;
    }
  }
}
