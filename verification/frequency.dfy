/** The integer part of the frequency analyzer: `getLetterFrequency` counts
    the occurrences of one letter before dividing by the text length and
    rounding to three decimals, and `getLetterFrequencies` does so for each
    of a..z. The division and rounding are floating point and are not
    modelled; the counts are. */
module Frequency {
  import opened Letters

  /** Occurrences of `letter` in `text`, counted front to back. */
  function Occurrences(text: seq<char>, letter: char): nat {
    if text == [] then 0
    else Occurrences(text[..|text| - 1], letter) + (if text[|text| - 1] == letter then 1 else 0)
  }

  /** The count is the letter's multiplicity in the text, so it is at most
      the text's length and is zero exactly for absent letters. */
  lemma {:induction false} OccurrencesIsMultiplicity(text: seq<char>, letter: char)
    ensures Occurrences(text, letter) == multiset(text)[letter]
  {
    if text != [] {
      var n := |text| - 1;
      OccurrencesIsMultiplicity(text[..n], letter);
      assert text == text[..n] + [text[n]];
    }
  }

  /** The counting loop of `getLetterFrequency`. */
  method LetterCount(letter: char, text: seq<char>) returns (count: nat)
    ensures count == Occurrences(text, letter)
    ensures count == multiset(text)[letter]
    ensures count <= |text|
    ensures count == 0 <==> letter !in text
  {
    count := 0;
    for i := 0 to |text|
      invariant count == multiset(text[..i])[letter]
    {
      assert text[..i + 1] == text[..i] + [text[i]];
      if text[i] == letter {
        count := count + 1;
      }
    }
    assert text[..|text|] == text;
    OccurrencesIsMultiplicity(text, letter);
  }

  /** The 26 counts behind `getLetterFrequencies`: entry j counts the j-th
      letter of the alphabet. */
  function LetterCounts(text: seq<char>): (counts: seq<nat>)
    ensures |counts| == 26
  {
    CountsUpTo(text, 26)
  }

  /** The counts of the first n letters of the alphabet, in order. */
  function CountsUpTo(text: seq<char>, n: nat): (counts: seq<nat>)
    requires n <= 26
    ensures |counts| == n
  {
    if n == 0 then [] else CountsUpTo(text, n - 1) + [Occurrences(text, Letter(n - 1))]
  }

  /** Entry j of the first n counts counts the j-th letter. */
  lemma {:induction false} CountsUpToAt(text: seq<char>, n: nat, j: nat)
    requires j < n <= 26
    ensures CountsUpTo(text, n)[j] == Occurrences(text, Letter(j))
  {
    if j < n - 1 {
      CountsUpToAt(text, n - 1, j);
    }
  }

  /** Entry j of the counts is the multiplicity of the j-th letter, at
      most the text's length. */
  lemma LetterCountsAreMultiplicities(text: seq<char>)
    ensures forall j :: 0 <= j < 26 ==>
      LetterCounts(text)[j] == multiset(text)[Letter(j)] <= |text|
  {
    forall j | 0 <= j < 26
      ensures LetterCounts(text)[j] == multiset(text)[Letter(j)]
    {
      CountsUpToAt(text, 26, j);
      OccurrencesIsMultiplicity(text, Letter(j));
    }
  }

  function Sum(s: seq<nat>): nat {
    if s == [] then 0 else Sum(s[..|s| - 1]) + s[|s| - 1]
  }

  /** Number of lowercase letters in `text`. */
  function LowerCount(text: seq<char>): (n: nat)
    ensures n <= |text|
    ensures IsLowerText(text) ==> n == |text|
  {
    if text == [] then 0
    else LowerCount(text[..|text| - 1]) + (if IsLower(text[|text| - 1]) then 1 else 0)
  }

  /** The 26 counts add up to the number of lowercase letters, so for an
      all-lowercase text to its length: the frequencies partition the text. */
  lemma {:induction false} CountsSum(text: seq<char>)
    ensures Sum(LetterCounts(text)) == LowerCount(text)
    decreases |text|
  {
    if text == [] {
      forall j | 0 <= j < 26
        ensures LetterCounts(text)[j] == 0
      {
        CountsUpToAt(text, 26, j);
      }
      SumOfZeros(LetterCounts(text), 26);
      assert LetterCounts(text)[..26] == LetterCounts(text);
    } else {
      var n := |text| - 1;
      var init := text[..n];
      var x := text[n];
      assert text == init + [x];
      CountsSum(init);
      var before := LetterCounts(init);
      var after := LetterCounts(text);
      var k := if IsLower(x) then Offset(x) else 26;
      forall j | 0 <= j < 26
        ensures after[j] == before[j] + (if j == k then 1 else 0)
      {
        CountsUpToAt(text, 26, j);
        CountsUpToAt(init, 26, j);
        assert text[..n] == init;
      }
      SumBump(before, after, k, 26);
      assert before[..26] == before && after[..26] == after;
    }
  }

  lemma {:induction false} SumOfZeros(s: seq<nat>, j: nat)
    requires j <= |s|
    requires forall i :: 0 <= i < |s| ==> s[i] == 0
    ensures Sum(s[..j]) == 0
  {
    if j > 0 {
      assert s[..j][..j - 1] == s[..j - 1];
      SumOfZeros(s, j - 1);
    }
  }

  /** Adding one at index k adds one to every prefix sum that covers k. */
  lemma {:induction false} SumBump(a: seq<nat>, b: seq<nat>, k: int, j: nat)
    requires |a| == |b| && j <= |a|
    requires forall i :: 0 <= i < |a| ==> b[i] == a[i] + (if i == k then 1 else 0)
    ensures Sum(b[..j]) == Sum(a[..j]) + (if 0 <= k < j then 1 else 0)
  {
    if j > 0 {
      assert a[..j][..j - 1] == a[..j - 1];
      assert b[..j][..j - 1] == b[..j - 1];
      SumBump(a, b, k, j - 1);
    }
  }

  /** For a lowercase text the counts sum to its length. */
  lemma CountsSumToLength(text: seq<char>)
    requires IsLowerText(text)
    ensures Sum(LetterCounts(text)) == |text|
  {
    CountsSum(text);
  }
}
