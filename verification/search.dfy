/** The greedy key search: `performKeyAnalysis` picks, for every position of
    a key of a given length, the letter whose extracted set fits English
    best, and `analyze` picks the key length whose key fits best.

    The fit is a chi-squared score computed in floating point; here it is an
    abstract `Scorer`. Both scans start from `Integer.MAX_VALUE` as their
    "best so far" and replace it only on a strictly smaller score, so ties
    go to the first candidate and a score at or above that sentinel is
    never taken.

    The scans are defined over an arbitrary table of candidate scores
    (`Costs`); `KeyAnalysis` and `Analyze` plug in the table the solver
    computes from the ciphertext. */
module Search {
  import opened Letters
  import opened Outcomes
  import opened Cipher
  import opened Extractor
  import opened Frequency

  /** `Integer.MAX_VALUE` widened to a double. */
  const Sentinel: real := 2147483647.0

  /** `getXSQFrequencyScore(getLetterFrequencies(set), 0, textLength)`, seen
      through what it reads: the set's 26 letter counts, the set's length
      (the divisor of every frequency) and the ciphertext length. */
  type Scorer = (seq<nat>, nat, nat) -> real

  /** Score of candidate letter j at key position p for a key of length
      `keyLength`: the fit of the set the extractor generates from it. */
  function CandidateScore(score: Scorer, cipher: seq<char>, keyLength: nat, p: nat, j: nat): real
    requires keyLength >= 1 && j < 26
  {
    var set_ := GeneratedSet(p, keyLength, Letter(j), cipher);
    score(LetterCounts(set_), |set_|, |cipher|)
  }

  // ---------------------------------------------------------------------
  // The first-minimum scan shared by both loops
  // ---------------------------------------------------------------------

  /** j is the first index holding the least score. */
  ghost predicate FirstMinimum(scores: seq<real>, j: int) {
    && 0 <= j < |scores|
    && (forall k :: 0 <= k < |scores| ==> scores[j] <= scores[k])
    && (forall k :: 0 <= k < j ==> scores[j] < scores[k])
  }

  /** The least of the scores, or the sentinel if that is smaller. */
  function Floor(scores: seq<real>): (m: real)
    ensures m <= Sentinel
    ensures forall k :: 0 <= k < |scores| ==> m <= scores[k]
    ensures m == Sentinel || exists k :: 0 <= k < |scores| && m == scores[k]
  {
    if scores == [] then Sentinel
    else
      var m := Floor(scores[..|scores| - 1]);
      var last := scores[|scores| - 1];
      if last < m then last else m
  }

  /** Where a scan over candidate scores stands: the index of the
      candidate it holds (-1 for none yet) and that candidate's score. */
  datatype Best = Best(index: int, score: real)

  /** The state both scans start from: no candidate, best score
      `Integer.MAX_VALUE`. */
  const NoneYet := Best(-1, Sentinel)

  /** What a strict-< scan from `NoneYet` holds after the candidates before j. */
  ghost predicate ScanState(scores: seq<real>, j: nat, best: Best)
    requires j <= |scores|
  {
    if forall k :: 0 <= k < j ==> scores[k] >= Sentinel then best == NoneYet
    else
      && FirstMinimum(scores[..j], best.index)
      && best.score == scores[best.index]
      && best.score < Sentinel
  }

  /** The scan loop of `performKeyAnalysis` (over the letters a..z) and of
      `analyze` (over the key lengths), from candidate j on: a candidate
      replaces the held one only when its score is strictly smaller. */
  function Scan(scores: seq<real>, j: nat, best: Best): (r: Best)
    requires j <= |scores|
    requires ScanState(scores, j, best)
    ensures ScanState(scores, |scores|, r)
    decreases |scores| - j
  {
    if j == |scores| then best
    else
      var next := if scores[j] < best.score then Best(j, scores[j]) else best;
      assert scores[..j + 1] == scores[..j] + [scores[j]];
      Scan(scores, j + 1, next)
  }

  /** The candidate a full scan settles on: the first one with the least
      score, or none when no score is below the sentinel. */
  function ArgMin(scores: seq<real>): (r: Best)
    ensures r.index == -1 <==> forall k :: 0 <= k < |scores| ==> scores[k] >= Sentinel
    ensures r.index != -1 ==> FirstMinimum(scores, r.index)
    ensures r.score == Floor(scores)
  {
    var r := Scan(scores, 0, NoneYet);
    assert scores[..|scores|] == scores;
    r
  }

  // ---------------------------------------------------------------------
  // performKeyAnalysis
  // ---------------------------------------------------------------------

  /** A table of candidate scores: cost(p, j) scores letter j at key
      position p. */
  type Costs = (nat, nat) -> real

  /** The 26 candidate scores at key position p, in the order a..z. */
  function Row(cost: Costs, p: nat): (r: seq<real>)
    ensures |r| == 26
  {
    seq(26, j requires 0 <= j < 26 => cost(p, j))
  }

  /** The letter chosen for one key position: the first of a..z with the
      least score, or NUL (`(char) 0`) when no candidate scores below the
      sentinel; with the score it was chosen for. */
  function SelectLetter(scores: seq<real>): (r: (char, real))
    requires |scores| == 26
    ensures r.0 == 0 as char <==> forall k :: 0 <= k < 26 ==> scores[k] >= Sentinel
    ensures r.0 != 0 as char ==> IsLower(r.0) && FirstMinimum(scores, Offset(r.0))
    ensures r.1 == Floor(scores)
    ensures r.0 != 0 as char <==> r.1 < Sentinel
  {
    var b := ArgMin(scores);
    (if b.index == -1 then 0 as char else Letter(b.index), b.score)
  }

  /** The key and the running sum of chosen scores that the position loop
      of `performKeyAnalysis` holds. */
  datatype Progress = Progress(key: seq<char>, total: real)

  /** The sum of a sequence of scores, accumulated front to back. */
  function Total(s: seq<real>): real {
    if s == [] then 0.0 else Total(s[..|s| - 1]) + s[|s| - 1]
  }

  /** The least score at each of the first n positions, capped by the
      sentinel. */
  function Floors(cost: Costs, n: nat): (r: seq<real>)
    ensures |r| == n
  {
    if n == 0 then [] else Floors(cost, n - 1) + [Floor(Row(cost, n - 1))]
  }

  /** Entry p of the floors is the least score at position p, capped by the
      sentinel. */
  lemma {:induction false} FloorsAt(cost: Costs, n: nat, p: nat)
    requires p < n
    ensures Floors(cost, n)[p] == Floor(Row(cost, p))
  {
    if p < n - 1 {
      FloorsAt(cost, n - 1, p);
    }
  }

  /** The position loop after positions 0 .. n-1: the letter chosen at each
      position, and the sum of the least scores of those positions. */
  function Positions(cost: Costs, n: nat): (r: Progress)
    ensures |r.key| == n
    ensures forall p :: 0 <= p < n ==> r.key[p] == SelectLetter(Row(cost, p)).0
    ensures r.total == Total(Floors(cost, n))
  {
    if n == 0 then Progress([], 0.0)
    else
      var prev := Positions(cost, n - 1);
      var pick := SelectLetter(Row(cost, n - 1));
      var r := Progress(prev.key + [pick.0], prev.total + pick.1);
      assert forall p :: 0 <= p < n - 1 ==> r.key[p] == prev.key[p];
      assert Floors(cost, n)[..n - 1] == Floors(cost, n - 1);
      r
  }

  /** Each position adds at most the sentinel to the running sum, and
      strictly less exactly when it chose a letter, so the sum stays below
      n sentinels exactly when some letter was chosen. */
  lemma {:induction false} PositionsBound(cost: Costs, n: nat)
    ensures var r := Positions(cost, n);
      && r.total <= n as real * Sentinel
      && (r.total < n as real * Sentinel <==> exists p :: 0 <= p < n && r.key[p] != 0 as char)
  {
    if n > 0 {
      PositionsBound(cost, n - 1);
      var prev := Positions(cost, n - 1);
      var pick := SelectLetter(Row(cost, n - 1));
      var r := Positions(cost, n);
      assert r.total == prev.total + pick.1;
      assert r.key == prev.key + [pick.0];
      if pick.0 != 0 as char {
        assert r.key[n - 1] != 0 as char;
      } else {
        assert pick.1 == Sentinel;
        assert (exists p :: 0 <= p < n && r.key[p] != 0 as char)
           <==> (exists p :: 0 <= p < n - 1 && prev.key[p] != 0 as char);
      }
    }
  }

  /** The key `performKeyAnalysis` builds for one key length, and the mean of
      its per-position scores. */
  datatype KeyGuess = KeyGuess(key: seq<char>, score: real)

  /** `performKeyAnalysis` over a table of candidate scores. */
  function Guess(cost: Costs, keyLength: nat): (g: KeyGuess)
    requires keyLength >= 1
    ensures |g.key| == keyLength
    ensures g.score <= Sentinel
  {
    var r := Positions(cost, keyLength);
    PositionsBound(cost, keyLength);
    MeanAgainstSentinel(r.total, keyLength);
    KeyGuess(r.key, r.total / keyLength as real)
  }

  /** A key length scores below the sentinel exactly when its key holds
      at least one chosen letter. */
  lemma GuessBeatsSentinel(cost: Costs, keyLength: nat)
    requires keyLength >= 1
    ensures var g := Guess(cost, keyLength);
      g.score < Sentinel <==> exists p :: 0 <= p < keyLength && g.key[p] != 0 as char
  {
    var r := Positions(cost, keyLength);
    PositionsBound(cost, keyLength);
    MeanAgainstSentinel(r.total, keyLength);
  }

  /** Dividing a total by a positive count compares with the sentinel as
      the total compares with count times the sentinel. */
  lemma MeanAgainstSentinel(total: real, n: nat)
    requires n >= 1
    ensures total / n as real <= Sentinel <==> total <= n as real * Sentinel
    ensures total / n as real < Sentinel <==> total < n as real * Sentinel
  {
  }

  /** c is the letter a scan of position p settles on: NUL exactly when
      every candidate there scores at or above the sentinel, and otherwise
      the first of a..z whose score is no worse than any other's. */
  ghost predicate ChoosesFirstLeast(cost: Costs, p: nat, c: char) {
    && (c == 0 as char <==> forall j :: 0 <= j < 26 ==> cost(p, j) >= Sentinel)
    && (c != 0 as char ==>
          && IsLower(c)
          && (forall j :: 0 <= j < 26 ==> cost(p, Offset(c)) <= cost(p, j))
          && (forall j :: 0 <= j < Offset(c) ==> cost(p, Offset(c)) < cost(p, j)))
  }

  /** The letter selected at position p is the first least-scoring one. */
  lemma PositionChoice(cost: Costs, p: nat)
    ensures ChoosesFirstLeast(cost, p, SelectLetter(Row(cost, p)).0)
  {
    var row := Row(cost, p);
    assert forall j :: 0 <= j < 26 ==> row[j] == cost(p, j);
  }

  /** Every key letter is the first of a..z with the least score at its
      position, NUL exactly where no candidate scores below the sentinel,
      and the key's score is the mean of the per-position least scores. */
  lemma {:induction false} GuessChoosesFirstMinima(cost: Costs, keyLength: nat)
    requires keyLength >= 1
    ensures var g := Guess(cost, keyLength);
      && (forall p :: 0 <= p < keyLength ==> ChoosesFirstLeast(cost, p, g.key[p]))
      && g.score == Total(Floors(cost, keyLength)) / keyLength as real
  {
    var g := Guess(cost, keyLength);
    forall p | 0 <= p < keyLength
      ensures ChoosesFirstLeast(cost, p, g.key[p])
    {
      PositionChoice(cost, p);
    }
  }

  /** The candidate table the solver computes for one key length: letter j
      at position p scores as the set the extractor generates from it. */
  function CandidateCosts(score: Scorer, cipher: seq<char>, keyLength: nat): (cost: Costs)
    requires keyLength >= 1
    ensures forall p: nat, j: nat :: j < 26 ==> cost(p, j) == CandidateScore(score, cipher, keyLength, p, j)
  {
    (p: nat, j: nat) => if j < 26 then CandidateScore(score, cipher, keyLength, p, j) else 0.0
  }

  /** `performKeyAnalysis(keyLength, cipher)` without the console report and
      the side table: the guessed key and its score. */
  function KeyAnalysis(keyLength: nat, cipher: seq<char>, score: Scorer): (g: KeyGuess)
    requires keyLength >= 1
    ensures |g.key| == keyLength
    ensures g.score <= Sentinel
  {
    Guess(CandidateCosts(score, cipher, keyLength), keyLength)
  }

  /** `performKeyAnalysis` in the solver's terms: each key letter is the
      first of a..z whose generated set scores least, NUL exactly where no
      letter scores below the sentinel, and the score is the mean of the
      per-position least scores. */
  lemma {:induction false} KeyAnalysisChoosesFirstMinima(keyLength: nat, cipher: seq<char>, score: Scorer)
    requires keyLength >= 1
    ensures var g := KeyAnalysis(keyLength, cipher, score);
      var cost := CandidateCosts(score, cipher, keyLength);
      && (forall p :: 0 <= p < keyLength ==> ChoosesFirstLeast(cost, p, g.key[p]))
      && g.score == Total(Floors(cost, keyLength)) / keyLength as real
  {
    GuessChoosesFirstMinima(CandidateCosts(score, cipher, keyLength), keyLength);
  }

  // ---------------------------------------------------------------------
  // analyze
  // ---------------------------------------------------------------------

  /** The outcome of `analyze`: the winning length `guessedKeylength` of its
      loop, the key read back for it, the best score and the plaintext.
      The length `analyze` prints is `guessedKey.length()`, that is
      `|key|`; it differs from `keyLength` only for a negative winner. */
  datatype Analysis = Analysis(keyLength: int, key: seq<char>, score: real, plaintext: seq<char>)

  /** The scores f(lo), f(lo + 1), ..., f(hi) of the candidate lengths. */
  function RangeScores(f: int -> real, lo: int, hi: int): (r: seq<real>)
    ensures |r| == if hi < lo then 0 else hi - lo + 1
  {
    var n := if hi < lo then 0 else hi - lo + 1;
    seq(n, k requires 0 <= k < n => f(lo + k))
  }

  lemma RangeScoresAt(f: int -> real, lo: int, hi: int, k: nat)
    requires lo + k <= hi
    ensures RangeScores(f, lo, hi)[k] == f(lo + k)
  {
  }

  /** The length loop of `analyze` over any length score f: it settles on
      no length exactly when no length in [lo, hi] scores below the
      sentinel, and otherwise on the first length with the least score. */
  lemma {:induction false} ScanRange(f: int -> real, lo: int, hi: int)
    ensures var b := ArgMin(RangeScores(f, lo, hi));
      && (b.index == -1 <==> forall l :: lo <= l <= hi ==> f(l) >= Sentinel)
      && (b.index != -1 ==>
            && lo <= lo + b.index <= hi
            && b.score == f(lo + b.index)
            && (forall l :: lo <= l <= hi ==> b.score <= f(l))
            && (forall l :: lo <= l < lo + b.index ==> b.score < f(l)))
  {
    var scores := RangeScores(f, lo, hi);
    var b := ArgMin(scores);
    forall k | 0 <= k < |scores|
      ensures scores[k] == f(lo + k)
    {
      RangeScoresAt(f, lo, hi, k);
    }
    if b.index == -1 {
      forall l | lo <= l <= hi
        ensures f(l) >= Sentinel
      {
        assert scores[l - lo] >= Sentinel;
      }
    } else {
      forall l | lo <= l <= hi
        ensures b.score <= f(l)
      {
        assert b.score <= scores[l - lo];
      }
      forall l | lo <= l < lo + b.index
        ensures b.score < f(l)
      {
        assert b.score < scores[l - lo];
      }
    }
  }

  /** What `performKeyAnalysis` returns for each key length. */
  type KeyAnalyses = int -> KeyGuess

  /** The score of each length's key analysis. */
  function ScoresOf(analyses: KeyAnalyses): (f: int -> real)
    ensures forall l :: f(l) == analyses(l).score
  {
    (l: int) => analyses(l).score
  }

  /** The length loop of `analyze`: the first length in [lo, hi] whose key
      analysis has the least score, as `Best(length, score)`, or `NoneYet`
      when no length scores below the sentinel. */
  function ChooseLength(analyses: KeyAnalyses, lo: int, hi: int): (b: Best)
    ensures b == NoneYet <==> forall l :: lo <= l <= hi ==> analyses(l).score >= Sentinel
    ensures b != NoneYet ==>
      && lo <= b.index <= hi
      && b.score == analyses(b.index).score
      && (forall l :: lo <= l <= hi ==> b.score <= analyses(l).score)
      && (forall l :: lo <= l < b.index ==> b.score < analyses(l).score)
  {
    var f := ScoresOf(analyses);
    var a := ArgMin(RangeScores(f, lo, hi));
    ScanRange(f, lo, hi);
    if a.index == -1 then NoneYet else Best(lo + a.index, a.score)
  }

  /** Whether the side table holds a key for length 0, the length `analyze`
      reads back when no length beats the sentinel: exactly when 0 was
      among the lengths analysed. */
  predicate ZeroInRange(minKeylength: int, maxKeylength: int) {
    minKeylength <= 0 <= maxKeylength
  }

  /** `analyze()` over the key analyses it obtains for each length: the
      length in [minKeylength, maxKeylength] with the least score, ties to
      the shortest, with its key, score and the plaintext that key
      deciphers. When no length scores below the sentinel the guessed
      length stays 0 and the score `Integer.MAX_VALUE`; the key read back
      for length 0 is the one analysed for it if 0 was in range, and null
      otherwise, so that reporting it throws. */
  function AnalyzeWith(minKeylength: int, maxKeylength: int, cipher: seq<char>, analyses: KeyAnalyses): (r: Result<Analysis>)
    requires cipher == [] || forall l :: minKeylength <= l <= maxKeylength ==> analyses(l).key != []
    ensures r.Failure? <==>
      && !ZeroInRange(minKeylength, maxKeylength)
      && forall l :: minKeylength <= l <= maxKeylength ==> analyses(l).score >= Sentinel
    ensures r.Failure? ==> r.error == NullPointer
    ensures r.Success? ==>
      var a := r.value;
      && minKeylength <= a.keyLength <= maxKeylength
      && a.key == analyses(a.keyLength).key
      && a.score <= Sentinel
      && (forall l :: minKeylength <= l <= maxKeylength ==> a.score <= analyses(l).score)
      && (a.score < Sentinel <==> exists l :: minKeylength <= l <= maxKeylength && analyses(l).score < Sentinel)
      && (a.score < Sentinel ==>
            && a.score == analyses(a.keyLength).score
            && forall l :: minKeylength <= l < a.keyLength ==> a.score < analyses(l).score)
      && (a.score == Sentinel ==> a.keyLength == 0)
      && Decipher(a.key, cipher) == Success(a.plaintext)
  {
    var best := ChooseLength(analyses, minKeylength, maxKeylength);
    if best == NoneYet then
      if ZeroInRange(minKeylength, maxKeylength) then
        var key := analyses(0).key;
        Success(Analysis(0, key, Sentinel, DecipherText(key, cipher)))
      else Failure(NullPointer)
    else
      var key := analyses(best.index).key;
      Success(Analysis(best.index, key, best.score, DecipherText(key, cipher)))
  }

  /** The key analyses the solver computes. A positive length gets
      `performKeyAnalysis`'s key and score. Below that the key is empty:
      length 0 divides 0.0 by 0 and scores NaN, which loses every
      comparison as the sentinel does; a negative length scores -0.0,
      which compares as 0.0. (Both are reached only for an empty
      ciphertext: otherwise printing their decipherment throws first.) */
  function SolverAnalyses(cipher: seq<char>, score: Scorer): (analyses: KeyAnalyses)
    ensures forall l :: l >= 1 ==> |analyses(l).key| == l
    ensures forall l :: l < 1 ==> analyses(l).key == []
  {
    (l: int) =>
      if l >= 1 then KeyAnalysis(l, cipher, score)
      else if l == 0 then KeyGuess([], Sentinel)
      else KeyGuess([], 0.0)
  }

  /** Each positive length gets exactly what `KeyAnalysis` computes. */
  lemma SolverAnalysesAt(cipher: seq<char>, score: Scorer, l: int)
    requires l >= 1
    ensures SolverAnalyses(cipher, score)(l) == KeyAnalysis(l, cipher, score)
  {
  }

  /** `analyze()` on a ciphertext. If the first length tried is not
      positive and the ciphertext is not empty, `performKeyAnalysis`
      prints the decipherment under the empty key and that throws.
      Otherwise the length loop runs over the solver's key analyses. A
      positive winning length comes with `KeyAnalysis`'s key and score
      for it; a negative one with the empty key and score 0 (as -0.0); and
      length 0, the winner when no length beats the sentinel but 0 was in
      range, with the empty key and `Integer.MAX_VALUE`. The last two need
      an empty ciphertext. The plaintext is the key's decipherment. */
  function Analyze(minKeylength: int, maxKeylength: int, cipher: seq<char>, score: Scorer): (r: Result<Analysis>)
    ensures r == Failure(IndexOutOfBounds) <==> minKeylength <= 0 && minKeylength <= maxKeylength && cipher != []
    ensures r == Failure(NullPointer) ==> !ZeroInRange(minKeylength, maxKeylength)
    ensures r.Failure? ==> r.error == IndexOutOfBounds || r.error == NullPointer
    ensures r.Success? ==>
      var a := r.value;
      && minKeylength <= a.keyLength <= maxKeylength
      && (a.keyLength >= 1 ==>
            && a.key == KeyAnalysis(a.keyLength, cipher, score).key
            && |a.key| == a.keyLength
            && a.score == KeyAnalysis(a.keyLength, cipher, score).score
            && a.score < Sentinel)
      && (a.keyLength < 1 ==> a.key == [] && cipher == [])
      && (a.keyLength < 0 ==> a.score == 0.0)
      && (a.keyLength == 0 <==> a.score == Sentinel)
      && Decipher(a.key, cipher) == Success(a.plaintext)
  {
    if minKeylength <= 0 && minKeylength <= maxKeylength && cipher != [] then Failure(IndexOutOfBounds)
    else
      var r := AnalyzeWith(minKeylength, maxKeylength, cipher, SolverAnalyses(cipher, score));
      if r.Success? && r.value.keyLength >= 1 then SolverAnalysesAt(cipher, score, r.value.keyLength); r else r
  }

  /** `analyze()` against each positive length l in range: it throws a
      null pointer, or has winning length 0, only if l scores at or above the
      sentinel, and otherwise reports a score no worse than l's, strictly
      better when l is shorter than the winning length. */
  lemma {:induction false} AnalyzeAgainstLength(minKeylength: int, maxKeylength: int, cipher: seq<char>, score: Scorer, l: int)
    requires 1 <= l && minKeylength <= l <= maxKeylength
    ensures var r := Analyze(minKeylength, maxKeylength, cipher, score);
      var s := KeyAnalysis(l, cipher, score).score;
      && (r == Failure(NullPointer) ==> s >= Sentinel)
      && (r.Success? && r.value.keyLength == 0 ==> s >= Sentinel)
      && (r.Success? ==> r.value.score <= s)
      && (r.Success? && l < r.value.keyLength ==> r.value.score < s)
  {
    SolverAnalysesAt(cipher, score, l);
  }

  /** An empty ciphertext analysed for the lengths 0 .. maxKeylength: length
      0 is analysed first (empty key, NaN score), and if no positive length
      beats the sentinel, `analyze` reads back that empty key for length 0
      and reports it with `Integer.MAX_VALUE` and an empty plaintext. */
  lemma EmptyCiphertextFromZero(maxKeylength: int, score: Scorer)
    requires maxKeylength >= 0
    requires forall l :: 1 <= l <= maxKeylength ==> KeyAnalysis(l, [], score).score >= Sentinel
    ensures Analyze(0, maxKeylength, [], score) == Success(Analysis(0, [], Sentinel, []))
  {
  }
}
