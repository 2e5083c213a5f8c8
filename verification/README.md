# Vigenère Autokey solver — a Dafny model

This project models the engine of `AutokeySolver`, a solver for the
Vigenère Autokey cipher. Enciphering keys position i of the message with
character i of `key + plaintext`. Deciphering therefore keys each position
past the key with the plaintext character recovered `|key|` positions
earlier.

The solver guesses the key one position at a time. For a key length L, a
position p and a candidate letter c, `getGeneratedSet` follows that
recurrence along the ciphertext positions p, p+L, p+2L, ... alone. If c and
L are right, this yields exactly those plaintext characters. Their letter
frequencies are scored against English by a chi-squared score.
`performKeyAnalysis` keeps, at every position, the first letter with the
least score. `analyze` keeps the first key length whose mean score is least
and deciphers the ciphertext with its key.

Modules, one per file:

- `Letters` (`letters.dfy`) models `shiftChar` and `unshiftChar`. Java's
  truncating `%` is written out, so both are total on every Dafny character
  and every shift taken as an unbounded integer (the 32-bit wrap-around
  of the source's arithmetic is not modelled; see "Left out").
- `Outcomes` (`outcomes.dfy`) holds the two Java exceptions the engine can
  raise on its own inputs, and a `Result` type.
- `Cipher` (`cipher.dfy`) models `encipher` and `decipher`, with the
  self-keying recurrence as an independent characterisation of `decipher`.
- `Extractor` (`extractor.dfy`) models `getGeneratedSet` and proves that it
  agrees with `decipher`. This includes the worked example in its
  documentation.
- `Frequency` (`frequency.dfy`) models the letter counts behind
  `getLetterFrequency` and `getLetterFrequencies`.
- `Search` (`search.dfy`) models the first-minimum scans of
  `performKeyAnalysis` and `analyze`. The chi-squared score is an abstract
  `Scorer`.

The scans are stated over an arbitrary table of scores. `Search.Guess` and
`Search.ChooseLength` take such a table. `Search.KeyAnalysis` and
`Search.Analyze` plug in the table the solver computes from the ciphertext.

Nothing in the code rejects an empty key-length range or a minimum key
length below 1, and the model follows the code in both cases.

- When no length scores below `Integer.MAX_VALUE`, the guessed length stays
  0 and the reported score stays `Integer.MAX_VALUE`. The key read back from
  the side table for length 0 depends on whether 0 was in range.
  - If 0 was in range, the key is the one analysed for length 0, the empty
    key. `analyze` then finishes normally and reports length 0.
  - Otherwise the key is null, and reporting it throws a
    `NullPointerException`. It is thrown in `decipher` when the ciphertext
    is non-empty, and at `guessedKey.length()` when it is empty.
    `Search.Analyze` returns `Failure(NullPointer)` in that case.
- When the first length tried is not positive, `performKeyAnalysis` builds
  the empty key and prints its decipherment. On a non-empty ciphertext that
  throws a `StringIndexOutOfBoundsException`, which `Search.Analyze` returns
  as `Failure(IndexOutOfBounds)`. Length 0 in range with a non-empty
  ciphertext therefore always throws, so reporting length 0 requires an
  empty ciphertext.

Another edge case comes from `performKeyAnalysis`. When no letter at a
position scores below the sentinel, it keeps the NUL character
`(char) 0` as that position's key letter. NUL stands for shift -97.
Because of this, the rotations are modelled for every unbounded integer
shift, negative ones included, and the round
trip is proved for every key whose characters are at most `'z'`.

## Model

| member | source | states |
|---|---|---|
| Letters.Rem26 | src/AutokeySolver.java:352 | Java's `% 26`: the result lies strictly between -26 and 26, is congruent to its argument modulo 26, and carries the argument's sign |
| Letters.ShiftChar | src/AutokeySolver.java:363-366 | for any character and any unbounded integer shift the result code lies in ['H', 'z']; a lowercase letter shifted by a non-negative amount is the lowercase letter that many places further round the alphabet |
| Letters.UnshiftChar | src/AutokeySolver.java:350-353 | for any character and any unbounded integer shift the result code lies in ['H', 'z']; a lowercase letter unshifted by at most 26 is the lowercase letter that many places back round the alphabet |
| Letters.UnshiftShift | src/AutokeySolver.java:350-366 | unshifting undoes shifting for every lowercase letter and every shift up to 25, negative shifts included |
| Letters.ShiftUnshift | src/AutokeySolver.java:350-366 | shifting undoes unshifting for every lowercase letter and every shift in [0, 26] |
| Cipher.Encipher | src/AutokeySolver.java:373-385 | the ciphertext is as long as the plaintext, and lowercase key and plaintext give a lowercase ciphertext |
| Cipher.Decipher | src/AutokeySolver.java:393-409 | fails, with an index-out-of-bounds error, exactly when the key is empty and the ciphertext is not; otherwise the plaintext satisfies the self-keying recurrence |
| Cipher.DecipherIsSelfKeyed | src/AutokeySolver.java:396-407 | each deciphered character is the ciphertext character unshifted by the key character while the key lasts, and afterwards by the plaintext character one key length back |
| Cipher.SelfKeyedIsDecipher | src/AutokeySolver.java:396-407 | the recurrence has exactly one solution: any plaintext satisfying it is what deciphering returns |
| Cipher.DecipherPrefix | src/AutokeySolver.java:396-407 | deciphering is prefix-stable: the first n plaintext characters depend only on the key and the first n ciphertext characters |
| Cipher.DecipherLowercase | src/AutokeySolver.java:396-407 | a lowercase ciphertext deciphers to a lowercase plaintext under any non-empty key whose characters are at most 'z' |
| Cipher.RoundTrip | src/AutokeySolver.java:373-409 | deciphering an enciphered lowercase plaintext under the same non-empty key (characters at most 'z') succeeds and returns the plaintext |
| Extractor.GetGeneratedSet | src/AutokeySolver.java:328-340 | the loop, which steps the index by the key length and carries the last recovered character as the next shift, computes the recursive definition of the extracted set |
| Extractor.GeneratedSetShape | src/AutokeySolver.java:328-340 | the set has one character per ciphertext index p, p+L, p+2L, ...; the first is unshifted by the seed letter and each later one by its predecessor in the set |
| Extractor.StrideShape | src/AutokeySolver.java:332 | the indices visited are exactly start + k*step below the text length, each read in order |
| Extractor.GeneratedSetIsStrideOfDecipher | src/AutokeySolver.java:303-340 | seeded with the true key letter at position p, the set equals the plaintext characters at p, p+n, p+2n, ... (n the key length) that `decipher` recovers |
| Extractor.GeneratedSetRecoversPlaintext | src/AutokeySolver.java:303-340 | extracting from an enciphered lowercase message under its own key letter returns that stride of the original plaintext |
| Extractor.WorkedExampleDeciphers | src/AutokeySolver.java:313-315 | under key "ab", "hfspzxmzyzeuwpgzs" deciphers to "hellomynameishose" |
| Extractor.WorkedExample | src/AutokeySolver.java:311-326 | the documented results: seeds 'a' at position 0 and 'b' at position 1 of a length-2 key give "hloyaesoe" and "elmnmihs" |
| Frequency.LetterCount | src/AutokeySolver.java:139-146 | the counting loop returns the recursive count of the letter, which is its multiplicity in the text; this is at most the text's length, and zero exactly when the letter is absent |
| Frequency.OccurrencesIsMultiplicity | src/AutokeySolver.java:141-144 | the recursive count equals the letter's multiplicity in the text |
| Frequency.CountsUpToAt | src/AutokeySolver.java:276-277 | entry j of the counts counts the letter (char)(97 + j) |
| Frequency.LetterCountsAreMultiplicities | src/AutokeySolver.java:273-279 | each of the 26 counts is the multiplicity of its letter, bounded by the text length |
| Frequency.CountsSum | src/AutokeySolver.java:273-279 | the 26 counts add up to the number of lowercase letters in the text |
| Frequency.CountsSumToLength | src/AutokeySolver.java:273-279 | for a lowercase text the 26 counts add up to its length, so the frequencies partition the text |
| Search.Floor | src/AutokeySolver.java:239-248 | the least-score bound: at most the sentinel, at most every score, and equal to the sentinel or one of the scores |
| Search.Scan | src/AutokeySolver.java:237-249 | a strict-< scan from `Integer.MAX_VALUE` holds no candidate while no score is below the sentinel, and otherwise the first index with the least score seen so far |
| Search.ArgMin | src/AutokeySolver.java:237-249 | the full scan picks no candidate exactly when every score is at or above the sentinel, and otherwise the first index of the least score; the score it keeps is that minimum capped by the sentinel |
| Search.SelectLetter | src/AutokeySolver.java:236-250 | the letter chosen at one position is NUL exactly when no candidate scores below the sentinel; otherwise it is the first of a..z with the least score |
| Search.Positions | src/AutokeySolver.java:233-253 | after n positions the key has n letters, each one the letter selected at its position, and the running sum is the sum of the per-position least scores |
| Search.FloorsAt | src/AutokeySolver.java:245-252 | the p-th summand is the least score at position p, capped by the sentinel |
| Search.PositionsBound | src/AutokeySolver.java:233-253 | the running sum is at most n sentinels, and strictly less exactly when some position chose a letter |
| Search.Guess | src/AutokeySolver.java:228-265 | the guessed key has the requested length and its mean score is at most the sentinel |
| Search.GuessBeatsSentinel | src/AutokeySolver.java:233-255 | a key length scores below the sentinel exactly when its key holds a chosen (non-NUL) letter |
| Search.PositionChoice | src/AutokeySolver.java:237-249 | the letter chosen at position p is NUL exactly when every candidate there scores at or above the sentinel; otherwise it is lowercase, scores no worse than any letter, and strictly better than every earlier letter |
| Search.GuessChoosesFirstMinima | src/AutokeySolver.java:228-265 | every key letter is the first least-scoring letter at its position, NUL exactly where no candidate scores below the sentinel, and the key's score is the mean of the per-position least scores |
| Search.KeyAnalysis | src/AutokeySolver.java:228-265 | the key analysis of a length has a key of that length and a score at most the sentinel |
| Search.KeyAnalysisChoosesFirstMinima | src/AutokeySolver.java:228-265 | the same, in the solver's own terms: each key letter is the first whose extracted set scores least, NUL where no letter beats the sentinel, and the key's score is the mean of the per-position least scores |
| Search.ScanRange | src/AutokeySolver.java:70-80 | the length loop keeps no length exactly when no length in range scores below the sentinel; otherwise it keeps the first length with the least score |
| Search.ChooseLength | src/AutokeySolver.java:70-80 | the chosen length is in range, scores no worse than every length in range and strictly better than every shorter one; none is chosen exactly when every length scores at or above the sentinel |
| Search.AnalyzeWith | src/AutokeySolver.java:66-83 | given each length's key analysis (keys non-empty unless the ciphertext is empty): it fails with a null-pointer error exactly when no length scores below the sentinel and 0 is outside the range. Otherwise its winning length is in range and comes with that length's key and the key's decipherment of the ciphertext. Its score is no worse than any length's. The score is below the sentinel exactly when some length's is, and then it is the first least-scoring length's own score. Otherwise it is the sentinel, with winning length 0 |
| Search.SolverAnalyses | src/AutokeySolver.java:228-265 | the key analysis of every positive length has a key of that length, and every other length has the empty key |
| Search.Analyze | src/AutokeySolver.java:66-83 | the solver's `analyze`. It fails with an index-out-of-bounds error exactly when the first length tried is not positive and the ciphertext is not empty; it fails with a null-pointer error only when 0 is outside the range. A success carries the loop's winning length (`guessedKeylength`, not the printed key length), which lies in range. A positive winning length comes with that length's key analysis: a key of that length and its score, below the sentinel. Lengths below 1 come with the empty key and need an empty ciphertext: a negative length scores 0, and the winning length is 0 exactly when the score is the sentinel. The plaintext is always the key's decipherment |
| Search.AnalyzeAgainstLength | src/AutokeySolver.java:70-83 | against any positive length in range: a null-pointer failure, or a winning length of 0, means that length scores at or above the sentinel; a success has a score no worse than that length's, and strictly better when the length is shorter than the winning one |
| Search.EmptyCiphertextFromZero | src/AutokeySolver.java:66-92 | an empty ciphertext analysed from length 0, with no positive length beating the sentinel, is reported normally: length 0, the empty key, score `Integer.MAX_VALUE` and the empty plaintext |

## Left out

- Loading the ciphertext file (`src/AutokeySolver.java:110-131`) is I/O. So is its normalisation, and the argument parsing in `src/Autokey.java`. The ciphertext is a parameter.
- The console reports of `analyze` and `performKeyAnalysis` are output only and do not affect the result, except for two that can throw. `Search.Analyze` models both:
  - Printing the decipherment under the empty key (`src/AutokeySolver.java:260`) throws an index-out-of-bounds error on a non-empty ciphertext.
  - `guessedKey.length()` on a null key (`src/AutokeySolver.java:87`) throws a null-pointer error when the ciphertext is empty. The `decipher` call at line 83 throws first on a non-empty one.
- The `guessedKeys` side table is not modelled as a map. Each length's key is returned with its score instead. The table is filled for every length in range and read back once, for `guessedKeylength`. That is the winning length, or 0 when no length wins. The read-back for 0 is modelled explicitly: the key analysed for length 0 if 0 was in range, and otherwise null, which throws.
- `getXSQFrequencyScore` and the English frequency table it compares against are left out. So are the division and three-decimal rounding of `getLetterFrequency`. All of these are floating point. The score is an abstract `Scorer` of the set's 26 letter counts, its length and the ciphertext length, which is everything those computations read. NaN, infinities and rounding of the mean are therefore not modelled.
- `getFactors` is not used by the search.
- The constructors' default range of 1 to 100 is configuration.
- Search.SolverAnalyses: a length below 1 is not scored as a double. Length 0 scores NaN (0.0 divided by 0), and it is modelled by the sentinel: each loses every strict `<` against a running best that never exceeds the sentinel. A negative length scores -0.0, and it is modelled by 0.0, which compares the same.
- Search.Analyze: does not model 32-bit overflow of the loop counters, because the model's integers are unbounded. The model finishes the scan over the whole range instead. In Java, a key length near `Integer.MAX_VALUE` makes the counters wrap:
  - `i += keyLength` in `getGeneratedSet` (`src/AutokeySolver.java:332`) wraps to a negative index that still passes `i < cipher.length()`. `charAt` at line 334 then throws an index-out-of-bounds exception. This happens on a ciphertext of 2 or more characters.
  - When `maxKeylength` is `Integer.MAX_VALUE`, `i++` in `analyze` (line 72) wraps to `Integer.MIN_VALUE`. On a 1-character ciphertext, `performKeyAnalysis` then prints the decipherment under the empty key (line 260), which throws an index-out-of-bounds exception. Only on the empty ciphertext does the loop never end.
- Search.Analyze: the result's `keyLength` is the loop's `guessedKeylength`. `analyze` prints `guessedKey.length()` instead (`src/AutokeySolver.java:87`), which is the length of the result's `key`. The two differ only when a negative length wins, which needs an empty ciphertext. For example, on `[-2, 3]` length -2 scores -0.0 and wins, and Java prints length 0 with score -0.0.
- Letters.ShiftChar: does not model Java's 16-bit `char`. Dafny's `char` is a Unicode scalar value, so it cannot hold a lone surrogate (0xD800-0xDFFF), which a Java `char` can. It can hold code points above 0xFFFF, which Java stores as two `char`s, so a text containing them has a different length and different `charAt` indices in Java. On lowercase text the two agree. Every result code lies in ['H', 'z'], so the rotations themselves need no narrowing cast.
- Letters.ShiftChar: the shift is an unbounded integer. Java computes `(int)c + shift - 97` (line 365) and `(int)c + 26 - 97 - shift` (line 352) in 32-bit `int`, which wraps for shifts near `Integer.MAX_VALUE` or `Integer.MIN_VALUE`. For example, Java's `shiftChar('z', Integer.MAX_VALUE)` is 'a', where the model gives 'w'. Every caller passes a character code minus 97, which lies in [-97, 65438], so no call the engine makes wraps.
- Letters.UnshiftChar: the same unbounded shift; the 32-bit wrap at line 352 for shifts near the `int` bounds is not modelled.
- Extractor.GetGeneratedSet: requires `keyLength >= 1`. With `keyLength == 0` and `keyPosition` below the ciphertext length, the source loop at line 332 never ends, because `i += 0` does not advance. With a negative `keyLength` it reaches `charAt` at a negative index and throws. Its only caller (line 241) passes the key length of `performKeyAnalysis`'s loop, which is at least 1 whenever that loop runs.
