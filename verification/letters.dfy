/** The 26-letter alphabet and the two single-letter rotations of the
    Autokey cipher (`shiftChar` / `unshiftChar` of the solver).

    The rotations are modelled on every Dafny character and every shift
    taken as an unbounded integer, not only on lowercase letters. The
    source's `int` arithmetic would wrap for shifts near the 32-bit bounds;
    its callers only pass a character code minus 97, far from them. A Dafny
    `char` is a Unicode scalar value where a Java `char` is a UTF-16 code
    unit; the two agree on a..z. The source computes
    `(code + shift - 97) % 26 + 97` with Java's remainder, which truncates
    toward zero, so a character outside a..z or a negative shift still
    yields a well-defined character code in [72, 122]. The search can hand
    such shifts to `decipher` (a NUL key letter gives shift -97), so the
    model keeps them. */
module Letters {

  /** Code of 'a'; every character is turned into a shift by subtracting it. */
  const A: int := 97

  predicate IsLower(c: char) {
    'a' <= c <= 'z'
  }

  predicate IsLowerText(s: seq<char>) {
    forall i :: 0 <= i < |s| ==> IsLower(s[i])
  }

  /** True when every character is at most 'z', i.e. its shift is at most 25.
      Lowercase keys qualify, and so do keys holding NUL letters. */
  predicate AtMostZ(s: seq<char>) {
    forall i :: 0 <= i < |s| ==> s[i] <= 'z'
  }

  /** The shift a character stands for: `(int)c - 97`. */
  function Offset(c: char): int {
    c as int - A
  }

  /** The j-th letter of the alphabet: `(char)(97 + j)`. */
  function Letter(j: int): (c: char)
    requires 0 <= j < 26
    ensures IsLower(c) && Offset(c) == j
  {
    (A + j) as char
  }

  /** Java's `a % 26`: the remainder of truncating division, which carries
      the sign of `a` (unlike Dafny's Euclidean `%`). */
  function Rem26(a: int): (r: int)
    ensures -26 < r < 26
    ensures (a - r) % 26 == 0
    ensures a >= 0 ==> r >= 0
    ensures a <= 0 ==> r <= 0
  {
    if a >= 0 then a % 26 else -((-a) % 26)
  }

  /** `shiftChar`: rotates forward by `shift` (the encryption direction). */
  function ShiftChar(c: char, shift: int): (r: char)
    ensures 'H' <= r <= 'z'
    ensures IsLower(c) && shift >= 0 ==> IsLower(r) && Offset(r) == (Offset(c) + shift) % 26
  {
    (Rem26(c as int + shift - A) + A) as char
  }

  /** `unshiftChar`: rotates backward by `shift` (the decryption direction). */
  function UnshiftChar(c: char, shift: int): (r: char)
    ensures 'H' <= r <= 'z'
    ensures IsLower(c) && shift <= 26 ==> IsLower(r) && Offset(r) == (Offset(c) - shift) % 26
  {
    (Rem26(c as int + 26 - A - shift) + A) as char
  }

  /** Unshifting undoes shifting for every lowercase letter and every shift
      up to 25, negative shifts included. */
  lemma UnshiftShift(c: char, shift: int)
    requires IsLower(c) && shift <= 25
    ensures UnshiftChar(ShiftChar(c, shift), shift) == c
  {
  }

  /** Shifting undoes unshifting for every lowercase letter and every shift
      in [0, 26]. */
  lemma ShiftUnshift(c: char, shift: int)
    requires IsLower(c) && 0 <= shift <= 26
    ensures ShiftChar(UnshiftChar(c, shift), shift) == c
  {
  }
}
