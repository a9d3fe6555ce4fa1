/** The alphabet shared by every part of the machine (enigma.h): letters are
    the indices 0..25, and the character form 'A'..'Z' is used only at the
    message boundary. */
module Alphabet {

  const AlphaSize: int := 26
  const MinIndex: int := AlphaSize - AlphaSize
  const MaxIndex: int := AlphaSize - 1

  predicate InAlphabet(x: int) {
    MinIndex <= x <= MaxIndex
  }

  /** The count before a positive count. The recursions over counts step
      down through this function rather than through the bare `n - 1`,
      which keeps the verifier from unfolding them on constant arguments
      without end. */
  function Prev(n: nat): (k: nat)
    requires n > 0
    ensures k + 1 == n
  {
    n - 1
  }

  /** The remainder of C's `%` operator, which truncates toward zero (so the
      result takes the sign of `x`), unlike Dafny's Euclidean `%`. */
  function CRem(x: int, n: int): int
    requires n > 0
  {
    if x >= 0 then x % n else -((-x) % n)
  }

  /** The rotor's reduction `(ALPHA_SIZE + ((x) % ALPHA_SIZE)) % ALPHA_SIZE`,
      written with C's remainder: it lands in the alphabet and agrees with the
      mathematical residue for negative `x` as well. */
  function Reduce(x: int): (r: int)
    ensures InAlphabet(r)
    ensures r == x % AlphaSize
  {
    ReduceIsResidue(x);
    (AlphaSize + CRem(x, AlphaSize)) % AlphaSize
  }

  /** Euclidean division by 26 is unique. */
  lemma ResidueUnique(x: int, k: int, r: int)
    requires x == AlphaSize * k + r && 0 <= r < AlphaSize
    ensures x % AlphaSize == r
  {
  }

  lemma ReduceIsResidue(x: int)
    ensures (AlphaSize + CRem(x, AlphaSize)) % AlphaSize == x % AlphaSize
  {
    if x >= 0 {
      var q := x % AlphaSize;
      ResidueUnique(x, x / AlphaSize, q);
      ResidueUnique(AlphaSize + q, 1, q);
    } else {
      var q := (-x) % AlphaSize;
      var d := (-x) / AlphaSize;
      assert -x == AlphaSize * d + q;
      if q == 0 {
        ResidueUnique(x, -d, 0);
        ResidueUnique(AlphaSize, 1, 0);
      } else {
        ResidueUnique(x, -d - 1, AlphaSize - q);
        ResidueUnique(AlphaSize - q, 0, AlphaSize - q);
      }
    }
  }

  predicate IsUpper(ch: char) {
    'A' <= ch <= 'Z'
  }

  function ToIndex(ch: char): (i: int)
    requires IsUpper(ch)
    ensures InAlphabet(i)
  {
    ch as int - 'A' as int
  }

  function ToLetter(i: int): (ch: char)
    requires InAlphabet(i)
    ensures IsUpper(ch) && ToIndex(ch) == i
  {
    (i + 'A' as int) as char
  }
}

/** The configuration-time and message-time outcomes the core reports. */
module Errors {

  datatype Code =
    | NoError
    | InvalidIndex
    | ImpossiblePlugboardConfiguration
    | IncorrectNumberOfPlugboardParameters
    | InvalidReflectorMapping
    | IncorrectNumberOfReflectorParameters
    | InvalidRotorMapping
    | NoRotorStartingPosition
    | InvalidInputCharacter

  datatype Result<T> = Ok(value: T) | Err(code: Code)

  function CodeOf<T>(r: Result<T>): Code {
    match r
    case Ok(_) => NoError
    case Err(c) => c
  }
}
