/** The reflector (reflector.cpp): letter pairs entered like the
    plugboard's, but exactly 26 tokens are required. */
module Reflectors {
  import opened Alphabet
  import opened Errors
  import opened Boards

  /** The outcome of `Reflector::setup`: the pair loop first, then the
      requirement of exactly 13 pairs' worth of tokens. */
  function ReflectorSetup(tokens: seq<int>): Result<seq<int>> {
    match Pairing(tokens, 0, Identity(), InvalidReflectorMapping)
    case Err(c) => Err(c)
    case Ok(m) =>
      if |tokens| != 13 * 2 then Err(IncorrectNumberOfReflectorParameters) else Ok(m)
  }

  /** On NO_ERROR the reflector is an involution, built from exactly 26 tokens. */
  lemma ReflectorSetupInvolution(tokens: seq<int>)
    requires ReflectorSetup(tokens).Ok?
    ensures Involution(ReflectorSetup(tokens).value) && |tokens| == AlphaSize
  {
    PairingKeepsInvolution(tokens, 0, Identity(), InvalidReflectorMapping);
  }

  /** The count is checked only after the pair loop has passed. */
  lemma WrongCountReportedLast(tokens: seq<int>)
    ensures ReflectorSetup(tokens) == Err(IncorrectNumberOfReflectorParameters) <==>
              Pairing(tokens, 0, Identity(), InvalidReflectorMapping).Ok? && |tokens| != AlphaSize
  {
  }

  /** Having no fixed point is not enforced: thirteen copies of the pair
      (0, 1) pass every check and leave every other letter reflected to
      itself. */
  lemma FixedPointsAccepted()
    ensures ReflectorSetup(RepeatPair(0, 1, 13)).Ok?
    ensures forall i :: 2 <= i < AlphaSize ==> ReflectorSetup(RepeatPair(0, 1, 13)).value[i] == i
  {
    var m := Connect(Identity(), 0, 1);
    var t := RepeatPair(0, 1, 13);
    AcceptedIff(Identity(), 0, 1);
    ConnectKeepsInvolution(Identity(), 0, 1);
    RepeatedPairAccepted(0, 1, 12, m, InvalidReflectorMapping);
    assert t[0] == 0 && t[1] == 1;
    assert t[2..] == RepeatPair(0, 1, 12);
    PairingShift(t, 2, m, InvalidReflectorMapping);
  }

  class Reflector {
    var errorcode: Code
    /** `rf_mapping`, holding letter indices rather than characters. */
    const mapping: array<int>

    ghost predicate Valid()
      reads this, mapping
    {
      IsMapping(mapping[..]) && (errorcode == NoError ==> Involution(mapping[..]))
    }

    constructor (tokens: seq<int>)
      ensures Valid() && fresh(mapping)
      ensures errorcode == CodeOf(ReflectorSetup(tokens))
      ensures errorcode == NoError ==> mapping[..] == ReflectorSetup(tokens).value
    {
      errorcode := NoError;
      mapping := new int[AlphaSize];
      new;
      errorcode := Setup(tokens);
      if errorcode == NoError {
        ReflectorSetupInvolution(tokens);
      }
    }

    /** `setup` over the tokens of the configuration file. */
    method Setup(tokens: seq<int>) returns (code: Code)
      requires mapping.Length == AlphaSize
      modifies mapping
      ensures IsMapping(mapping[..])
      ensures code == CodeOf(ReflectorSetup(tokens))
      ensures code == NoError ==> mapping[..] == ReflectorSetup(tokens).value
    {
      InitializeMapping(mapping);
      code := PairUp(mapping, tokens, InvalidReflectorMapping);
      if code != NoError {
        return;
      }
      if |tokens| != 13 * 2 {
        code := IncorrectNumberOfReflectorParameters;
      }
    }

    /** `rf_encrypt`: a lookup, undone by a second lookup on a valid reflector. */
    function Encrypt(letter: int): (r: int)
      reads this, mapping
      requires Valid() && InAlphabet(letter)
      ensures InAlphabet(r)
      ensures errorcode == NoError ==> mapping[r] == letter
    {
      mapping[letter]
    }
  }
}
