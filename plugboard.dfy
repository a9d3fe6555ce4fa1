/** The plugboard (plugboard.cpp): any number of letter pairs, swapped on
    the way into and on the way out of the machine. */
module Plugboards {
  import opened Alphabet
  import opened Errors
  import opened Boards

  /** The outcome of `Plugboard::setup` on the tokens of a configuration
      file: the pair loop first, then the parity of the token count. */
  function PlugboardSetup(tokens: seq<int>): Result<seq<int>> {
    match Pairing(tokens, 0, Identity(), ImpossiblePlugboardConfiguration)
    case Err(c) => Err(c)
    case Ok(m) =>
      if |tokens| % 2 == 1 then Err(IncorrectNumberOfPlugboardParameters) else Ok(m)
  }

  /** On NO_ERROR the plugboard is an involution of the alphabet. */
  lemma PlugboardSetupInvolution(tokens: seq<int>)
    requires PlugboardSetup(tokens).Ok?
    ensures Involution(PlugboardSetup(tokens).value)
  {
    PairingKeepsInvolution(tokens, 0, Identity(), ImpossiblePlugboardConfiguration);
  }

  /** An empty configuration leaves the identity and reports NO_ERROR. */
  lemma EmptyPlugboard()
    ensures PlugboardSetup([]) == Ok(Identity())
  {
  }

  /** The parity check runs only after the pair loop has passed: an odd
      count is reported exactly when every token was in range and every
      complete pair was accepted. */
  lemma OddCountReportedLast(tokens: seq<int>)
    ensures PlugboardSetup(tokens) == Err(IncorrectNumberOfPlugboardParameters) <==>
              Pairing(tokens, 0, Identity(), ImpossiblePlugboardConfiguration).Ok? && |tokens| % 2 == 1
  {
  }

  /** A dangling last token out of range is reported as INVALID_INDEX, not
      as a parity error. */
  lemma OddOutOfRangeTail(tokens: seq<int>)
    requires |tokens| % 2 == 1 && !InAlphabet(tokens[|tokens| - 1])
    requires Pairing(tokens[..|tokens| - 1], 0, Identity(), ImpossiblePlugboardConfiguration).Ok?
    ensures PlugboardSetup(tokens) == Err(InvalidIndex)
  {
    OutOfRangeRejected(tokens, Identity(), ImpossiblePlugboardConfiguration, |tokens| - 1);
  }

  /** There is no upper bound on the number of pairs: any number of copies
      of one pair is a valid plugboard with that single pair. */
  lemma ManyPairsAccepted(a: int, b: int, n: nat)
    requires InAlphabet(a) && InAlphabet(b) && a != b && n >= 1
    ensures PlugboardSetup(RepeatPair(a, b, n)) == Ok(Connect(Identity(), a, b))
  {
    var m := Connect(Identity(), a, b);
    var t := RepeatPair(a, b, n);
    AcceptedIff(Identity(), a, b);
    ConnectKeepsInvolution(Identity(), a, b);
    RepeatedPairAccepted(a, b, n - 1, m, ImpossiblePlugboardConfiguration);
    assert t[0] == a && t[1] == b;
    assert t[2..] == RepeatPair(a, b, n - 1);
    PairingShift(t, 2, m, ImpossiblePlugboardConfiguration);
  }

  class Plugboard {
    var errorcode: Code
    /** `pb_mapping`, holding letter indices rather than characters. */
    const mapping: array<int>

    ghost predicate Valid()
      reads this, mapping
    {
      IsMapping(mapping[..]) && (errorcode == NoError ==> Involution(mapping[..]))
    }

    constructor (tokens: seq<int>)
      ensures Valid() && fresh(mapping)
      ensures errorcode == CodeOf(PlugboardSetup(tokens))
      ensures errorcode == NoError ==> mapping[..] == PlugboardSetup(tokens).value
    {
      errorcode := NoError;
      mapping := new int[AlphaSize];
      new;
      errorcode := Setup(tokens);
      if errorcode == NoError {
        PlugboardSetupInvolution(tokens);
      }
    }

    /** `setup` over the tokens of the configuration file. */
    method Setup(tokens: seq<int>) returns (code: Code)
      requires mapping.Length == AlphaSize
      modifies mapping
      ensures IsMapping(mapping[..])
      ensures code == CodeOf(PlugboardSetup(tokens))
      ensures code == NoError ==> mapping[..] == PlugboardSetup(tokens).value
    {
      InitializeMapping(mapping);
      code := PairUp(mapping, tokens, ImpossiblePlugboardConfiguration);
      if code != NoError {
        return;
      }
      if |tokens| % 2 == 1 {
        code := IncorrectNumberOfPlugboardParameters;
      }
    }

    /** `pb_encrypt`: a lookup, undone by a second lookup on a valid board. */
    function Encrypt(letter: int): (r: int)
      reads this, mapping
      requires Valid() && InAlphabet(letter)
      ensures InAlphabet(r)
      ensures errorcode == NoError ==> mapping[r] == letter
    {
      mapping[letter]
    }
  }
}
