/** What the plugboard and the reflector share (plugboard.cpp, reflector.cpp):
    a 26-entry mapping that starts as the identity and receives letter pairs
    one at a time, each pair being checked against the pairs before it by
    the `repetition` scan. */
module Boards {
  import opened Alphabet
  import opened Errors

  /** A board mapping: for each letter, the letter it is sent to. */
  predicate IsMapping(m: seq<int>) {
    |m| == AlphaSize && forall i :: 0 <= i < |m| ==> InAlphabet(m[i])
  }

  /** Every letter is paired with the letter that sends it back. */
  predicate Involution(m: seq<int>) {
    IsMapping(m) && forall i :: 0 <= i < |m| ==> m[m[i]] == i
  }

  /** The mapping a board starts from: every letter to itself. */
  function Identity(): (m: seq<int>)
    ensures Involution(m)
    ensures forall i :: 0 <= i < |m| ==> m[i] == i
  {
    seq(AlphaSize, i => i)
  }

  /** `repetition(index, letter)`: some position other than `index` holds `letter`. */
  predicate Conflict(m: seq<int>, index: int, letter: int) {
    exists j :: 0 <= j < |m| && j != index && m[j] == letter
  }

  /** Storing the pair (a, b) in both directions. */
  function Connect(m: seq<int>, a: int, b: int): (m': seq<int>)
    requires IsMapping(m) && InAlphabet(a) && InAlphabet(b)
    ensures IsMapping(m')
  {
    m[a := b][b := a]
  }

  /** Neither of the two `repetition` checks that follow the store fires. */
  predicate Accepted(m: seq<int>, a: int, b: int)
    requires IsMapping(m) && InAlphabet(a) && InAlphabet(b)
  {
    var m' := Connect(m, a, b);
    !Conflict(m', a, b) && !Conflict(m', b, a)
  }

  /** The pair loop of `setup`, from token `i` on, over a mapping `m` built
      so far. A dangling last token is range-checked and then ends the loop;
      `mappingError` is the code the board reports for a self-pair or a
      conflicting pair. */
  function Pairing(t: seq<int>, i: nat, m: seq<int>, mappingError: Code): (r: Result<seq<int>>)
    requires IsMapping(m)
    ensures r.Ok? ==> IsMapping(r.value)
    ensures r.Err? ==> r.code == InvalidIndex || r.code == mappingError
    decreases |t| - i
  {
    if i >= |t| then Ok(m)
    else if !InAlphabet(t[i]) then Err(InvalidIndex)
    else if i + 1 == |t| then Ok(m)
    else if !InAlphabet(t[i + 1]) then Err(InvalidIndex)
    else if t[i] == t[i + 1] then Err(mappingError)
    else if !Accepted(m, t[i], t[i + 1]) then Err(mappingError)
    else Pairing(t, i + 2, Connect(m, t[i], t[i + 1]), mappingError)
  }

  /** `initialize_pb_mapping` / `initialize_rf_mapping`. */
  method InitializeMapping(m: array<int>)
    requires m.Length == AlphaSize
    modifies m
    ensures m[..] == Identity()
  {
    for i := MinIndex to MaxIndex + 1
      invariant forall j :: 0 <= j < i ==> m[j] == j
    {
      m[i] := i;
    }
  }

  /** `repetition`: the three branches of the source all scan every
      position except `index`. */
  method Repetition(m: array<int>, index: int, letter: int) returns (found: bool)
    requires m.Length == AlphaSize && InAlphabet(index)
    ensures found <==> Conflict(m[..], index, letter)
  {
    if index == MinIndex {
      for i := index + 1 to MaxIndex + 1
        invariant forall j :: index < j < i ==> m[j] != letter
      {
        if m[i] == letter {
          assert m[..][i] == letter;
          return true;
        }
      }
    } else if index == MaxIndex {
      for i := MinIndex to index
        invariant forall j :: 0 <= j < i ==> m[j] != letter
      {
        if m[i] == letter {
          assert m[..][i] == letter;
          return true;
        }
      }
    } else {
      for i := MinIndex to index
        invariant forall j :: 0 <= j < i ==> m[j] != letter
      {
        if m[i] == letter {
          assert m[..][i] == letter;
          return true;
        }
      }
      for i := index + 1 to MaxIndex + 1
        invariant forall j :: 0 <= j < index ==> m[j] != letter
        invariant forall j :: index < j < i ==> m[j] != letter
      {
        if m[i] == letter {
          assert m[..][i] == letter;
          return true;
        }
      }
    }
    return false;
  }

  /** The pair loop of `setup`, run in place on the board's array. */
  method PairUp(m: array<int>, tokens: seq<int>, mappingError: Code) returns (code: Code)
    requires IsMapping(m[..]) && mappingError != NoError
    modifies m
    ensures IsMapping(m[..])
    ensures code == CodeOf(Pairing(tokens, 0, old(m[..]), mappingError))
    ensures code == NoError ==> m[..] == Pairing(tokens, 0, old(m[..]), mappingError).value
  {
    var i := 0;
    while i < |tokens|
      invariant i <= |tokens| && IsMapping(m[..])
      invariant Pairing(tokens, 0, old(m[..]), mappingError) == Pairing(tokens, i, m[..], mappingError)
      decreases |tokens| - i
    {
      var input1 := tokens[i];
      if input1 < MinIndex || input1 > MaxIndex {
        return InvalidIndex;
      }
      if i + 1 == |tokens| {
        break;
      }
      var input2 := tokens[i + 1];
      if input2 < MinIndex || input2 > MaxIndex {
        return InvalidIndex;
      }
      if input1 == input2 {
        return mappingError;
      }
      ghost var before := m[..];
      m[input1] := input2;
      m[input2] := input1;
      assert m[..] == Connect(before, input1, input2);
      var repeated := Repetition(m, input1, input2);
      if repeated {
        return mappingError;
      }
      repeated := Repetition(m, input2, input1);
      if repeated {
        return mappingError;
      }
      i := i + 2;
    }
    return NoError;
  }

  // ----- What the pair-by-pair validation guarantees -----

  /** An accepted pair keeps the mapping an involution. */
  lemma ConnectKeepsInvolution(m: seq<int>, a: int, b: int)
    requires Involution(m) && InAlphabet(a) && InAlphabet(b) && a != b
    requires Accepted(m, a, b)
    ensures Involution(Connect(m, a, b))
  {
    var m' := Connect(m, a, b);
    forall i | 0 <= i < |m'|
      ensures m'[m'[i]] == i
    {
      if i != a && i != b {
        assert m'[i] == m[i];
        assert m[i] != a && m[i] != b;
      }
    }
  }

  /** Over an involution, a pair passes both `repetition` checks exactly
      when both letters are still unpaired or the pair is already there:
      a pair that shares a letter with a different earlier pair is
      rejected. */
  lemma AcceptedIff(m: seq<int>, a: int, b: int)
    requires Involution(m) && InAlphabet(a) && InAlphabet(b) && a != b
    ensures Accepted(m, a, b) <==> (m[a] == a && m[b] == b) || m[a] == b
  {
    var m' := Connect(m, a, b);
    if m[a] != a && m[a] != b {
      var c := m[a];
      assert m'[c] == a;
      assert Conflict(m', b, a);
    } else if m[b] != b && m[b] != a {
      var c := m[b];
      assert m'[c] == b;
      assert Conflict(m', a, b);
    } else if (m[a] == a && m[b] == b) || m[a] == b {
      forall j | 0 <= j < |m'| && j != a
        ensures m'[j] != b
      {
        assert m[m[j]] == j;
      }
      forall j | 0 <= j < |m'| && j != b
        ensures m'[j] != a
      {
        assert m[m[j]] == j;
      }
    }
  }

  /** Entering a pair that is already on the board, either way round,
      passes both checks and changes nothing. */
  lemma RepeatedPairChangesNothing(m: seq<int>, a: int, b: int)
    requires Involution(m) && InAlphabet(a) && InAlphabet(b) && a != b && m[a] == b
    ensures Accepted(m, a, b) && Connect(m, a, b) == m
    ensures Accepted(m, b, a) && Connect(m, b, a) == m
  {
    AcceptedIff(m, a, b);
    AcceptedIff(m, b, a);
  }

  /** Every mapping the pair loop accepts is an involution. */
  lemma {:induction false} PairingKeepsInvolution(t: seq<int>, i: nat, m: seq<int>, e: Code)
    requires Involution(m) && Pairing(t, i, m, e).Ok?
    ensures Involution(Pairing(t, i, m, e).value)
    decreases |t| - i
  {
    if i < |t| && i + 1 < |t| {
      ConnectKeepsInvolution(m, t[i], t[i + 1]);
      PairingKeepsInvolution(t, i + 2, Connect(m, t[i], t[i + 1]), e);
    }
  }

  /** Running the loop over a prefix ending on a pair boundary, then on
      over the rest, is running it over everything. */
  lemma {:induction false} PairingSplit(t: seq<int>, i: nat, j: nat, m: seq<int>, e: Code)
    requires IsMapping(m) && i <= j <= |t| && (j - i) % 2 == 0
    ensures Pairing(t, i, m, e) ==
              match Pairing(t[..j], i, m, e)
              case Err(c) => Err(c)
              case Ok(m') => Pairing(t, j, m', e)
    decreases j - i
  {
    if i < j {
      assert t[..j][i] == t[i] && t[..j][i + 1] == t[i + 1];
      if InAlphabet(t[i]) && InAlphabet(t[i + 1]) && t[i] != t[i + 1] && Accepted(m, t[i], t[i + 1]) {
        PairingSplit(t, i + 2, j, Connect(m, t[i], t[i + 1]), e);
      }
    }
  }

  /** A token outside 0..25 is reported as INVALID_INDEX once every pair
      before it has passed, whether it opens a pair, closes one, or is a
      dangling last token. */
  lemma OutOfRangeRejected(t: seq<int>, m: seq<int>, e: Code, k: nat)
    requires IsMapping(m) && k < |t| && !InAlphabet(t[k])
    requires Pairing(t[..k - k % 2], 0, m, e).Ok?
    ensures Pairing(t, 0, m, e) == Err(InvalidIndex)
  {
    var j := k - k % 2;
    PairingSplit(t, 0, j, m, e);
  }

  /** A pair (a, a) is rejected with the board's mapping error once every
      pair before it has passed. */
  lemma SelfPairRejected(t: seq<int>, m: seq<int>, e: Code, k: nat)
    requires IsMapping(m) && k % 2 == 0 && k + 1 < |t|
    requires InAlphabet(t[k]) && t[k] == t[k + 1]
    requires Pairing(t[..k], 0, m, e).Ok?
    ensures Pairing(t, 0, m, e) == Err(e)
  {
    PairingSplit(t, 0, k, m, e);
  }

  /** A pair that shares a letter with a different earlier pair is
      rejected with the board's mapping error. */
  lemma ConflictingPairRejected(t: seq<int>, e: Code, k: nat)
    requires k % 2 == 0 && k + 1 < |t|
    requires InAlphabet(t[k]) && InAlphabet(t[k + 1]) && t[k] != t[k + 1]
    requires Pairing(t[..k], 0, Identity(), e).Ok?
    requires var m := Pairing(t[..k], 0, Identity(), e).value;
             !((m[t[k]] == t[k] && m[t[k + 1]] == t[k + 1]) || m[t[k]] == t[k + 1])
    ensures Pairing(t, 0, Identity(), e) == Err(e)
  {
    PairingSplit(t, 0, k, Identity(), e);
    PairingKeepsInvolution(t[..k], 0, Identity(), e);
    AcceptedIff(Pairing(t[..k], 0, Identity(), e).value, t[k], t[k + 1]);
  }

  /** `n` copies of the pair (a, b): `a` at every even position, `b` at
      every odd one. */
  function RepeatPair(a: int, b: int, n: nat): (t: seq<int>)
    ensures |t| == 2 * n
    ensures forall i :: 0 <= i < |t| ==> t[i] == if i % 2 == 0 then a else b
  {
    if n == 0 then [] else [a, b] + RepeatPair(a, b, n - 1)
  }

  /** The same pair entered any number of times is accepted: the loop puts
      no bound on the number of pairs. */
  lemma {:induction false} RepeatedPairAccepted(a: int, b: int, n: nat, m: seq<int>, e: Code)
    requires Involution(m) && InAlphabet(a) && InAlphabet(b) && a != b && m[a] == b
    ensures Pairing(RepeatPair(a, b, n), 0, m, e) == Ok(m)
  {
    var t := RepeatPair(a, b, n);
    if n > 0 {
      RepeatedPairChangesNothing(m, a, b);
      var rest := RepeatPair(a, b, n - 1);
      assert t[2..] == rest;
      RepeatedPairAccepted(a, b, n - 1, m, e);
      PairingShift(t, 2, m, e);
    }
  }

  /** The loop from position `i` only looks at the tokens from `i` on. */
  lemma {:induction false} PairingShift(t: seq<int>, i: nat, m: seq<int>, e: Code)
    requires IsMapping(m) && i <= |t|
    ensures Pairing(t, i, m, e) == Pairing(t[i..], 0, m, e)
    decreases |t| - i
  {
    if i < |t| && i + 1 < |t| {
      if InAlphabet(t[i]) && InAlphabet(t[i + 1]) && t[i] != t[i + 1] && Accepted(m, t[i], t[i + 1]) {
        var m' := Connect(m, t[i], t[i + 1]);
        PairingShift(t, i + 2, m', e);
        PairingShift(t[i..], 2, m', e);
        assert t[i..][2..] == t[i + 2..];
      }
    }
  }
}
