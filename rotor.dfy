/** The rotor object (rotor.cpp, enigma.h): offset arrays updated in place
    by `rotate`, a rotation counter, and non-owning pointers to its
    neighbours through which the carry travels left. */
module Rotors {
  import opened Alphabet
  import opened Errors
  import opened RotorMaps

  class Rotor {
    const fwMap: array<int>
    const bwMap: array<int>
    const notches: array<int>
    var rotations: int
    var left: Rotor?
    var right: Rotor?
    var startingPosition: int
    var errorcode: Code
    /** The snapshot of the arrays and the counter, kept in step with them. */
    ghost var model: RotorState

    /** The rotor together with its three arrays. */
    ghost function Objects(): set<object> {
      {this, fwMap, bwMap, notches}
    }

    ghost function Maps(): set<object> {
      {fwMap, bwMap, notches}
    }

    /** Another rotor sharing no array with this one (constant fields only). */
    ghost predicate Apart(other: Rotor) {
      && this != other
      && fwMap != other.fwMap && fwMap != other.bwMap && fwMap != other.notches
      && bwMap != other.fwMap && bwMap != other.bwMap && bwMap != other.notches
    }

    /** Three separate 26-slot arrays and a counter in 0..25, which `model`
        describes: what `rotate` needs to act on the rotor. */
    ghost predicate Shaped()
      reads this`rotations, this`model, fwMap, bwMap, notches
    {
      && fwMap.Length == AlphaSize && bwMap.Length == AlphaSize && notches.Length == AlphaSize
      && fwMap != bwMap && fwMap != notches && bwMap != notches
      && InAlphabet(rotations)
      && model == RotorState(fwMap[..], bwMap[..], notches[..], rotations)
    }

    /** A successfully configured rotor whose offset tables are inverse to
        each other. */
    ghost predicate Valid()
      reads this, fwMap, bwMap, notches
    {
      Shaped() && errorcode == NoError && WellFormed(model)
    }

    /** `Rotor(configuration)`: builds the rotor from its tokens. The source
        never initialises `rotations`; a fresh rotor is taken to start at 0. */
    constructor (tokens: seq<int>)
      ensures fresh(fwMap) && fresh(bwMap) && fresh(notches)
      ensures left == null && right == null && startingPosition == 0
      ensures errorcode == CodeOf(RotorSetup(tokens))
      ensures Shaped()
      ensures errorcode == NoError ==> Valid() && model == RotorSetup(tokens).value
    {
      fwMap := new int[AlphaSize];
      bwMap := new int[AlphaSize];
      notches := new int[AlphaSize];
      rotations := 0;
      left := null;
      right := null;
      startingPosition := 0;
      errorcode := NoError;
      new;
      var code := Setup(tokens);
      errorcode := code;
      model := RotorState(fwMap[..], bwMap[..], notches[..], rotations);
      if code == NoError {
        RotorSetupWiring(tokens);
      }
    }

    /** `initialize_rot_arrays`: every stored token is "null" (-1), slot i
        of both offset tables holds i (a placeholder that `setup` overwrites,
        not the identity wiring) and every notch slot is unused. */
    method InitializeArrays(inputValues: array<int>)
      requires fwMap.Length == AlphaSize && bwMap.Length == AlphaSize && notches.Length == AlphaSize
      requires fwMap != bwMap && fwMap != notches && bwMap != notches
      requires inputValues !in Maps()
      modifies inputValues, fwMap, bwMap, notches
      ensures forall i :: 0 <= i < inputValues.Length ==> inputValues[i] == -1
      ensures forall i :: 0 <= i < AlphaSize ==> fwMap[i] == i && bwMap[i] == i && notches[i] == -1
    {
      for i := 0 to inputValues.Length
        invariant forall j :: 0 <= j < i ==> inputValues[j] == -1
      {
        inputValues[i] := -1;
      }
      for i := MinIndex to AlphaSize
        invariant forall j :: 0 <= j < i ==> fwMap[j] == j && bwMap[j] == j && notches[j] == -1
        invariant forall j :: 0 <= j < inputValues.Length ==> inputValues[j] == -1
      {
        fwMap[i] := i;
        bwMap[i] := i;
        notches[i] := -1;
      }
    }

    /** `setup`: checks each token as it is read, then fills the offset
        tables from the first 26 tokens and the notch slots from the rest. */
    method Setup(tokens: seq<int>) returns (code: Code)
      requires fwMap.Length == AlphaSize && bwMap.Length == AlphaSize && notches.Length == AlphaSize
      requires fwMap != bwMap && fwMap != notches && bwMap != notches
      modifies fwMap, bwMap, notches
      ensures code == CodeOf(RotorSetup(tokens))
      ensures code == NoError ==>
                && fwMap[..] == RotorSetup(tokens).value.fw
                && bwMap[..] == RotorSetup(tokens).value.bw
                && notches[..] == RotorSetup(tokens).value.notches
    {
      var inputValues := new int[2 * AlphaSize];
      InitializeArrays(inputValues);
      code := ReadTokens(tokens, inputValues);
      if code != NoError {
        return;
      }
      RotorTokenCheckPermutation(tokens);
      FillOffsets(tokens, inputValues);
      FillNotches(tokens, inputValues);
    }

    /** The validation loop of `setup`: every token read is range-checked,
        each of the first 26 is compared with those stored before it, and
        then stored; finally the number of tokens is checked. */
    static method ReadTokens(tokens: seq<int>, inputValues: array<int>) returns (code: Code)
      requires inputValues.Length == 2 * AlphaSize
      requires forall j :: 0 <= j < inputValues.Length ==> inputValues[j] == -1
      modifies inputValues
      ensures code == CodeOf(RotorSetup(tokens))
      ensures code == NoError ==>
                forall j :: 0 <= j < inputValues.Length ==> inputValues[j] == if j < |tokens| then tokens[j] else -1
    {
      var count := 0;
      while count < |tokens|
        invariant 0 <= count <= |tokens|
        invariant RotorTokenCheck(tokens, 0) == RotorTokenCheck(tokens, count)
        invariant forall j :: 0 <= j < inputValues.Length ==> inputValues[j] == if j < count then tokens[j] else -1
      {
        var input := tokens[count];
        if input < MinIndex || input > MaxIndex {
          return InvalidIndex;
        }
        if count < AlphaSize {
          for i := 0 to AlphaSize
            invariant forall j :: 0 <= j < i ==> inputValues[j] != input
          {
            if inputValues[i] == input {
              assert tokens[..count][i] == input;
              return InvalidRotorMapping;
            }
          }
          assert tokens[count] !in tokens[..count];
        }
        if count < inputValues.Length {
          inputValues[count] := input;
        }
        count := count + 1;
      }
      if count < AlphaSize || count > 2 * AlphaSize {
        return InvalidRotorMapping;
      }
      return NoError;
    }

    /** The first filling loop of `setup`: `fw_map[i] = p[i] - i` and
        `bw_map[p[i]] = i - p[i]` for the wiring `p`. */
    method FillOffsets(tokens: seq<int>, inputValues: array<int>)
      requires fwMap.Length == AlphaSize && bwMap.Length == AlphaSize && fwMap != bwMap
      requires AlphaSize <= |tokens| && IsPermutation(tokens[..AlphaSize])
      requires inputValues.Length == 2 * AlphaSize && inputValues != fwMap && inputValues != bwMap
      requires forall j :: 0 <= j < AlphaSize ==> inputValues[j] == tokens[j]
      modifies fwMap, bwMap
      ensures fwMap[..] == FwOffsets(tokens[..AlphaSize])
      ensures bwMap[..] == BwOffsets(tokens[..AlphaSize])
    {
      ghost var p := tokens[..AlphaSize];
      for i := MinIndex to AlphaSize
        invariant forall j :: 0 <= j < i ==> fwMap[j] == p[j] - j
        invariant forall j :: 0 <= j < i ==> bwMap[p[j]] == j - p[j]
      {
        assert inputValues[i] == p[i];
        fwMap[i] := inputValues[i] - i;
        bwMap[inputValues[i]] := i - inputValues[i];
      }
      Pigeonhole(p);
      assert fwMap[..] == FwOffsets(p);
      forall v | 0 <= v < AlphaSize
        ensures bwMap[v] == BwOffsets(p)[v]
      {
        var i := IndexOf(p, v);
        assert bwMap[p[i]] == i - p[i];
      }
      assert bwMap[..] == BwOffsets(p);
    }

    /** The second filling loop of `setup`: tokens 27 onwards go to the
        notch slots in order; a slot with no token keeps -1. */
    method FillNotches(tokens: seq<int>, inputValues: array<int>)
      requires notches.Length == AlphaSize
      requires inputValues.Length == 2 * AlphaSize && inputValues != notches
      requires forall j :: 0 <= j < inputValues.Length ==> inputValues[j] == if j < |tokens| then tokens[j] else -1
      requires forall j :: 0 <= j < AlphaSize ==> notches[j] == -1
      modifies notches
      ensures notches[..] == NotchSlots(tokens)
    {
      for i := AlphaSize to 2 * AlphaSize
        invariant forall j :: 0 <= j < AlphaSize ==>
                    notches[j] == if j < i - AlphaSize && AlphaSize + j < |tokens| then tokens[AlphaSize + j] else -1
      {
        if inputValues[i] != -1 {
          notches[i - AlphaSize] := inputValues[i];
        }
      }
      assert notches[..] == NotchSlots(tokens);
    }

    /** `rotate_array`: shifts the 26 slots of `a` left by one, the first
        slot moving to the end. (The source's loop also reads the slot
        past the end before overwriting the last slot; that read is not
        modelled.) */
    static method RotateArray(a: array<int>)
      requires a.Length == AlphaSize
      modifies a
      ensures a[..] == ShiftLeft(old(a[..]))
    {
      var first := a[MinIndex];
      for i := MinIndex to MaxIndex
        invariant forall j :: 0 <= j < i ==> a[j] == old(a[j + 1])
        invariant forall j :: i <= j < AlphaSize ==> a[j] == old(a[j])
      {
        a[i] := a[i + 1];
      }
      a[MaxIndex] := first;
      ShiftLeftSlots(old(a[..]));
    }

    /** `is_notch`: whether the counter equals one of the notch slots. */
    method IsNotch() returns (hit: bool)
      requires notches.Length == AlphaSize
      ensures hit <==> rotations in notches[..]
    {
      for i := 0 to AlphaSize
        invariant forall j :: 0 <= j < i ==> notches[j] != rotations
      {
        if rotations == notches[i] {
          return true;
        }
      }
      return false;
    }

    /** `rot_fw_encrypt`: C's `(26 + (c + fw[c]) % 26) % 26` is the wrapped
        forward table, and the backward table brings the result back. */
    function FwEncrypt(letter: int): (r: int)
      reads this, fwMap, bwMap, notches
      requires Shaped() && WellFormed(model) && InAlphabet(letter)
      ensures r == Forward(model, letter)
      ensures Backward(model, r) == letter
    {
      ThroughIsResidue(fwMap[..], letter);
      Reduce(letter + fwMap[letter])
    }

    /** `rot_bw_encrypt`: the wrapped backward table, undone by the forward
        table. */
    function BwEncrypt(letter: int): (r: int)
      reads this, fwMap, bwMap, notches
      requires Shaped() && WellFormed(model) && InAlphabet(letter)
      ensures r == Backward(model, letter)
      ensures Forward(model, r) == letter
    {
      ThroughIsResidue(bwMap[..], letter);
      Reduce(letter + bwMap[letter])
    }

    /** The rotor's own part of `rotate`: both tables shift left and the
        counter steps modulo 26 (it starts in 0..25, so C's `%` agrees). */
    method Step()
      requires Shaped()
      modifies this`rotations, fwMap, bwMap
      modifies this`model
      ensures Shaped() && model == Rotated(old(model))
    {
      ghost var s0 := model;
      RotateArray(fwMap);
      RotateArray(bwMap);
      rotations := rotations + 1;
      rotations := rotations % AlphaSize;
      model := RotorState(fwMap[..], bwMap[..], notches[..], rotations);
      assert model == Rotated(s0);
    }

    /** The first half of `rotate` seen from the whole chain: this rotor
        steps, every other rotor keeps its snapshot, and the notch test is
        made on the new counter. */
    method Advance(ghost chain: seq<Rotor>, ghost k: nat, ghost states: seq<RotorState>) returns (hit: bool)
      requires ChainValid(chain) && InStates(chain, states) && k < |chain| && chain[k] == this
      modifies this`rotations, this`model, fwMap, bwMap
      ensures ChainValid(chain) && InStates(chain, states[k := Rotated(states[k])])
      ensures hit <==> NotchHit(Rotated(states[k]))
    {
      Step();
      hit := IsNotch();
      forall i | 0 <= i < |chain| && i != k
        ensures chain[i].model == states[i] && chain[i].Shaped()
      {
        assert chain[i].Apart(this) && Apart(chain[i]);
      }
      assert AllShaped(chain);
      assert Linked(chain);
    }

    /** `rotate` on rotor `k` of `chain` (the rotors listed left to right,
        whose snapshots are `states`): the rotor steps, and on a notch the
        left neighbour rotates in turn. */
    method Rotate(ghost chain: seq<Rotor>, ghost k: nat, ghost states: seq<RotorState>)
      requires ChainValid(chain) && InStates(chain, states) && k < |chain| && chain[k] == this
      modifies RotorSet(chain)`rotations, RotorSet(chain)`model, Tables(chain)
      ensures ChainValid(chain) && InStates(chain, Cascade(states, k))
      decreases k
    {
      ghost var after := states[k := Rotated(states[k])];
      assert left == if k == 0 then null else chain[k - 1];
      var hit := Advance(chain, k, states);
      if hit && left != null {
        assert Cascade(states, k) == Cascade(after, k - 1);
        left.Rotate(chain, k - 1, after);
      } else {
        assert Cascade(states, k) == after;
      }
    }

    /** `start`: `rotate` repeated `startingPosition` times, not at all
        when it is not positive (`rotate` never writes `startingPosition`). */
    method Start(ghost chain: seq<Rotor>, ghost k: nat, ghost states: seq<RotorState>)
      requires ChainValid(chain) && InStates(chain, states) && k < |chain| && chain[k] == this
      modifies RotorSet(chain)`rotations, RotorSet(chain)`model, Tables(chain)
      ensures ChainValid(chain) && InStates(chain, Prime(states, k, Times(old(startingPosition))))
    {
      ghost var n := Times(startingPosition);
      TimesBounds(startingPosition);
      var rotationsCount := 0;
      while rotationsCount < startingPosition
        invariant ChainValid(chain) && InStates(chain, Prime(states, k, rotationsCount))
        invariant startingPosition == old(startingPosition)
        invariant rotationsCount <= n
        decreases n - rotationsCount
      {
        Rotate(chain, k, Prime(states, k, rotationsCount));
        rotationsCount := rotationsCount + 1;
      }
      TimesReached(startingPosition, rotationsCount);
    }

    /** What `setup` does to each rotor in turn: it stores the rotor's
        starting position and starts it. */
    method StartFrom(ghost chain: seq<Rotor>, ghost k: nat, ghost states: seq<RotorState>, position: int)
      requires ChainValid(chain) && InStates(chain, states) && k < |chain| && chain[k] == this
      modifies this`startingPosition, RotorSet(chain)`rotations, RotorSet(chain)`model, Tables(chain)
      ensures ChainValid(chain) && InStates(chain, Prime(states, k, Times(position)))
      ensures startingPosition == position
    {
      startingPosition := position;
      Start(chain, k, states);
    }
  }

  ghost function RotorSet(chain: seq<Rotor>): (rs: set<Rotor>)
    ensures forall r :: r in chain ==> r in rs
  {
    set r | r in chain
  }

  /** The arrays that `rotate` shifts. */
  ghost function Tables(chain: seq<Rotor>): (ts: set<array<int>>)
    ensures forall r :: r in chain ==> r.fwMap in ts && r.bwMap in ts
  {
    (set r | r in chain :: r.fwMap) + (set r | r in chain :: r.bwMap)
  }

  ghost function Notches(chain: seq<Rotor>): (ns: set<array<int>>)
    ensures forall r :: r in chain ==> r.notches in ns
  {
    set r | r in chain :: r.notches
  }

  /** An array that is neither a table of the chain nor one of a new
      rotor's is not a table of the longer chain. */
  lemma TablesAppend(chain: seq<Rotor>, r: Rotor, a: array<int>)
    requires a !in Tables(chain) && a != r.fwMap && a != r.bwMap
    ensures a !in Tables(chain + [r])
  {
    forall q | q in chain + [r]
      ensures a != q.fwMap && a != q.bwMap
    {
      if q != r {
        assert q in chain;
      }
    }
  }

  /** A shaped rotor sharing no array with the chain keeps it shaped and
      separate when appended. */
  lemma ChainAppend(chain: seq<Rotor>, r: Rotor)
    requires AllShaped(chain) && Separate(chain) && r.Shaped()
    requires forall i :: 0 <= i < |chain| ==> r.Apart(chain[i]) && chain[i].Apart(r)
    ensures AllShaped(chain + [r]) && Separate(chain + [r])
  {
    var c := chain + [r];
    assert forall i :: 0 <= i < |chain| ==> c[i] == chain[i];
    assert c[|chain|] == r;
  }

  lemma InStatesAppend(chain: seq<Rotor>, states: seq<RotorState>, r: Rotor)
    requires InStates(chain, states)
    ensures InStates(chain + [r], states + [r.model])
  {
    assert forall i :: 0 <= i < |chain| ==> (chain + [r])[i] == chain[i] && (states + [r.model])[i] == states[i];
  }

  /** Distinct rotors with separate arrays (only constant fields are read). */
  ghost predicate Separate(chain: seq<Rotor>) {
    forall i, j :: 0 <= i < |chain| && 0 <= j < |chain| && i != j ==>
      chain[i].Apart(chain[j])
  }

  /** Each rotor's `left` and `right` point at its neighbours in the list. */
  ghost predicate Linked(chain: seq<Rotor>)
    reads RotorSet(chain)`left, RotorSet(chain)`right
  {
    && (forall i {:trigger chain[i].left} :: 0 <= i < |chain| ==>
          chain[i].left == if i == 0 then null else chain[i - 1])
    && (forall i {:trigger chain[i].right} :: 0 <= i < |chain| ==>
          chain[i].right == if i == |chain| - 1 then null else chain[i + 1])
  }

  ghost predicate AllShaped(chain: seq<Rotor>)
    reads RotorSet(chain)`rotations, RotorSet(chain)`model, Tables(chain), Notches(chain)
  {
    forall i :: 0 <= i < |chain| ==> chain[i].Shaped()
  }

  /** The rotors listed left to right form a doubly linked chain of
      distinct rotors with separate arrays, each ready to rotate. Whether
      their tables are inverse is a property of their snapshots, which
      `Cascade` preserves (`CascadeWellFormed`). */
  ghost predicate ChainValid(chain: seq<Rotor>)
    reads RotorSet(chain)`rotations, RotorSet(chain)`model, RotorSet(chain)`left, RotorSet(chain)`right
    reads Tables(chain), Notches(chain)
  {
    AllShaped(chain) && Separate(chain) && Linked(chain)
  }

  /** `states` are the snapshots of the rotors, left to right. */
  ghost predicate InStates(chain: seq<Rotor>, states: seq<RotorState>)
    reads RotorSet(chain)`model
  {
    |chain| == |states| && forall i :: 0 <= i < |chain| ==> chain[i].model == states[i]
  }
}
