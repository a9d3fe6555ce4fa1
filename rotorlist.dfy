/** The list of rotors (rotorlist.cpp, enigma.h): a doubly linked chain
    threaded through the rotors' own `left` and `right` pointers, entered
    through `first`. */
module RotorLists {
  import opened Errors
  import opened RotorMaps
  import opened Rotors

  class RotorList {
    var first: Rotor?
    /** Set by `append_rotor` to the rightmost rotor before the new one. */
    var last: Rotor?
    /** The appended rotors, left to right. */
    ghost var chain: seq<Rotor>

    /** What the walks rely on: `first` is one of the chained rotors. */
    ghost predicate Valid()
      reads this, RotorSet(chain)`left, RotorSet(chain)`right
    {
      && (first == null <==> |chain| == 0)
      && (first != null ==> first in chain)
      && Linked(chain)
    }

    /** What appending keeps besides: `first` is the leftmost rotor. */
    ghost predicate FirstIsLeftmost()
      reads this
    {
      |chain| > 0 ==> first == chain[0]
    }

    /** `RotorList()`: an empty list. */
    constructor ()
      ensures first == null && last == null && |chain| == 0
      ensures Valid() && FirstIsLeftmost()
    {
      first := null;
      last := null;
      chain := [];
    }

    /** `find_leftmost`: walks `left` from `first`. */
    method FindLeftmost() returns (current: Rotor)
      requires Valid() && first != null
      ensures current == chain[0]
    {
      current := first;
      ghost var i :| 0 <= i < |chain| && chain[i] == current;
      while current.left != null
        invariant 0 <= i < |chain| && current == chain[i]
        decreases i
      {
        current := current.left;
        i := i - 1;
      }
      assert i == 0;
    }

    /** `find_rightmost`: walks `right` from `first` to the end. */
    method FindRightmost() returns (current: Rotor)
      requires Valid() && first != null
      ensures current == chain[|chain| - 1]
    {
      current := first;
      ghost var i :| 0 <= i < |chain| && chain[i] == current;
      while current.right != null
        invariant 0 <= i < |chain| && current == chain[i]
        decreases |chain| - i
      {
        current := current.right;
        i := i + 1;
      }
      assert i == |chain| - 1;
    }

    /** `append_rotor`: the new rotor becomes the right end of the chain;
        the first one appended stays `first`. Only `left` and `right`
        pointers change, so every rotor's tables and counter are kept. */
    method Append(r: Rotor)
      requires Valid() && r !in chain
      modifies this, r`left, r`right, LastOf(chain)`right
      ensures Valid() && chain == old(chain) + [r]
      ensures |old(chain)| > 0 ==> first == old(first)
      ensures old(FirstIsLeftmost()) ==> FirstIsLeftmost()
      ensures last == if |old(chain)| == 0 then old(last) else old(chain)[|old(chain)| - 1]
    {
      r.right := null;
      if first == null {
        r.left := null;
        first := r;
        chain := [r];
        return;
      }
      LinkedDistinct(chain);
      last := FindRightmost();
      last.right := r;
      r.left := last;
      chain := chain + [r];
    }

    /** `append_rotor` while the list is being assembled: appending a shaped
        rotor that shares no array with the chain or with `boards` keeps
        the list assembled, since only `left` and `right` pointers change. */
    method Extend(r: Rotor, ghost states: seq<RotorState>, ghost state: RotorState, ghost boards: set<array<int>>)
      requires Assembled(this, chain, states, boards)
      requires r.Shaped() && r.model == state && r.left == null && r.right == null
      requires forall i :: 0 <= i < |chain| ==> r.Apart(chain[i]) && chain[i].Apart(r)
      requires r.fwMap !in boards && r.bwMap !in boards
      modifies this, r`left, r`right, LastOf(chain)`right
      ensures chain == old(chain) + [r] && Assembled(this, chain, states + [state], boards)
    {
      ghost var built := chain;
      ChainAppend(built, r);
      InStatesAppend(built, states, r);
      forall a | a in boards
        ensures a !in Tables(built + [r])
      {
        TablesAppend(built, r, a);
      }
      Append(r);
    }

    /** The body of the rotor loop of the machine's `setup`: `new Rotor`
        from a rotor file, then `append_rotor` unless the rotor reports an
        error. The new rotor shares no array with the chain or `boards`. */
    method AppendNew(tokens: seq<int>, ghost states: seq<RotorState>, ghost boards: set<array<int>>)
      returns (code: Code)
      requires Assembled(this, chain, states, boards)
      modifies this, LastOf(chain)`right
      ensures code == CodeOf(RotorSetup(tokens))
      ensures code == NoError ==> Assembled(this, chain, states + [RotorSetup(tokens).value], boards)
      ensures code == NoError ==> |chain| == |old(chain)| + 1
      ensures code == NoError ==> forall q :: q in chain ==>
        q in old(chain) || (fresh(q) && fresh(q.fwMap) && fresh(q.bwMap))
    {
      var r := new Rotor(tokens);
      if r.errorcode != NoError {
        return r.errorcode;
      }
      Extend(r, states, RotorSetup(tokens).value, boards);
      code := NoError;
    }
  }

  /** The rightmost rotor, the only one whose `right` appending changes. */
  ghost function LastOf(chain: seq<Rotor>): (s: set<Rotor>)
    ensures |chain| > 0 ==> s == {chain[|chain| - 1]}
    ensures |chain| == 0 ==> s == {}
  {
    if |chain| == 0 then {} else {chain[|chain| - 1]}
  }

  /** A list being assembled: it holds `chain`, whose rotors are linked,
      ready to rotate and in the states `states`, and none of whose tables
      is one of `boards`. */
  ghost predicate Assembled(list: RotorList, chain: seq<Rotor>, states: seq<RotorState>, boards: set<array<int>>)
    reads list, RotorSet(chain)`rotations, RotorSet(chain)`model, RotorSet(chain)`left, RotorSet(chain)`right
    reads Tables(chain), Notches(chain)
  {
    && list.chain == chain && list.Valid() && list.FirstIsLeftmost()
    && ChainValid(chain) && InStates(chain, states)
    && forall a :: a in boards ==> a !in Tables(chain)
  }

  /** The links are acyclic: a linked chain never lists a rotor twice. */
  lemma {:induction false} LinkedDistinct(chain: seq<Rotor>)
    requires Linked(chain)
    ensures forall i, j :: 0 <= i < j < |chain| ==> chain[i] != chain[j]
  {
    forall i, j | 0 <= i < j < |chain|
      ensures chain[i] != chain[j]
    {
      LinkedDistinctAt(chain, i, j);
    }
  }

  lemma {:induction false} LinkedDistinctAt(chain: seq<Rotor>, i: nat, j: nat)
    requires Linked(chain) && i < j < |chain|
    ensures chain[i] != chain[j]
    decreases i
  {
    assert chain[j].left == chain[j - 1];
    if i == 0 {
      assert chain[0].left == null;
    } else {
      assert chain[i].left == chain[i - 1];
      LinkedDistinctAt(chain, i - 1, j - 1);
    }
  }
}
