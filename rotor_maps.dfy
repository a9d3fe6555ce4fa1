/** The rotor as a value (rotor.cpp): two offset tables, the notch slots and
    the rotation counter, with the arithmetic of the forward and backward
    passes, the one-step rotation and the odometer carry along a chain. */
module RotorMaps {
  import opened Alphabet
  import opened Errors

  /** A snapshot of one rotor: `fw_map`, `bw_map`, `notches`, `rotations`. */
  datatype RotorState = RotorState(fw: seq<int>, bw: seq<int>, notches: seq<int>, rotations: int)

  /** Every offset lies strictly between -26 and 26, so index + offset
      lies in -25..50 and a single wrap brings it back into the alphabet. */
  predicate BoundedOffsets(a: seq<int>) {
    |a| == AlphaSize && forall i :: 0 <= i < |a| ==> -AlphaSize < a[i] < AlphaSize
  }

  /** An offset table is read as: output = index + offset, wrapped into 0..25. */
  function Through(offsets: seq<int>, c: int): (d: int)
    requires BoundedOffsets(offsets) && InAlphabet(c)
    ensures InAlphabet(d)
  {
    var x := c + offsets[c];
    if x < MinIndex then x + AlphaSize else if x > MaxIndex then x - AlphaSize else x
  }

  /** The wrap is the residue modulo 26. */
  lemma ThroughIsResidue(offsets: seq<int>, c: int)
    requires BoundedOffsets(offsets) && InAlphabet(c)
    ensures Through(offsets, c) == (c + offsets[c]) % AlphaSize
  {
    var x := c + offsets[c];
    if x < MinIndex {
      ResidueUnique(x, -1, x + AlphaSize);
    } else if x > MaxIndex {
      ResidueUnique(x, 1, x - AlphaSize);
    } else {
      ResidueUnique(x, 0, x);
    }
  }

  /** The backward table undoes the forward table: `fw` sends `c` to `d`
      exactly when `bw` sends `d` back to `c`. */
  ghost predicate InverseOffsets(fw: seq<int>, bw: seq<int>) {
    && BoundedOffsets(fw) && BoundedOffsets(bw)
    && forall c, d {:trigger Through(fw, c), Through(bw, d)} :: InAlphabet(c) && InAlphabet(d) ==> (Through(fw, c) == d <==> Through(bw, d) == c)
  }

  /** What every rotor in a running machine satisfies. */
  ghost predicate WellFormed(s: RotorState) {
    InverseOffsets(s.fw, s.bw) && |s.notches| == AlphaSize && InAlphabet(s.rotations)
  }

  function Forward(s: RotorState, c: int): int
    requires BoundedOffsets(s.fw) && InAlphabet(c)
  {
    Through(s.fw, c)
  }

  function Backward(s: RotorState, c: int): int
    requires BoundedOffsets(s.bw) && InAlphabet(c)
  {
    Through(s.bw, c)
  }

  /** The next and the previous letter, wrapping around the alphabet. */
  function Succ(c: int): int {
    if c == MaxIndex then MinIndex else c + 1
  }

  function Pred(c: int): int {
    if c == MinIndex then MaxIndex else c - 1
  }

  /** `rotate_array`: a cyclic shift left by one place. */
  function ShiftLeft(a: seq<int>): (r: seq<int>)
    ensures |r| == |a|
  {
    if a == [] then [] else a[1..] + [a[0]]
  }

  /** Slot `i` of the shifted sequence holds what slot `i + 1` held, and
      the last slot holds the old first one. */
  lemma ShiftLeftSlots(a: seq<int>)
    ensures forall i :: 0 <= i < |a| - 1 ==> ShiftLeft(a)[i] == a[i + 1]
    ensures a != [] ==> ShiftLeft(a)[|a| - 1] == a[0]
  {
  }

  /** One step of `rotate` on the rotor itself: both tables shifted
      together, the counter incremented modulo 26. */
  function Rotated(s: RotorState): RotorState {
    s.(fw := ShiftLeft(s.fw), bw := ShiftLeft(s.bw), rotations := (s.rotations + 1) % AlphaSize)
  }

  /** `is_notch`: the counter equals one of the stored notches. */
  predicate NotchHit(s: RotorState) {
    s.rotations in s.notches
  }

  /** `rotate` on rotor `k` of a chain indexed left to right: the rotor
      steps, and when its new counter meets a notch and it has a left
      neighbour, the neighbour rotates in turn. */
  function Cascade(rs: seq<RotorState>, k: int): (r: seq<RotorState>)
    requires 0 <= k < |rs|
    ensures |r| == |rs|
    decreases k
  {
    var s := Rotated(rs[k]);
    var rs' := rs[k := s];
    if NotchHit(s) && k > 0 then Cascade(rs', k - 1) else rs'
  }

  /** `start` on rotor `k`: `rotate` repeated `n` times. */
  function Prime(rs: seq<RotorState>, k: int, n: nat): (r: seq<RotorState>)
    requires 0 <= k < |rs|
    ensures |r| == |rs|
  {
    if n == 0 then rs else Cascade(Prime(rs, k, Prev(n)), k)
  }

  // ----- Rotation keeps the tables inverse to each other -----

  /** Reading a shifted table at `c` is reading the unshifted table at
      the next letter and stepping one letter back. */
  lemma ThroughShifted(a: seq<int>, c: int)
    requires BoundedOffsets(a) && InAlphabet(c)
    ensures BoundedOffsets(ShiftLeft(a))
    ensures Through(ShiftLeft(a), c) == Pred(Through(a, Succ(c)))
  {
    ShiftLeftSlots(a);
    if c < MaxIndex {
      assert ShiftLeft(a)[c] == a[c + 1];
    } else {
      assert ShiftLeft(a)[c] == a[0];
    }
  }

  /** Shifting both tables together keeps them inverse to each other, so
      at every rotation state the backward pass undoes the forward pass. */
  lemma RotatedKeepsInverse(fw: seq<int>, bw: seq<int>)
    requires InverseOffsets(fw, bw)
    ensures InverseOffsets(ShiftLeft(fw), ShiftLeft(bw))
  {
    forall c, d | InAlphabet(c) && InAlphabet(d)
      ensures Through(ShiftLeft(fw), c) == d <==> Through(ShiftLeft(bw), d) == c
    {
      ThroughShifted(fw, c);
      ThroughShifted(bw, d);
      assert Through(fw, Succ(c)) == Succ(d) <==> Through(bw, Succ(d)) == Succ(c);
    }
  }

  lemma RotatedWellFormed(s: RotorState)
    requires WellFormed(s)
    ensures WellFormed(Rotated(s))
  {
    RotatedKeepsInverse(s.fw, s.bw);
  }

  // ----- The odometer carry -----

  /** Rotor `j` turns during `rotate` on rotor `k` exactly when `j` is `k`,
      or lies left of `k` and every rotor from `j + 1` to `k` met a notch
      after its step. */
  ghost predicate Turns(rs: seq<RotorState>, k: int, j: int) {
    0 <= j <= k < |rs| && forall i :: j < i <= k ==> NotchHit(Rotated(rs[i]))
  }

  /** The cascade steps exactly the rotors that `Turns` selects, each one
      once, and leaves every other rotor (in particular every rotor right
      of `k`) as it was: the carry only ever moves left, so it ends. */
  lemma {:induction false} CascadeTurns(rs: seq<RotorState>, k: int)
    requires 0 <= k < |rs|
    ensures forall j :: 0 <= j < |rs| ==>
              Cascade(rs, k)[j] == if Turns(rs, k, j) then Rotated(rs[j]) else rs[j]
    decreases k
  {
    var s := Rotated(rs[k]);
    var rs' := rs[k := s];
    if NotchHit(s) && k > 0 {
      CascadeTurns(rs', k - 1);
      forall j | 0 <= j < |rs|
        ensures Cascade(rs, k)[j] == if Turns(rs, k, j) then Rotated(rs[j]) else rs[j]
      {
        if j < k {
          assert Turns(rs', k - 1, j) <==> Turns(rs, k, j) by {
            assert forall i :: j < i <= k - 1 ==> rs'[i] == rs[i];
          }
        }
      }
    } else {
      forall j | 0 <= j < |rs|
        ensures Cascade(rs, k)[j] == if Turns(rs, k, j) then Rotated(rs[j]) else rs[j]
      {
        if j < k {
          assert !NotchHit(Rotated(rs[k]));
          assert !Turns(rs, k, j);
        }
      }
    }
  }

  /** Every rotor stays well formed through a cascade. */
  lemma CascadeWellFormed(rs: seq<RotorState>, k: int)
    requires 0 <= k < |rs| && forall j :: 0 <= j < |rs| ==> WellFormed(rs[j])
    ensures forall j :: 0 <= j < |rs| ==> WellFormed(Cascade(rs, k)[j])
  {
    CascadeTurns(rs, k);
    forall j | 0 <= j < |rs|
      ensures WellFormed(Cascade(rs, k)[j])
    {
      RotatedWellFormed(rs[j]);
    }
  }

  lemma {:induction false} PrimeWellFormed(rs: seq<RotorState>, k: int, n: nat)
    requires 0 <= k < |rs| && forall j :: 0 <= j < |rs| ==> WellFormed(rs[j])
    ensures forall j :: 0 <= j < |rs| ==> WellFormed(Prime(rs, k, n)[j])
  {
    if n > 0 {
      PrimeWellFormed(rs, k, Prev(n));
      CascadeWellFormed(Prime(rs, k, Prev(n)), k);
    }
  }

  /** How many single steps `start` makes for a starting position: the
      position itself, or none when it is not positive. */
  function Times(position: int): (n: nat)
    ensures position > 0 ==> n == position
    ensures position <= 0 ==> n == 0
  {
    if position > 0 then position else 0
  }

  /** The loop bound of `start` never falls below the starting position. */
  lemma TimesBounds(position: int)
    ensures position <= Times(position)
  {
  }

  /** A count between the starting position and its `Times` is that
      `Times`: where `start`'s loop stops. */
  lemma TimesReached(position: int, count: int)
    requires 0 <= count <= Times(position) && position <= count
    ensures count == Times(position)
  {
  }

  /** Priming rotor `k` never touches the rotors to its right, so priming
      left to right can only disturb rotors already primed. */
  lemma {:induction false} PrimeKeepsRight(rs: seq<RotorState>, k: int, n: nat)
    requires 0 <= k < |rs|
    ensures forall j :: k < j < |rs| ==> Prime(rs, k, n)[j] == rs[j]
  {
    if n > 0 {
      PrimeKeepsRight(rs, k, Prev(n));
      CascadeTurns(Prime(rs, k, Prev(n)), k);
    }
  }

  /** The counter stays in 0..25 whatever it started from. */
  lemma RotatedCounterInRange(s: RotorState)
    ensures InAlphabet(Rotated(s).rotations)
  {
  }

  /** An unused notch slot holds -1, which a counter in 0..25 never
      equals: a rotor whose slots are all unused never carries. */
  lemma NoNotchesNoCarry(s: RotorState)
    requires forall i :: 0 <= i < |s.notches| ==> s.notches[i] == -1
    ensures !NotchHit(Rotated(s))
  {
  }

  // ----- Building a rotor from its configuration tokens -----

  /** The first 26 tokens are the wiring: a permutation of the alphabet. */
  predicate IsPermutation(p: seq<int>) {
    && |p| == AlphaSize
    && (forall i :: 0 <= i < |p| ==> InAlphabet(p[i]))
    && (forall i, j :: 0 <= i < j < |p| ==> p[i] != p[j])
  }

  /** `fw_map[i] = p[i] - i`. */
  function FwOffsets(p: seq<int>): (fw: seq<int>)
    requires IsPermutation(p)
    ensures BoundedOffsets(fw)
    ensures forall i :: 0 <= i < AlphaSize ==> fw[i] == p[i] - i
  {
    seq(AlphaSize, i requires 0 <= i < AlphaSize => p[i] - i)
  }

  /** The position of `v` in `p`. */
  function IndexOf(p: seq<int>, v: int): (i: int)
    requires v in p
    ensures 0 <= i < |p| && p[i] == v
  {
    if p[0] == v then 0 else 1 + IndexOf(p[1..], v)
  }

  /** `bw_map[p[i]] = i - p[i]`. */
  function BwOffsets(p: seq<int>): (bw: seq<int>)
    requires IsPermutation(p)
    ensures BoundedOffsets(bw)
    ensures forall i :: 0 <= i < AlphaSize ==> bw[p[i]] == i - p[i]
  {
    Pigeonhole(p);
    seq(AlphaSize, v requires 0 <= v < AlphaSize => IndexOf(p, v) - v)
  }

  /** Unused notch slots hold -1; tokens 27 onwards fill the slots in order. */
  function NotchSlots(t: seq<int>): (notches: seq<int>)
    ensures |notches| == AlphaSize
  {
    seq(AlphaSize, i requires 0 <= i < AlphaSize =>
      if AlphaSize + i < |t| then t[AlphaSize + i] else -1)
  }

  /** The per-token checks of `Rotor::setup` from token `count` on: a token
      out of range is INVALID_INDEX, and among the first 26 tokens one that
      repeats an earlier token is INVALID_ROTOR_MAPPING. Notch tokens are
      never checked for repeats. */
  function RotorTokenCheck(t: seq<int>, count: nat): Code
    decreases |t| - count
  {
    if count >= |t| then NoError
    else if !InAlphabet(t[count]) then InvalidIndex
    else if count < AlphaSize && t[count] in t[..count] then InvalidRotorMapping
    else RotorTokenCheck(t, count + 1)
  }

  /** The outcome of `Rotor::setup`: the per-token checks, then the bound
      of 26 wiring tokens plus at most 26 notches. A fresh rotor has not
      rotated. */
  function RotorSetup(t: seq<int>): Result<RotorState> {
    var c := RotorTokenCheck(t, 0);
    if c != NoError then Err(c)
    else if |t| < AlphaSize || |t| > 2 * AlphaSize then Err(InvalidRotorMapping)
    else
      RotorTokenCheckPermutation(t);
      Ok(RotorState(FwOffsets(t[..AlphaSize]), BwOffsets(t[..AlphaSize]), NotchSlots(t), 0))
  }

  /** The per-token checks pass exactly when every token from `count` on
      is in range and none of the first 26 repeats an earlier one. */
  lemma {:induction false} RotorTokenCheckIff(t: seq<int>, count: nat)
    ensures RotorTokenCheck(t, count) == NoError <==>
              forall i :: count <= i < |t| ==> InAlphabet(t[i]) && (i < AlphaSize ==> t[i] !in t[..i])
    decreases |t| - count
  {
    if count < |t| {
      RotorTokenCheckIff(t, count + 1);
    }
  }

  lemma RotorTokenCheckPermutation(t: seq<int>)
    requires RotorTokenCheck(t, 0) == NoError && |t| >= AlphaSize
    ensures IsPermutation(t[..AlphaSize])
  {
    RotorTokenCheckIff(t, 0);
    var p := t[..AlphaSize];
    forall i, j | 0 <= i < j < |p|
      ensures p[i] != p[j]
    {
      assert t[..j][i] == p[i];
    }
  }

  /** `setup` accepts exactly a permutation of the alphabet followed by at
      most 26 notch tokens in range. */
  lemma RotorSetupIff(t: seq<int>)
    ensures RotorSetup(t).Ok? <==>
              && AlphaSize <= |t| <= 2 * AlphaSize
              && IsPermutation(t[..AlphaSize])
              && forall i :: AlphaSize <= i < |t| ==> InAlphabet(t[i])
  {
    RotorTokenCheckIff(t, 0);
    if AlphaSize <= |t| && IsPermutation(t[..AlphaSize]) {
      forall i | 0 <= i < AlphaSize
        ensures t[i] !in t[..i]
      {
        assert t[..AlphaSize][i] == t[i];
        forall j | 0 <= j < i
          ensures t[..i][j] != t[i]
        {
          assert t[..AlphaSize][j] == t[j];
        }
      }
    }
  }

  /** The tables built from a permutation send `i` to `p[i]` going
      forward and `p[i]` back to `i`, and are inverse to each other. */
  lemma OffsetsWiring(p: seq<int>)
    requires IsPermutation(p)
    ensures InverseOffsets(FwOffsets(p), BwOffsets(p))
    ensures forall i :: 0 <= i < AlphaSize ==>
              Through(FwOffsets(p), i) == p[i] && Through(BwOffsets(p), p[i]) == i
  {
    var fw, bw := FwOffsets(p), BwOffsets(p);
    Pigeonhole(p);
    forall i | 0 <= i < AlphaSize
      ensures Through(fw, i) == p[i] && Through(bw, p[i]) == i
    {
      assert fw[i] == p[i] - i;
      assert bw[p[i]] == i - p[i];
    }
    forall c, d | InAlphabet(c) && InAlphabet(d)
      ensures Through(fw, c) == d <==> Through(bw, d) == c
    {
      var i := IndexOf(p, d);
      assert Through(bw, p[i]) == i;
    }
  }

  /** A freshly built rotor is well formed and, before any rotation, sends
      `i` to the `i`-th wiring token going forward and back again. */
  lemma RotorSetupWiring(t: seq<int>)
    requires RotorSetup(t).Ok?
    ensures WellFormed(RotorSetup(t).value)
    ensures forall i :: 0 <= i < AlphaSize ==>
              Forward(RotorSetup(t).value, i) == t[i] && Backward(RotorSetup(t).value, t[i]) == i
  {
    var p := t[..AlphaSize];
    RotorTokenCheckPermutation(t);
    assert RotorSetup(t).value == RotorState(FwOffsets(p), BwOffsets(p), NotchSlots(t), 0);
    OffsetsWiring(p);
  }

  /** Repeated notch tokens are accepted: the straight-through wiring with
      the notch 5 given twice is a valid rotor. */
  lemma RepeatedNotchAccepted()
    ensures RotorSetup(seq(AlphaSize, i => i) + [5, 5]).Ok?
  {
    var t := seq(AlphaSize, i => i) + [5, 5];
    var p := t[..AlphaSize];
    assert forall i :: 0 <= i < AlphaSize ==> p[i] == i;
    RotorSetupIff(t);
  }

  /** `Rotor::setup` as the code is written: `count--` runs after the
      reading loop, so for a file whose every token is followed by
      whitespace the bound 26..52 is tested on one less than the number of
      tokens read. */
  function RotorSetupAsWritten(t: seq<int>): Result<RotorState> {
    var c := RotorTokenCheck(t, 0);
    var count := |t| - 1;
    if c != NoError then Err(c)
    else if count < AlphaSize || count > 2 * AlphaSize then Err(InvalidRotorMapping)
    else
      RotorTokenCheckPermutation(t);
      Ok(RotorState(FwOffsets(t[..AlphaSize]), BwOffsets(t[..AlphaSize]), NotchSlots(t), 0))
  }

  /** Between 27 and 52 tokens the code as written and the intended
      bound agree. */
  lemma RotorSetupAsWrittenAgrees(t: seq<int>)
    requires AlphaSize < |t| <= 2 * AlphaSize
    ensures RotorSetupAsWritten(t) == RotorSetup(t)
  {
  }

  /** A rotor without notches, the straight-through wiring alone, is a
      valid rotor that the code as written refuses. */
  lemma NotchFreeRotorRefused()
    ensures RotorSetup(seq(AlphaSize, i => i)).Ok?
    ensures RotorSetupAsWritten(seq(AlphaSize, i => i)) == Err(InvalidRotorMapping)
  {
    var t := seq(AlphaSize, i => i);
    assert t[..AlphaSize] == t;
    RotorSetupIff(t);
    RotorTokenCheckIff(t, 0);
  }

  /** Fifty-three tokens, one more than the 52-slot input array holds, are
      let through by the code as written and refused by the bound. */
  lemma FiftyThirdTokenAccepted()
    ensures RotorSetup(seq(AlphaSize, i => i) + seq(AlphaSize + 1, i => 0)) == Err(InvalidRotorMapping)
    ensures RotorSetupAsWritten(seq(AlphaSize, i => i) + seq(AlphaSize + 1, i => 0)).Ok?
  {
    var t := seq(AlphaSize, i => i) + seq(AlphaSize + 1, i => 0);
    var p := t[..AlphaSize];
    assert forall i :: 0 <= i < AlphaSize ==> p[i] == i;
    RotorSetupIff(t);
    RotorTokenCheckIff(t, 0);
  }

  // ----- Pigeonhole: 26 distinct letters are all the letters -----

  lemma {:induction false} ImageSize(p: seq<int>, n: nat)
    requires n <= |p| && forall i, j :: 0 <= i < j < |p| ==> p[i] != p[j]
    ensures |set i | 0 <= i < n :: p[i]| == n
  {
    if n > 0 {
      ImageSize(p, n - 1);
      var prev := set i | 0 <= i < n - 1 :: p[i];
      assert (set i | 0 <= i < n :: p[i]) == prev + {p[n - 1]};
      assert p[n - 1] !in prev;
    }
  }

  lemma SubsetSize(a: set<int>, b: set<int>)
    requires a <= b
    ensures |a| <= |b|
  {
    assert b == a + (b - a);
    assert a * (b - a) == {};
  }

  lemma Pigeonhole(p: seq<int>)
    requires IsPermutation(p)
    ensures forall v :: InAlphabet(v) ==> v in p
  {
    var letters := seq(AlphaSize, i => i);
    var image := set i | 0 <= i < AlphaSize :: p[i];
    var all := set i | 0 <= i < AlphaSize :: letters[i];
    ImageSize(p, AlphaSize);
    ImageSize(letters, AlphaSize);
    assert image <= all by {
      forall v | v in image
        ensures v in all
      {
        var i :| 0 <= i < AlphaSize && p[i] == v;
        assert letters[v] == v;
      }
    }
    forall v | InAlphabet(v)
      ensures v in p
    {
      assert letters[v] == v;
      if v !in image {
        assert image <= all - {v};
        SubsetSize(image, all - {v});
        assert false;
      }
    }
  }
}
