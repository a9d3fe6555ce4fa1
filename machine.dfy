/** The whole machine as a value (enigma.cpp): the plugboard and reflector
    mappings and the rotor snapshots listed left to right. The `Enigma`
    class is proved against these definitions. */
module Machines {
  import opened Alphabet
  import opened Errors
  import opened Boards
  import opened Plugboards
  import opened Reflectors
  import opened RotorMaps

  datatype Machine = Machine(plugboard: seq<int>, reflector: seq<int>, rotors: seq<RotorState>)

  /** `encrypt_message`'s result: the letters written out before it stopped,
      and the error code it returned. */
  datatype Outcome = Outcome(output: string, code: Code)

  predicate AllBounded(rs: seq<RotorState>) {
    forall j :: 0 <= j < |rs| ==> BoundedOffsets(rs[j].fw) && BoundedOffsets(rs[j].bw)
  }

  ghost predicate AllWellFormed(rs: seq<RotorState>) {
    forall j :: 0 <= j < |rs| ==> WellFormed(rs[j])
  }

  /** What a lookup through every part needs. */
  predicate Shaped(m: Machine) {
    IsMapping(m.plugboard) && IsMapping(m.reflector) && AllBounded(m.rotors)
  }

  /** A configured machine: both boards are involutions and every rotor's
      backward table inverts its forward table. */
  ghost predicate MachineValid(m: Machine) {
    Involution(m.plugboard) && Involution(m.reflector) && AllWellFormed(m.rotors)
  }

  // ---------------------------------------------------------------------
  // One letter

  /** The forward half of `encrypt`: the rotors from the rightmost to the
      leftmost. */
  function ForwardPass(rs: seq<RotorState>, c: int): (d: int)
    requires AllBounded(rs) && InAlphabet(c)
    ensures InAlphabet(d)
  {
    ForwardFrom(rs, |rs|, c)
  }

  /** The forward maps of rotors `k - 1` down to 0. */
  function ForwardFrom(rs: seq<RotorState>, k: nat, c: int): (d: int)
    requires AllBounded(rs) && k <= |rs| && InAlphabet(c)
    ensures InAlphabet(d)
  {
    if k == 0 then c else ForwardFrom(rs, k - 1, Forward(rs[k - 1], c))
  }

  /** The backward half of `encrypt`: the rotors from the leftmost to the
      rightmost. */
  function BackwardPass(rs: seq<RotorState>, c: int): (d: int)
    requires AllBounded(rs) && InAlphabet(c)
    ensures InAlphabet(d)
  {
    BackwardTo(rs, |rs|, c)
  }

  /** The backward maps of rotors 0 up to `k - 1`. */
  function BackwardTo(rs: seq<RotorState>, k: nat, c: int): (d: int)
    requires AllBounded(rs) && k <= |rs| && InAlphabet(c)
    ensures InAlphabet(d)
  {
    if k == 0 then c else var j := Prev(k); Backward(rs[j], BackwardTo(rs, j, c))
  }

  lemma ForwardBackward(s: RotorState, c: int)
    requires WellFormed(s) && InAlphabet(c)
    ensures Backward(s, Forward(s, c)) == c && Forward(s, Backward(s, c)) == c
  {
  }

  /** At every rotor state the backward pass undoes the forward pass, and
      the other way round. */
  lemma PassesInverse(rs: seq<RotorState>, c: int)
    requires AllWellFormed(rs) && InAlphabet(c)
    ensures BackwardPass(rs, ForwardPass(rs, c)) == c
    ensures ForwardPass(rs, BackwardPass(rs, c)) == c
  {
    forall j, x | 0 <= j < |rs| && InAlphabet(x)
      ensures Backward(rs[j], Forward(rs[j], x)) == x
      ensures Forward(rs[j], Backward(rs[j], x)) == x
    {
      ForwardBackward(rs[j], x);
    }
    BackwardUndoesForward(rs, |rs|, c);
    ForwardUndoesBackward(rs, |rs|, c);
  }

  lemma {:induction false} BackwardUndoesForward(rs: seq<RotorState>, k: nat, c: int)
    requires AllBounded(rs) && k <= |rs| && InAlphabet(c)
    requires forall j, x {:trigger Forward(rs[j], x)} :: 0 <= j < k && InAlphabet(x) ==> Backward(rs[j], Forward(rs[j], x)) == x
    ensures BackwardTo(rs, k, ForwardFrom(rs, k, c)) == c
  {
    if k > 0 {
      BackwardUndoesForward(rs, k - 1, Forward(rs[k - 1], c));
    }
  }

  lemma {:induction false} ForwardUndoesBackward(rs: seq<RotorState>, k: nat, c: int)
    requires AllBounded(rs) && k <= |rs| && InAlphabet(c)
    requires forall j, x {:trigger Backward(rs[j], x)} :: 0 <= j < k && InAlphabet(x) ==> Forward(rs[j], Backward(rs[j], x)) == x
    ensures ForwardFrom(rs, k, BackwardTo(rs, k, c)) == c
  {
    if k > 0 {
      ForwardUndoesBackward(rs, k - 1, c);
    }
  }

  /** `encrypt` after its keypress: plugboard, rotors right to left,
      reflector, rotors left to right, plugboard; with no rotors the path is
      plugboard, reflector, plugboard. */
  function Substitute(m: Machine, c: int): (d: int)
    requires Shaped(m) && InAlphabet(c)
    ensures InAlphabet(d)
  {
    var p := m.plugboard[c];
    if |m.rotors| > 0 then
      m.plugboard[BackwardPass(m.rotors, m.reflector[ForwardPass(m.rotors, p)])]
    else
      m.plugboard[m.reflector[p]]
  }

  /** For a fixed rotor state the substitution is its own inverse. */
  lemma SubstituteInvolution(m: Machine, c: int)
    requires MachineValid(m) && InAlphabet(c)
    ensures Substitute(m, Substitute(m, c)) == c
  {
    var p, f, rs := m.plugboard, m.reflector, m.rotors;
    var d := Substitute(m, c);
    var y := ForwardPass(rs, p[c]);
    var z := BackwardPass(rs, f[y]);
    if |rs| > 0 {
      assert d == p[z] && p[d] == z;
      PassesInverse(rs, f[y]);
      assert ForwardPass(rs, p[d]) == f[y];
      assert f[f[y]] == y;
      PassesInverse(rs, p[c]);
      assert BackwardPass(rs, y) == p[c];
    } else {
      assert d == p[f[p[c]]] && p[d] == f[p[c]];
      assert f[p[d]] == p[c];
    }
  }

  /** A letter is sent to itself only through a letter that the reflector
      sends to itself; so with a reflector free of fixed points no letter
      is ever enciphered as itself. */
  lemma SelfEncryptionNeedsFixedPoint(m: Machine, c: int)
    requires MachineValid(m) && InAlphabet(c)
    ensures Substitute(m, c) == c ==>
              var y := ForwardPass(m.rotors, m.plugboard[c]); m.reflector[y] == y
    ensures (forall x :: InAlphabet(x) ==> m.reflector[x] != x) ==> Substitute(m, c) != c
  {
    var p, f, rs := m.plugboard, m.reflector, m.rotors;
    var y := ForwardPass(rs, p[c]);
    var z := BackwardPass(rs, f[y]);
    PassesInverse(rs, f[y]);
    assert ForwardPass(rs, z) == f[y];
    if |rs| > 0 {
      assert Substitute(m, c) == p[z];
    } else {
      assert z == f[y] && y == p[c];
    }
    assert Substitute(m, c) == c ==> z == p[c];
  }

  // ---------------------------------------------------------------------
  // Keypresses

  /** `keypress`: the rightmost rotor rotates and carries left; without
      rotors nothing moves. */
  function Keypress(rs: seq<RotorState>): (r: seq<RotorState>)
    ensures |r| == |rs|
  {
    if |rs| == 0 then [] else Cascade(rs, |rs| - 1)
  }

  /** The rightmost rotor steps on every key, and a rotor further left
      steps exactly when every rotor to its right has just reached one of
      its notches. */
  lemma KeypressSteps(rs: seq<RotorState>)
    requires rs != []
    ensures Keypress(rs)[|rs| - 1] == Rotated(rs[|rs| - 1])
    ensures forall j :: 0 <= j < |rs| - 1 ==>
              Keypress(rs)[j] ==
                if forall i :: j < i < |rs| ==> NotchHit(Rotated(rs[i])) then Rotated(rs[j]) else rs[j]
  {
    CascadeTurns(rs, |rs| - 1);
  }

  function Press(m: Machine): (r: Machine)
    ensures r.plugboard == m.plugboard && r.reflector == m.reflector
    ensures |r.rotors| == |m.rotors|
    ensures Shaped(m) ==> Shaped(r)
  {
    KeypressBounded(m.rotors);
    m.(rotors := Keypress(m.rotors))
  }

  /** Rotation keeps every offset inside the open range (-26, 26). */
  lemma KeypressBounded(rs: seq<RotorState>)
    ensures AllBounded(rs) ==> AllBounded(Keypress(rs))
  {
    if AllBounded(rs) && rs != [] {
      CascadeTurns(rs, |rs| - 1);
      forall j | 0 <= j < |rs|
        ensures BoundedOffsets(Keypress(rs)[j].fw) && BoundedOffsets(Keypress(rs)[j].bw)
      {
        ThroughShifted(rs[j].fw, 0);
        ThroughShifted(rs[j].bw, 0);
      }
    }
  }

  lemma PressValid(m: Machine)
    requires MachineValid(m)
    ensures MachineValid(Press(m))
  {
    if m.rotors != [] {
      CascadeWellFormed(m.rotors, |m.rotors| - 1);
    }
  }

  /** The machine after `n` key presses: the boards as they were, the
      same number of rotors. */
  function Presses(m: Machine, n: nat): (r: Machine)
    ensures r.plugboard == m.plugboard && r.reflector == m.reflector
    ensures |r.rotors| == |m.rotors|
    ensures Shaped(m) ==> Shaped(r)
  {
    if n == 0 then m else Press(Presses(m, Prev(n)))
  }

  /** Any number of key presses keeps a valid machine valid. */
  lemma {:induction false} PressesValid(m: Machine, n: nat)
    requires MachineValid(m)
    ensures MachineValid(Presses(m, n))
  {
    if n > 0 {
      PressesValid(m, Prev(n));
      PressValid(Presses(m, Prev(n)));
    }
  }

  // ---------------------------------------------------------------------
  // Messages of characters

  /** The whitespace `encrypt_message` erases: space, newline, carriage
      return, horizontal tab, vertical tab and form feed. */
  predicate IsBlank(ch: char) {
    ch == ' ' || ch == '\n' || ch == '\r' || ch == '\t' || ch == '\U{0B}' || ch == '\U{0C}'
  }

  /** The message with every blank erased, the other characters kept in
      order. */
  function Stripped(s: string): (r: string)
    ensures |r| <= |s|
    ensures forall i :: 0 <= i < |r| ==> !IsBlank(r[i])
  {
    if s == [] then []
    else Stripped(s[..|s| - 1]) + (if IsBlank(s[|s| - 1]) then [] else [s[|s| - 1]])
  }

  /** Stripping keeps exactly the characters that are not blanks. */
  lemma {:induction false} StrippedKeeps(s: string)
    ensures forall ch :: ch in Stripped(s) <==> ch in s && !IsBlank(ch)
  {
    if s != [] {
      var init := s[..|s| - 1];
      StrippedKeeps(init);
      assert s == init + [s[|s| - 1]];
    }
  }

  /** A message without blanks is left as it is. */
  lemma {:induction false} StrippedUnchanged(s: string)
    requires forall i :: 0 <= i < |s| ==> !IsBlank(s[i])
    ensures Stripped(s) == s
  {
    if s != [] {
      var init := s[..|s| - 1];
      forall i | 0 <= i < |init|
        ensures !IsBlank(init[i])
      {
        assert init[i] == s[i];
      }
      StrippedUnchanged(init);
      assert !IsBlank(s[|s| - 1]);
      assert s == init + [s[|s| - 1]];
    }
  }

  /** Stripping twice is stripping once. */
  lemma StrippedIdempotent(s: string)
    ensures Stripped(Stripped(s)) == Stripped(s)
  {
    StrippedUnchanged(Stripped(s));
  }

  /** `message.erase(std::remove(begin, end, ch), end)`: every `ch` is
      removed and the other characters keep their order. */
  function Erased(s: string, ch: char): (r: string)
    ensures |r| <= |s|
  {
    if s == [] then []
    else Erased(s[..|s| - 1], ch) + (if s[|s| - 1] == ch then [] else [s[|s| - 1]])
  }

  lemma {:induction false} ErasedAppend(s: string, t: string, ch: char)
    ensures Erased(s + t, ch) == Erased(s, ch) + Erased(t, ch)
    decreases |t|
  {
    if t != [] {
      var init, last := t[..|t| - 1], t[|t| - 1];
      var tail := if last == ch then [] else [last];
      ErasedAppend(s, init, ch);
      assert (s + t)[..|s + t| - 1] == s + init;
      assert Erased(s + t, ch) == Erased(s + init, ch) + tail;
      assert Erased(t, ch) == Erased(init, ch) + tail;
    } else {
      assert s + t == s;
    }
  }

  /** The six erasures `encrypt_message` makes, one blank after another. */
  function ErasedBlanks(s: string): string {
    Erased(Erased(Erased(Erased(Erased(Erased(s, ' '), '\n'), '\r'), '\t'), '\U{0B}'), '\U{0C}')
  }

  lemma ErasedBlanksAppend(s: string, t: string)
    ensures ErasedBlanks(s + t) == ErasedBlanks(s) + ErasedBlanks(t)
  {
    var s1, t1 := Erased(s, ' '), Erased(t, ' ');
    ErasedAppend(s, t, ' ');
    var s2, t2 := Erased(s1, '\n'), Erased(t1, '\n');
    ErasedAppend(s1, t1, '\n');
    var s3, t3 := Erased(s2, '\r'), Erased(t2, '\r');
    ErasedAppend(s2, t2, '\r');
    var s4, t4 := Erased(s3, '\t'), Erased(t3, '\t');
    ErasedAppend(s3, t3, '\t');
    var s5, t5 := Erased(s4, '\U{0B}'), Erased(t4, '\U{0B}');
    ErasedAppend(s4, t4, '\U{0B}');
    ErasedAppend(s5, t5, '\U{0C}');
  }

  /** Erasing from at most the one character `c`. */
  lemma ErasedSingle(x: string, c: char, ch: char)
    requires x == [] || x == [c]
    ensures Erased(x, ch) == if x == [] || c == ch then [] else [c]
  {
    if x != [] {
      assert x[..0] == [];
    }
  }

  /** On one character the six erasures keep it exactly when it is not a
      blank. */
  lemma ErasedBlanksSingle(c: char)
    ensures ErasedBlanks([c]) == if IsBlank(c) then [] else [c]
  {
    var x1 := Erased([c], ' ');
    ErasedSingle([c], c, ' ');
    var x2 := Erased(x1, '\n');
    ErasedSingle(x1, c, '\n');
    var x3 := Erased(x2, '\r');
    ErasedSingle(x2, c, '\r');
    var x4 := Erased(x3, '\t');
    ErasedSingle(x3, c, '\t');
    var x5 := Erased(x4, '\U{0B}');
    ErasedSingle(x4, c, '\U{0B}');
    ErasedSingle(x5, c, '\U{0C}');
  }

  /** Erasing the six blanks one after another strips the message. */
  lemma {:induction false} ErasedBlanksStrip(s: string)
    ensures ErasedBlanks(s) == Stripped(s)
    decreases |s|
  {
    if s != [] {
      var init, c := s[..|s| - 1], s[|s| - 1];
      ErasedBlanksStrip(init);
      assert s == init + [c];
      ErasedBlanksAppend(init, [c]);
      ErasedBlanksSingle(c);
    }
  }

  /** How many characters, from the start, are capitals. */
  function CapitalPrefix(s: string): (k: nat)
    ensures k <= |s|
    ensures forall i :: 0 <= i < k ==> IsUpper(s[i])
    ensures k < |s| ==> !IsUpper(s[k])
    decreases |s|
  {
    if s == [] || !IsUpper(s[0]) then 0 else 1 + CapitalPrefix(s[1..])
  }

  /** The letters `encrypt_message` writes for the capitals the message
      starts with: each capital presses the key and is substituted at the
      new state, and the rest of the message goes on from there. */
  function Cipher(m: Machine, s: string): (c: string)
    requires Shaped(m)
    ensures |c| == CapitalPrefix(s)
    ensures forall i :: 0 <= i < |c| ==> IsUpper(c[i])
    decreases |s|
  {
    if s == [] || !IsUpper(s[0]) then []
    else
      [ToLetter(Substitute(Press(m), ToIndex(s[0])))] + Cipher(Press(m), s[1..])
  }

  /** The loop of `encrypt_message`: the capitals the message starts with
      are enciphered and written; the first other character stops it with
      INVALID_INPUT_CHARACTER. */
  function EncryptLetters(m: Machine, s: string): (r: Outcome)
    requires Shaped(m)
    ensures r.code == NoError <==> forall i :: 0 <= i < |s| ==> IsUpper(s[i])
  {
    Outcome(Cipher(m, s), if CapitalPrefix(s) == |s| then NoError else InvalidInputCharacter)
  }

  /** `encrypt_message` on the line read. */
  function EncryptMessage(m: Machine, message: string): Outcome
    requires Shaped(m)
  {
    EncryptLetters(m, Stripped(message))
  }

  /** How far the encrypting loop has got on `s`: it has read `i`
      capitals, written `written` for them, and left the machine `now`;
      the letters written followed by what `now` makes of the rest are the
      whole cipher, and `now` goes on to the machine the whole message
      leaves. */
  ghost predicate Progress(m: Machine, s: string, i: nat, written: string, now: Machine) {
    && Shaped(m) && Shaped(now) && i <= CapitalPrefix(s)
    && Cipher(m, s) == written + Cipher(now, s[i..])
    && Pressed(m, s) == Pressed(now, s[i..])
  }

  /** Before the loop nothing is read or written. */
  lemma ProgressStart(m: Machine, s: string)
    requires Shaped(m)
    ensures Progress(m, s, 0, "", m)
  {
    assert s[0..] == s;
  }

  /** One turn of the encrypting loop: writing capital `i` enciphered
      after one keypress and going on from the pressed machine keeps the
      progress. */
  lemma CipherNext(m: Machine, now: Machine, s: string, i: nat, written: string)
    requires Progress(m, s, i, written, now) && i < |s| && IsUpper(s[i])
    ensures Progress(m, s, i + 1, written + [ToLetter(Substitute(Press(now), ToIndex(s[i])))], Press(now))
  {
    CapitalPrefixNext(s, i);
    CipherTurn(now, s, i, written);
    PressedTurn(now, s, i);
  }

  /** The cipher side of one loop turn. */
  lemma CipherTurn(now: Machine, s: string, i: nat, written: string)
    requires Shaped(now) && i < |s| && IsUpper(s[i])
    ensures written + Cipher(now, s[i..])
         == (written + [ToLetter(Substitute(Press(now), ToIndex(s[i])))]) + Cipher(Press(now), s[i + 1..])
  {
    SplitAt(s, i);
    CipherCons(now, s[i], s[i + 1..]);
  }

  /** The machine side of one loop turn. */
  lemma PressedTurn(now: Machine, s: string, i: nat)
    requires i < |s| && IsUpper(s[i])
    ensures Pressed(now, s[i..]) == Pressed(Press(now), s[i + 1..])
  {
    PressedStep(now, s[i..]);
    assert (s[i..])[1..] == s[i + 1..];
  }

  /** The machine once `encrypt_message` has gone through the capitals
      `s` starts with: one keypress per capital. */
  function Pressed(m: Machine, s: string): (r: Machine)
    ensures r.plugboard == m.plugboard && r.reflector == m.reflector
    ensures |r.rotors| == |m.rotors|
    ensures Shaped(m) ==> Shaped(r)
    decreases |s|
  {
    if s == [] || !IsUpper(s[0]) then m else Pressed(Press(m), s[1..])
  }

  /** Going through the capitals of a message presses the key once per
      capital it starts with. */
  lemma {:induction false} PressedPresses(m: Machine, s: string)
    ensures Pressed(m, s) == Presses(m, CapitalPrefix(s))
    decreases |s|
  {
    if s != [] && IsUpper(s[0]) {
      var n := CapitalPrefix(s[1..]);
      calc {
        Pressed(m, s);
      == { PressedStep(m, s); }
        Pressed(Press(m), s[1..]);
      == { PressedPresses(Press(m), s[1..]); }
        Presses(Press(m), n);
      == { PressesFirst(m, n); }
        Presses(m, n + 1);
      == { PressedStep(m, s); }
        Presses(m, CapitalPrefix(s));
      }
    }
  }

  /** One capital read: one keypress, and one fewer capital ahead. */
  lemma PressedStep(m: Machine, s: string)
    requires s != [] && IsUpper(s[0])
    ensures Pressed(m, s) == Pressed(Press(m), s[1..])
    ensures CapitalPrefix(s) == CapitalPrefix(s[1..]) + 1
  {
  }

  /** `n + 1` presses are one press followed by `n` more. */
  lemma {:induction false} PressesFirst(m: Machine, n: nat)
    ensures Presses(m, n + 1) == Presses(Press(m), n)
  {
    if n > 0 {
      var k := Prev(n);
      calc {
        Presses(m, n + 1);
        Press(Presses(m, k + 1));
      == { PressesFirst(m, k); }
        Press(Presses(Press(m), k));
        Presses(Press(m), n);
      }
    }
  }

  lemma SplitAt(s: string, i: nat)
    requires i < |s|
    ensures s[i..] == [s[i]] + s[i + 1..]
  {
  }

  /** The encrypting loop stops at the end of the message or at its first
      character that is not a capital; the letters written by then are the
      outcome that `EncryptLetters` describes. */
  lemma CipherDone(m: Machine, now: Machine, s: string, i: nat, written: string)
    requires Progress(m, s, i, written, now) && (i == |s| || !IsUpper(s[i]))
    ensures EncryptLetters(m, s) == Outcome(written, if i == |s| then NoError else InvalidInputCharacter)
    ensures Presses(m, CapitalPrefix(s)) == now
  {
    CapitalPrefixStop(s, i);
    assert Cipher(now, s[i..]) == [];
    PressedPresses(m, s);
  }

  /** A capital right after a stretch of capitals extends the stretch. */
  lemma CapitalPrefixNext(s: string, k: nat)
    requires k <= CapitalPrefix(s) && k < |s| && IsUpper(s[k])
    ensures k + 1 <= CapitalPrefix(s)
  {
  }

  /** The capital prefix ends at the first character that is not a
      capital. */
  lemma CapitalPrefixStop(s: string, k: nat)
    requires k <= CapitalPrefix(s) && (k == |s| || !IsUpper(s[k]))
    ensures CapitalPrefix(s) == k
  {
  }

  /** A message that opens with a capital is enciphered as that capital
      after one keypress, followed by the rest from the pressed machine. */
  lemma CipherCons(m: Machine, x: char, rest: string)
    requires Shaped(m) && IsUpper(x)
    ensures Cipher(m, [x] + rest) == [ToLetter(Substitute(Press(m), ToIndex(x)))] + Cipher(Press(m), rest)
  {
    assert ([x] + rest)[1..] == rest;
  }

  /** Enciphering the ciphertext of a message of capitals from the same
      starting state gives back the message. */
  lemma {:induction false} CipherRoundTrip(m: Machine, s: string)
    requires MachineValid(m) && forall i :: 0 <= i < |s| ==> IsUpper(s[i])
    ensures Cipher(m, Cipher(m, s)) == s
    decreases |s|
  {
    if s != [] {
      PressValid(m);
      var p := Press(m);
      var d := Substitute(p, ToIndex(s[0]));
      var rest := Cipher(p, s[1..]);
      assert s == [s[0]] + s[1..];
      CipherCons(m, s[0], s[1..]);
      assert Cipher(m, s) == [ToLetter(d)] + rest;
      CipherCons(m, ToLetter(d), rest);
      SubstituteInvolution(p, ToIndex(s[0]));
      LetterOfIndex(s[0]);
      assert ToLetter(Substitute(p, ToIndex(ToLetter(d)))) == s[0];
      CipherRoundTrip(p, s[1..]);
    }
  }

  lemma LetterOfIndex(ch: char)
    requires IsUpper(ch)
    ensures ToLetter(ToIndex(ch)) == ch
  {
  }

  /** Encrypting a message of capitals and whitespace, then encrypting the
      ciphertext from the same start, gives back the message without its
      whitespace. */
  lemma MessageRoundTrip(m: Machine, message: string)
    requires MachineValid(m) && EncryptMessage(m, message).code == NoError
    ensures EncryptMessage(m, EncryptMessage(m, message).output) == Outcome(Stripped(message), NoError)
  {
    var s := Stripped(message);
    var c := Cipher(m, s);
    StrippedUnchanged(c);
    CipherRoundTrip(m, s);
  }

  // ---------------------------------------------------------------------
  // Configuration

  /** The rotor files in order; the first one in error stops the
      construction with its code. */
  function RotorsSetup(files: seq<seq<int>>): (r: Result<seq<RotorState>>)
    ensures r.Ok? ==> |r.value| == |files|
    ensures r.Err? ==> r.code != NoError
    decreases |files|
  {
    if |files| == 0 then Ok([])
    else
      match RotorsSetup(files[..|files| - 1])
      case Err(c) => Err(c)
      case Ok(rs) =>
        match RotorSetup(files[|files| - 1])
        case Err(c) => Err(c)
        case Ok(s) => Ok(rs + [s])
  }

  /** Every rotor is built exactly when every file is a valid rotor, and
      rotor `i` is then the one its own file describes. */
  lemma {:induction false} RotorsSetupIff(files: seq<seq<int>>)
    ensures RotorsSetup(files).Ok? <==> forall i :: 0 <= i < |files| ==> RotorSetup(files[i]).Ok?
    ensures RotorsSetup(files).Ok? ==>
              forall i :: 0 <= i < |files| ==> RotorsSetup(files).value[i] == RotorSetup(files[i]).value
    decreases |files|
  {
    if files != [] {
      var init := files[..|files| - 1];
      RotorsSetupIff(init);
      assert forall i :: 0 <= i < |init| ==> init[i] == files[i];
    }
  }

  /** The code reported is the one of the leftmost file in error. */
  lemma {:induction false} RotorsSetupFirstError(files: seq<seq<int>>, k: nat)
    requires k < |files| && RotorSetup(files[k]).Err?
    requires forall i :: 0 <= i < k ==> RotorSetup(files[i]).Ok?
    ensures RotorsSetup(files) == Err(RotorSetup(files[k]).code)
    decreases |files|
  {
    var init := files[..|files| - 1];
    if k < |files| - 1 {
      RotorsSetupFirstError(init, k);
    } else {
      RotorsSetupIff(init);
    }
  }

  /** One more file: its rotor is appended, or its error is the one the
      whole list reports. */
  lemma RotorsSetupNext(files: seq<seq<int>>, k: nat)
    requires k < |files| && RotorsSetup(files[..k]).Ok?
    ensures RotorSetup(files[k]).Ok? ==>
              RotorsSetup(files[..k + 1]) == Ok(RotorsSetup(files[..k]).value + [RotorSetup(files[k]).value])
    ensures RotorSetup(files[k]).Err? ==> RotorsSetup(files) == Err(RotorSetup(files[k]).code)
  {
    assert files[..k + 1][..k] == files[..k];
    if RotorSetup(files[k]).Err? {
      RotorsSetupIff(files[..k]);
      assert forall i :: 0 <= i < k ==> files[..k][i] == files[i];
      RotorsSetupFirstError(files, k);
    }
  }

  /** The starting positions applied leftmost first: rotor `j` is started
      with position `j`, its carries reaching the rotors already started. */
  function Primed(rs: seq<RotorState>, positions: seq<int>, n: nat): (r: seq<RotorState>)
    requires n <= |rs| && n <= |positions|
    ensures |r| == |rs|
  {
    if n == 0 then rs else var k := Prev(n); Prime(Primed(rs, positions, k), k, Times(positions[k]))
  }

  lemma {:induction false} PrimedWellFormed(rs: seq<RotorState>, positions: seq<int>, n: nat)
    requires n <= |rs| && n <= |positions| && AllWellFormed(rs)
    ensures AllWellFormed(Primed(rs, positions, n))
  {
    if n > 0 {
      var k := Prev(n);
      var p := Primed(rs, positions, k);
      PrimedWellFormed(rs, positions, k);
      PrimeWellFormed(p, k, Times(positions[k]));
    }
  }

  /** Starting the first `n` rotors leaves the rotors right of them as
      they were built. */
  lemma {:induction false} PrimedKeepsRight(rs: seq<RotorState>, positions: seq<int>, n: nat)
    requires n <= |rs| && n <= |positions|
    ensures forall j :: n <= j < |rs| ==> Primed(rs, positions, n)[j] == rs[j]
  {
    if n > 0 {
      var k := Prev(n);
      var p := Primed(rs, positions, k);
      PrimedKeepsRight(rs, positions, k);
      PrimeKeepsRight(p, k, Times(positions[k]));
    }
  }

  /** Only the first `n` positions are read. */
  lemma {:induction false} PrimedReadsPrefix(rs: seq<RotorState>, positions: seq<int>, extra: seq<int>, n: nat)
    requires n <= |rs| && n <= |positions|
    ensures Primed(rs, positions + extra, n) == Primed(rs, positions, n)
  {
    if n > 0 {
      var k := Prev(n);
      PrimedReadsPrefix(rs, positions, extra, k);
      assert (positions + extra)[k] == positions[k];
    }
  }

  /** `Enigma::setup` on parsed configuration: plugboard, then reflector,
      then the number of starting positions, then the rotors in order, and
      finally the starting positions applied leftmost first. */
  function MachineSetup(pb: seq<int>, rf: seq<int>, files: seq<seq<int>>, positions: seq<int>): (r: Result<Machine>)
    ensures r.Err? ==> r.code != NoError
  {
    match PlugboardSetup(pb)
    case Err(c) => Err(c)
    case Ok(p) =>
      match ReflectorSetup(rf)
      case Err(c) => Err(c)
      case Ok(f) =>
        if |positions| < |files| then Err(NoRotorStartingPosition)
        else
          match RotorsSetup(files)
          case Err(c) => Err(c)
          case Ok(rs) => Ok(Machine(p, f, Primed(rs, positions, |rs|)))
  }

  /** A configured machine is valid, with one rotor per rotor file. */
  lemma MachineSetupValid(pb: seq<int>, rf: seq<int>, files: seq<seq<int>>, positions: seq<int>)
    requires MachineSetup(pb, rf, files, positions).Ok?
    ensures MachineValid(MachineSetup(pb, rf, files, positions).value)
    ensures |MachineSetup(pb, rf, files, positions).value.rotors| == |files|
  {
    PlugboardSetupInvolution(pb);
    ReflectorSetupInvolution(rf);
    var rs := RotorsSetup(files).value;
    RotorsSetupIff(files);
    forall j | 0 <= j < |rs|
      ensures WellFormed(rs[j])
    {
      RotorSetupWiring(files[j]);
    }
    PrimedWellFormed(rs, positions, |rs|);
  }

  /** Setup succeeds exactly when both boards and every rotor file are
      valid and there are at least as many starting positions as rotors;
      the positions' values are never checked. */
  lemma MachineSetupIff(pb: seq<int>, rf: seq<int>, files: seq<seq<int>>, positions: seq<int>)
    ensures MachineSetup(pb, rf, files, positions).Ok? <==>
              && PlugboardSetup(pb).Ok? && ReflectorSetup(rf).Ok?
              && |positions| >= |files|
              && forall i :: 0 <= i < |files| ==> RotorSetup(files[i]).Ok?
  {
    RotorsSetupIff(files);
  }

  /** Starting positions beyond the number of rotors are ignored. */
  lemma ExtraPositionsIgnored(pb: seq<int>, rf: seq<int>, files: seq<seq<int>>, positions: seq<int>, extra: seq<int>)
    requires |positions| >= |files|
    ensures MachineSetup(pb, rf, files, positions + extra) == MachineSetup(pb, rf, files, positions)
  {
    if RotorsSetup(files).Ok? {
      PrimedReadsPrefix(RotorsSetup(files).value, positions, extra, |files|);
    }
  }

  /** Starting a rotor can move a rotor already started: the left rotor,
      given position 0, ends at counter 1 because the right rotor, started
      one step, lands on a notch. */
  lemma PrimingMovesStartedRotor()
    ensures var zero := seq(AlphaSize, i => 0);
            var left := RotorState(zero, zero, seq(AlphaSize, i => -1), 0);
            var right := RotorState(zero, zero, seq(AlphaSize, i => i), 0);
            Primed([left, right], [0, 1], 2)[0].rotations == 1
  {
    var zero := seq(AlphaSize, i => 0);
    var left := RotorState(zero, zero, seq(AlphaSize, i => -1), 0);
    var right := RotorState(zero, zero, seq(AlphaSize, i => i), 0);
    var rs := [left, right];
    assert Primed(rs, [0, 1], 1) == Prime(rs, 0, 0) == rs;
    assert Primed(rs, [0, 1], 2) == Prime(rs, 1, 1) == Cascade(rs, 1);
    assert Rotated(right).rotations == 1 == right.notches[1];
    assert NotchHit(Rotated(right));
    var after := rs[1 := Rotated(right)];
    assert Cascade(rs, 1) == Cascade(after, 0);
    assert Cascade(after, 0)[0] == Rotated(left);
  }

  // ---------------------------------------------------------------------
  // The program

  /** The whole run on parsed input: set the machine up and, when that
      succeeds, encrypt the line read. */
  function Run(pb: seq<int>, rf: seq<int>, files: seq<seq<int>>, positions: seq<int>, line: string): Outcome {
    match MachineSetup(pb, rf, files, positions)
    case Err(c) => Outcome([], c)
    case Ok(m) =>
      MachineSetupValid(pb, rf, files, positions);
      EncryptMessage(m, line)
  }

  /** A run that fails to set the machine up writes nothing and reports
      the setup error; otherwise it is the encryption of the line by the
      configured machine. */
  lemma RunCases(pb: seq<int>, rf: seq<int>, files: seq<seq<int>>, positions: seq<int>, line: string)
    ensures MachineSetup(pb, rf, files, positions).Err? ==>
              Run(pb, rf, files, positions, line) == Outcome([], MachineSetup(pb, rf, files, positions).code)
    ensures MachineSetup(pb, rf, files, positions).Ok? ==>
              && Shaped(MachineSetup(pb, rf, files, positions).value)
              && Run(pb, rf, files, positions, line) == EncryptMessage(MachineSetup(pb, rf, files, positions).value, line)
  {
    if MachineSetup(pb, rf, files, positions).Ok? {
      MachineSetupValid(pb, rf, files, positions);
    }
  }

  /** Feeding the output of a successful run back in, with the same
      configuration, gives back the line without its whitespace. */
  lemma RunRoundTrip(pb: seq<int>, rf: seq<int>, files: seq<seq<int>>, positions: seq<int>, line: string)
    requires Run(pb, rf, files, positions, line).code == NoError
    ensures Run(pb, rf, files, positions, Run(pb, rf, files, positions, line).output) == Outcome(Stripped(line), NoError)
  {
    MachineSetupValid(pb, rf, files, positions);
    MessageRoundTrip(MachineSetup(pb, rf, files, positions).value, line);
  }
}
