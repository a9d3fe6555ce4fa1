/** The machine object (enigma.cpp, enigma.h): it owns the plugboard, the
    reflector and the list of rotors, sets them up from the configuration,
    and enciphers the line read letter by letter. Each operation is tied by
    `Valid(m)` to a snapshot `m`, the value the `Machines` definitions
    describe. */
module Engine {
  import opened Alphabet
  import opened Errors
  import opened Boards
  import opened Plugboards
  import opened Reflectors
  import opened RotorMaps
  import opened Rotors
  import opened RotorLists
  import opened Machines

  class Enigma {
    var errorcode: Code
    /** How many rotor files were given. */
    var nRotors: int
    /** How many rotors were built and appended. */
    var existingRotors: int
    var plugboard: Plugboard?
    var reflector: Reflector?
    /** `rot_ptr`: left uninitialised by the source when there are no
        rotors, null here. */
    var rotorList: RotorList?
    /** The rotors, left to right. */
    ghost var chain: seq<Rotor>
    /** What was written to standard output. */
    ghost var printed: string

    /** What a keypress never changes: both boards built, the rotor count,
        and the list holding the rotors, leftmost first; no rotor shares an
        array with a board. */
    ghost predicate Parts()
      reads this`plugboard, this`reflector, this`rotorList, this`chain, this`nRotors
      reads rotorList
    {
      && plugboard != null && reflector != null
      && plugboard.mapping !in Tables(chain) && reflector.mapping !in Tables(chain)
      && nRotors == |chain|
      && (rotorList == null <==> |chain| == 0)
      && (rotorList != null ==> rotorList.chain == chain && rotorList.first == chain[0])
    }

    /** A configured machine whose state is the snapshot `m`: the rotors
        are linked and ready to turn, and `m` lists both boards' mappings
        and every rotor's state, left to right. */
    ghost predicate Valid(m: Machine)
      reads this`plugboard, this`reflector, this`rotorList, this`chain, this`nRotors, rotorList
      reads if plugboard != null then {plugboard.mapping} else {}
      reads if reflector != null then {reflector.mapping} else {}
      reads RotorSet(chain)`rotations, RotorSet(chain)`model, RotorSet(chain)`left, RotorSet(chain)`right
      reads Tables(chain), Notches(chain)
    {
      && Parts()
      && ChainValid(chain) && InStates(chain, m.rotors)
      && m.plugboard == plugboard.mapping[..] && m.reflector == reflector.mapping[..]
      && MachineValid(m)
    }

    /** `Enigma(argc, argv)`: sets the machine up and, when that succeeds,
        encrypts the line read; `errorcode` keeps the first error. */
    constructor (pbTokens: seq<int>, rfTokens: seq<int>, files: seq<seq<int>>, positions: seq<int>, line: string)
      ensures errorcode == Run(pbTokens, rfTokens, files, positions, line).code
      ensures printed == Run(pbTokens, rfTokens, files, positions, line).output
    {
      nRotors := 0;
      existingRotors := 0;
      plugboard := null;
      reflector := null;
      rotorList := null;
      chain := [];
      printed := [];
      new;
      var code;
      ghost var m;
      code, m := Setup(pbTokens, rfTokens, files, positions);
      if code == NoError {
        var out := EncryptMessage(line, m);
        code := out.code;
        printed := out.output;
      }
      errorcode := code;
      RunCases(pbTokens, rfTokens, files, positions, line);
    }

    /** `setup`: plugboard, reflector, the count of starting positions, the
        rotors in order, then the starting positions leftmost first; the
        first error stops it. */
    method Setup(pbTokens: seq<int>, rfTokens: seq<int>, files: seq<seq<int>>, positions: seq<int>)
      returns (code: Code, ghost m: Machine)
      requires rotorList == null && existingRotors == 0 && |chain| == 0
      modifies this`plugboard, this`reflector, this`nRotors, this`rotorList, this`chain, this`existingRotors
      ensures code == CodeOf(MachineSetup(pbTokens, rfTokens, files, positions))
      ensures code == NoError ==> m == MachineSetup(pbTokens, rfTokens, files, positions).value && Valid(m)
      ensures code == NoError ==> forall q :: q in chain ==> fresh(q) && fresh(q.fwMap) && fresh(q.bwMap)
    {
      m := Machine([], [], []);
      code := SetBoards(pbTokens, rfTokens);
      if code != NoError {
        return;
      }
      nRotors := |files|;
      if |positions| < nRotors {
        return NoRotorStartingPosition, m;
      }
      code, m := SetRotors(files, positions, Machine(plugboard.mapping[..], reflector.mapping[..], []));
      if code == NoError {
        MachineSetupValid(pbTokens, rfTokens, files, positions);
      }
    }

    /** The boards part of `setup`: the plugboard, then the reflector, each
        built from its configuration; an error in either stops it. */
    method SetBoards(pbTokens: seq<int>, rfTokens: seq<int>) returns (code: Code)
      modifies this`plugboard, this`reflector
      ensures PlugboardSetup(pbTokens).Err? ==> code == PlugboardSetup(pbTokens).code
      ensures PlugboardSetup(pbTokens).Ok? && ReflectorSetup(rfTokens).Err? ==> code == ReflectorSetup(rfTokens).code
      ensures PlugboardSetup(pbTokens).Ok? && ReflectorSetup(rfTokens).Ok? ==>
        && code == NoError && plugboard != null && reflector != null
        && fresh(plugboard.mapping) && fresh(reflector.mapping)
        && plugboard.mapping[..] == PlugboardSetup(pbTokens).value
        && reflector.mapping[..] == ReflectorSetup(rfTokens).value
    {
      plugboard := new Plugboard(pbTokens);
      if plugboard.errorcode != NoError {
        return plugboard.errorcode;
      }
      reflector := new Reflector(rfTokens);
      if reflector.errorcode != NoError {
        return reflector.errorcode;
      }
      code := NoError;
    }

    /** The rotors part of `setup`: the list is made only when there are
        rotor files; each rotor is built and appended, then all are primed. */
    method SetRotors(files: seq<seq<int>>, positions: seq<int>, ghost boards: Machine) returns (code: Code, ghost m: Machine)
      requires plugboard != null && reflector != null && rotorList == null && existingRotors == 0 && |chain| == 0
      requires nRotors == |files| <= |positions| && |boards.rotors| == 0
      modifies this`rotorList, this`chain, this`existingRotors
      ensures code == CodeOf(RotorsSetup(files))
      ensures code == NoError ==> m == boards.(rotors := Primed(RotorsSetup(files).value, positions, |files|))
      ensures code == NoError ==> Parts() && ChainValid(chain) && InStates(chain, m.rotors)
      ensures code == NoError ==> forall q :: q in chain ==> fresh(q) && fresh(q.fwMap) && fresh(q.bwMap)
    {
      m := boards;
      if nRotors == 0 {
        assert files == [];
        return NoError, m;
      }
      code := BuildRotors(files);
      if code != NoError {
        return;
      }
      ghost var built := RotorsSetup(files).value;
      PrimeRotors(positions, chain, built);
      m := boards.(rotors := Primed(built, positions, |built|));
    }

    /** The list is made and every rotor file built into a rotor and
        appended. */
    method BuildRotors(files: seq<seq<int>>) returns (code: Code)
      requires plugboard != null && reflector != null && rotorList == null && existingRotors == 0 && |chain| == 0
      requires nRotors == |files| > 0
      modifies this`rotorList, this`chain, this`existingRotors
      ensures code == CodeOf(RotorsSetup(files))
      ensures code == NoError ==> && rotorList != null && chain == rotorList.chain && Parts()
                                  && Building(chain, RotorsSetup(files).value)
                                  && forall q :: q in chain ==> fresh(q) && fresh(q.fwMap) && fresh(q.bwMap)
    {
      rotorList := new RotorList();
      code := AddRotors(files);
      if code != NoError {
        return;
      }
      AdoptChain(RotorsSetup(files).value);
    }

    /** The rotors built become the machine's: a ghost update only. */
    method AdoptChain(ghost states: seq<RotorState>)
      requires rotorList != null && Building(rotorList.chain, states) && nRotors == |rotorList.chain| > 0
      modifies this`chain
      ensures chain == rotorList.chain && Parts() && Building(chain, states)
    {
      chain := rotorList.chain;
    }

    /** While the rotors are being built: the list holds `ch`, whose rotors
        are linked and in the states `states`, none sharing an array with a
        board. */
    ghost predicate Building(ch: seq<Rotor>, states: seq<RotorState>)
      reads this`plugboard, this`reflector, this`rotorList, rotorList
      reads RotorSet(ch)`rotations, RotorSet(ch)`model, RotorSet(ch)`left, RotorSet(ch)`right
      reads Tables(ch), Notches(ch)
    {
      && plugboard != null && reflector != null && rotorList != null
      && Assembled(rotorList, ch, states, {plugboard.mapping, reflector.mapping})
    }

    /** The rotor loop of `setup`: each file builds a rotor, which is
        appended to the list and counted unless it reports an error. */
    method AddRotors(files: seq<seq<int>>) returns (code: Code)
      requires rotorList != null && Building(rotorList.chain, []) && |rotorList.chain| == 0 && existingRotors == 0
      modifies this`existingRotors, rotorList
      ensures code == CodeOf(RotorsSetup(files))
      ensures code == NoError ==> Building(rotorList.chain, RotorsSetup(files).value) && existingRotors == |files|
      ensures code == NoError ==> forall q :: q in rotorList.chain ==> fresh(q) && fresh(q.fwMap) && fresh(q.bwMap)
    {
      var count := 0;
      ghost var states := [];
      while count < |files|
        invariant 0 <= count <= |files|
        invariant RotorsSetup(files[..count]) == Ok(states)
        invariant Building(rotorList.chain, states) && |rotorList.chain| == count == existingRotors
        invariant forall q :: q in rotorList.chain ==> fresh(q) && fresh(q.fwMap) && fresh(q.bwMap)
      {
        RotorsSetupNext(files, count);
        code := rotorList.AppendNew(files[count], states, {plugboard.mapping, reflector.mapping});
        if code != NoError {
          return;
        }
        states := states + [RotorSetup(files[count]).value];
        CountRotor(rotorList.chain, states);
        count := count + 1;
      }
      assert files[..count] == files;
      code := NoError;
    }

    /** `existing_rotors++` after a rotor is appended. */
    method CountRotor(ghost ch: seq<Rotor>, ghost states: seq<RotorState>)
      requires Building(ch, states)
      modifies this`existingRotors
      ensures existingRotors == old(existingRotors) + 1 && Building(ch, states)
    {
      existingRotors := existingRotors + 1;
    }

    /** The priming part of `setup`: from the leftmost rotor rightwards,
        each rotor is given its starting position and started. */
    method PrimeRotors(positions: seq<int>, ghost ch: seq<Rotor>, ghost rs: seq<RotorState>)
      requires rotorList != null && rotorList.chain == ch && rotorList.Valid() && rotorList.FirstIsLeftmost()
      requires |ch| > 0 && |positions| >= |ch|
      requires ChainValid(ch) && InStates(ch, rs)
      modifies RotorSet(ch)`startingPosition, RotorSet(ch)`rotations, RotorSet(ch)`model, Tables(ch)
      ensures ChainValid(ch) && InStates(ch, Primed(rs, positions, |ch|))
    {
      var current := rotorList.FindLeftmost();
      current.StartFrom(ch, 0, rs, positions[0]);
      PrimeRest(current, positions, ch, rs);
    }

    /** The loop of the priming part: after the leftmost rotor, each rotor
        to the right is given its starting position and started. */
    method PrimeRest(first: Rotor, positions: seq<int>, ghost ch: seq<Rotor>, ghost rs: seq<RotorState>)
      requires |ch| == |rs| > 0 && |positions| >= |ch| && first == ch[0]
      requires ChainValid(ch) && InStates(ch, Primed(rs, positions, 1))
      modifies RotorSet(ch)`startingPosition, RotorSet(ch)`rotations, RotorSet(ch)`model, Tables(ch)
      ensures ChainValid(ch) && InStates(ch, Primed(rs, positions, |ch|))
    {
      var current := first;
      ghost var states := Primed(rs, positions, 1);
      var k := 0;
      while current.right != null
        invariant 0 <= k < |ch| && current == ch[k]
        invariant ChainValid(ch) && InStates(ch, states)
        invariant states == Primed(rs, positions, k + 1)
        decreases |ch| - k
      {
        current := current.right;
        k := k + 1;
        current.StartFrom(ch, k, states, positions[k]);
        states := Prime(states, k, Times(positions[k]));
      }
      assert k == |ch| - 1;
    }

    /** `keypress`: the rightmost rotor rotates, carrying left. */
    method Keypress(ghost m: Machine)
      requires Valid(m)
      modifies RotorSet(chain)`rotations, RotorSet(chain)`model, Tables(chain)
      ensures Valid(Press(m))
    {
      if nRotors > 0 {
        var current := rotorList.FindRightmost();
        Turn(current, m);
      } else {
        PressValid(m);
      }
    }

    /** `current->rotate()` on the rightmost rotor, inside `keypress`. */
    method Turn(current: Rotor, ghost m: Machine)
      requires Valid(m) && nRotors > 0 && current == chain[|chain| - 1]
      modifies RotorSet(chain)`rotations, RotorSet(chain)`model, Tables(chain)
      ensures Valid(Press(m))
    {
      PressValid(m);
      current.Rotate(chain, |chain| - 1, m.rotors);
    }

    /** `encrypt`: a keypress, then the letter's path through the machine. */
    method Encrypt(letter: int, ghost m: Machine) returns (r: int)
      requires Valid(m) && InAlphabet(letter)
      modifies RotorSet(chain)`rotations, RotorSet(chain)`model, Tables(chain)
      ensures Valid(Press(m)) && Shaped(Press(m))
      ensures r == Substitute(Press(m), letter)
    {
      Keypress(m);
      r := Scramble(letter, Press(m));
    }

    /** The rest of `encrypt`: the plugboard, the rotors from right to left,
        the reflector, the rotors from left to right and the plugboard
        again; nothing moves. */
    method Scramble(letter: int, ghost m: Machine) returns (r: int)
      requires Valid(m) && InAlphabet(letter)
      ensures Valid(m) && Shaped(m) && r == Substitute(m, letter)
    {
      assert plugboard.Valid() && reflector.Valid();
      r := plugboard.Encrypt(letter);
      if nRotors > 0 {
        r := PassLeft(r, m);
        r := reflector.Encrypt(r);
        r := PassRight(r, m);
        r := plugboard.Encrypt(r);
        return;
      }
      r := reflector.Encrypt(r);
      r := plugboard.Encrypt(r);
    }

    /** The first half of the rotor path in `encrypt`: `find_rightmost`, then
        the walk leftwards. */
    method PassLeft(c: int, ghost m: Machine) returns (r: int)
      requires Valid(m) && nRotors > 0 && InAlphabet(c)
      ensures Valid(m) && AllBounded(m.rotors) && r == ForwardPass(m.rotors, c)
    {
      var current := rotorList.FindRightmost();
      r := ForwardWalk(current, c, chain, m.rotors);
    }

    /** The second half: `find_leftmost`, then the walk rightwards. */
    method PassRight(c: int, ghost m: Machine) returns (r: int)
      requires Valid(m) && nRotors > 0 && InAlphabet(c)
      ensures Valid(m) && AllBounded(m.rotors) && r == BackwardPass(m.rotors, c)
    {
      var current := rotorList.FindLeftmost();
      r := BackwardWalk(current, c, chain, m.rotors);
    }

    /** The first loop of `encrypt`: from the rightmost rotor leftwards,
        each rotor's forward map. */
    static method ForwardWalk(rightmost: Rotor, c: int, ghost ch: seq<Rotor>, ghost rs: seq<RotorState>)
      returns (r: int)
      requires ChainValid(ch) && InStates(ch, rs) && AllWellFormed(rs)
      requires |ch| > 0 && rightmost == ch[|ch| - 1] && InAlphabet(c)
      ensures AllBounded(rs) && r == ForwardPass(rs, c)
    {
      r := c;
      var current: Rotor? := rightmost;
      ghost var i := |ch| - 1;
      while current != null
        invariant -1 <= i < |ch|
        invariant current == if 0 <= i then ch[i] else null
        invariant InAlphabet(r) && ForwardFrom(rs, i + 1, r) == ForwardPass(rs, c)
        decreases i + 1
      {
        r := current.FwEncrypt(r);
        current := current.left;
        i := i - 1;
      }
    }

    /** The second loop of `encrypt`: from the leftmost rotor rightwards,
        each rotor's backward map. */
    static method BackwardWalk(leftmost: Rotor, c: int, ghost ch: seq<Rotor>, ghost rs: seq<RotorState>)
      returns (r: int)
      requires ChainValid(ch) && InStates(ch, rs) && AllWellFormed(rs)
      requires |ch| > 0 && leftmost == ch[0] && InAlphabet(c)
      ensures AllBounded(rs) && r == BackwardPass(rs, c)
    {
      r := c;
      var current: Rotor? := leftmost;
      ghost var i := 0;
      while current != null
        invariant 0 <= i <= |ch|
        invariant current == if i < |ch| then ch[i] else null
        invariant InAlphabet(r) && r == BackwardTo(rs, i, c)
        decreases |ch| - i
      {
        r := current.BwEncrypt(r);
        current := current.right;
        i := i + 1;
      }
    }

    /** `encrypt_message` on the line read: the blanks are erased, then the
        capitals are enciphered. */
    method EncryptMessage(line: string, ghost m: Machine) returns (out: Outcome)
      requires Valid(m)
      modifies RotorSet(chain)`rotations, RotorSet(chain)`model, Tables(chain)
      ensures Shaped(m) && out == Machines.EncryptMessage(m, line)
      ensures Valid(Presses(m, CapitalPrefix(Stripped(line))))
    {
      var message := Strip(line);
      out := EncipherLetters(message, m);
    }

    /** The loop of `encrypt_message`: each capital is enciphered and
        written; the first other character stops it with
        INVALID_INPUT_CHARACTER. */
    method EncipherLetters(message: string, ghost m: Machine) returns (out: Outcome)
      requires Valid(m)
      modifies RotorSet(chain)`rotations, RotorSet(chain)`model, Tables(chain)
      ensures Shaped(m) && out == EncryptLetters(m, message)
      ensures Valid(Presses(m, CapitalPrefix(message)))
    {
      var written := "";
      var code := NoError;
      var i := 0;
      ghost var now := m;
      ProgressStart(m, message);
      while i < |message|
        invariant Valid(now) && Progress(m, message, i, written, now)
      {
        if !IsUpper(message[i]) {
          code := InvalidInputCharacter;
          break;
        }
        written := EncipherCapital(message, i, written, m, now);
        now := Press(now);
        i := i + 1;
      }
      CipherDone(m, now, message, i, written);
      out := Outcome(written, code);
    }

    /** One turn of the loop of `encrypt_message`: the key is pressed and
        capital `i` is enciphered at the new rotor positions and written
        out; the rest of the message is left to the pressed machine. */
    method EncipherCapital(message: string, i: nat, written: string, ghost m: Machine, ghost now: Machine)
      returns (longer: string)
      requires i < |message| && IsUpper(message[i])
      requires Valid(now) && Progress(m, message, i, written, now)
      modifies RotorSet(chain)`rotations, RotorSet(chain)`model, Tables(chain)
      ensures Valid(Press(now)) && Progress(m, message, i + 1, longer, Press(now))
    {
      CipherNext(m, now, message, i, written);
      var r := Encrypt(ToIndex(message[i]), now);
      longer := written + [ToLetter(r)];
    }

    /** The six `erase(remove(...))` calls of `encrypt_message`. */
    static method Strip(line: string) returns (message: string)
      ensures message == Stripped(line)
    {
      message := Erase(line, ' ');
      message := Erase(message, '\n');
      message := Erase(message, '\r');
      message := Erase(message, '\t');
      message := Erase(message, '\U{0B}');
      message := Erase(message, '\U{0C}');
      ErasedBlanksStrip(line);
    }

    /** `erase(remove(begin, end, ch), end)`: the characters other than `ch`
        are kept, in order. */
    static method Erase(s: string, ch: char) returns (r: string)
      ensures r == Erased(s, ch)
    {
      r := [];
      for i := 0 to |s|
        invariant r == Erased(s[..i], ch)
      {
        assert s[..i + 1][..i] == s[..i];
        if s[i] != ch {
          r := r + [s[i]];
        }
      }
      assert s[..|s|] == s;
    }
  }
}
