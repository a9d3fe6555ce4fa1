# Enigma machine — a verified Dafny model

This project models the core of a C++ simulator of the Enigma rotor cipher
machine. The simulator reads a plugboard file, a reflector file, any number
of rotor files and a file of starting positions. It then enciphers one line
of standard input letter by letter. Before each letter the rightmost rotor
rotates, and the rotation carries leftwards like an odometer whenever a
rotor reaches one of its notches. The letter then passes through the
plugboard, the rotors from right to left, the reflector, the rotors from
left to right and the plugboard again.

The model has two layers.

- Value definitions describe the machine as data. `Machines.Machine` holds
  the two board mappings and one `RotorMaps.RotorState` per rotor, left to
  right. Functions over these values give the configuration outcome
  (`MachineSetup`), one keypress (`Press`), the substitution (`Substitute`)
  and the message (`EncryptLetters`, `EncryptMessage`). Lemmas state what
  the machine promises about them: each board is an involution, the rotor
  tables are inverse, the carry is exact, and the cipher is
  self-reciprocal.
- Classes mirror the C++ objects: `Plugboard`, `Reflector`, `Rotor`,
  `RotorList` and `Enigma`. Their arrays are updated in place, and the
  rotors are linked through `left`/`right` pointers. Every method is
  proved against the value layer. A ghost snapshot `m` is tied to the
  objects by `Enigma.Valid(m)`, and each method's `ensures` states the new
  state as a value function of the old one.

Letters are the indices 0..25 inside the machine. The characters 'A'..'Z'
appear only at the message boundary. The board arrays hold indices where
the source holds characters. Configuration files are given as their
already-read integer tokens, and the line read from standard input is given
as a parameter. Every error code the core can return is a constructor of
`Errors.Code`.

Modules, one per source unit:

| module | models |
|---|---|
| `Alphabet`, `Errors` | the constants of enigma.h, C's `%` reduction, the error codes |
| `Boards` | the pair loop and `repetition` scan shared by plugboard.cpp and reflector.cpp |
| `Plugboards`, `Reflectors` | plugboard.cpp, reflector.cpp |
| `RotorMaps` | rotor.cpp as values: offset tables, rotation, carry, token checks |
| `Rotors` | the `Rotor` class of rotor.cpp, enigma.h |
| `RotorLists` | rotorlist.cpp |
| `Machines` | enigma.cpp as values: setup, keypress, substitution, message |
| `Engine` | the `Enigma` class of enigma.cpp |

Where the design of the program and its code disagree, the model follows
the code, with the one exception given last:

- The reflector is meant to have no fixed point, but its checks do not
  enforce this. `Reflectors.FixedPointsAccepted` exhibits an accepted
  reflector with fixed points. `Machines.SelfEncryptionNeedsFixedPoint`
  shows that a letter can encipher to itself only through such a point.
- Starting positions are meant to lie in 0..25, and surplus positions are
  meant to be an error. The code never checks the values and ignores
  surplus positions (`Machines.MachineSetupIff`,
  `Machines.ExtraPositionsIgnored`). A position that is not positive
  starts the rotor zero times, and a large one starts it that many times
  (`Rotors.Rotor.Start`).
- Reflector pairs are meant to be 13 disjoint pairs. The code accepts a
  pair repeated, provided exactly 26 tokens are given.
- A rotor file is meant to hold 26 wiring tokens and 0 to 26 notches. The
  code tests that bound only after an extra `count--`, so it refuses a
  rotor without notches (`RotorMaps.NotchFreeRotorRefused`). Here the model
  uses the intended bound. The code as written is
  `RotorMaps.RotorSetupAsWritten`, listed under Findings.

## Model

| member | source | states |
|---|---|---|
| Alphabet.Reduce | rotor.cpp:134-137 | C's `(26 + x % 26) % 26`, with C's truncating `%`, lands in 0..25 and equals the mathematical residue of `x` modulo 26, negative `x` included |
| Alphabet.ReduceIsResidue | rotor.cpp:135-136 | the truncating-remainder formula agrees with Dafny's Euclidean `% 26` for every integer |
| Alphabet.ToIndex | rotor.cpp:134 | `letter - 'A'` of a capital is an index in 0..25 |
| Alphabet.ToLetter | rotor.cpp:137 | `index + 'A'` is a capital, and `ToIndex` of it gives the index back |
| Boards.Identity | plugboard.cpp:11-19 | the starting mapping sends every letter to itself and is an involution |
| Boards.Connect | plugboard.cpp:79-82 | storing a pair in both directions keeps a 26-entry mapping into the alphabet |
| Boards.Pairing | plugboard.cpp:38-99 | the pair loop yields a mapping into the alphabet on success; its only errors are INVALID_INDEX and the board's mapping error |
| Boards.InitializeMapping | plugboard.cpp:11-19 | the array becomes the identity mapping |
| Boards.Repetition | plugboard.cpp:125-150 | the scan answers true exactly when some position other than `index` holds `letter` (all three branches) |
| Boards.PairUp | plugboard.cpp:40-98 | the in-place pair loop reports the code of `Pairing` and, on success, leaves exactly its mapping in the array |
| Boards.ConnectKeepsInvolution | plugboard.cpp:79-95 | a distinct pair that passes both `repetition` checks keeps the mapping an involution |
| Boards.AcceptedIff | plugboard.cpp:84-95 | over an involution, a pair passes both checks exactly when both letters are unpaired or the pair is already on the board |
| Boards.RepeatedPairChangesNothing | plugboard.cpp:79-95 | re-entering a pair already on the board, either way round, is accepted and changes nothing |
| Boards.PairingKeepsInvolution | plugboard.cpp:38-99 | every mapping the pair loop accepts, starting from an involution, is an involution |
| Boards.OutOfRangeRejected | plugboard.cpp:49-53 | a token outside 0..25 after accepted pairs gives INVALID_INDEX, wherever it sits in a pair |
| Boards.SelfPairRejected | plugboard.cpp:72-77 | a pair (a, a) after accepted pairs gives the board's mapping error |
| Boards.ConflictingPairRejected | plugboard.cpp:84-95 | a pair sharing a letter with a different earlier pair gives the board's mapping error |
| Boards.RepeatedPairAccepted | plugboard.cpp:41-98 | any number of copies of a pair already on the board leave the mapping unchanged and are accepted |
| Plugboards.PlugboardSetup | plugboard.cpp:21-123 | `setup` as a value: the pair loop, then the parity check; `PlugboardSetupInvolution` and `OddCountReportedLast` characterise it |
| Plugboards.PlugboardSetupInvolution | plugboard.cpp:21-123 | a plugboard set up with NO_ERROR is an involution |
| Plugboards.EmptyPlugboard | plugboard.cpp:102-122 | an empty configuration gives the identity plugboard and NO_ERROR |
| Plugboards.OddCountReportedLast | plugboard.cpp:102-118 | INCORRECT_NUMBER_OF_PLUGBOARD_PARAMETERS is reported exactly when the pair loop passed and the token count is odd |
| Plugboards.OddOutOfRangeTail | plugboard.cpp:49-58 | a dangling last token out of range is INVALID_INDEX, not a parity error |
| Plugboards.ManyPairsAccepted | plugboard.cpp:41-98 | there is no bound on the number of pairs: n copies of one pair give the board with that pair |
| Plugboards.Plugboard.constructor | plugboard.cpp:6-9 | `errorcode` is the setup outcome; on NO_ERROR the array is the configured involution |
| Plugboards.Plugboard.Setup | plugboard.cpp:21-123 | returns the code of the pair loop then the parity check, and leaves the configured mapping in the array |
| Plugboards.Plugboard.Encrypt | plugboard.cpp:152-157 | a lookup giving a letter, which a second lookup sends back on a valid board |
| Reflectors.ReflectorSetup | reflector.cpp:21-129 | `setup` as a value: the pair loop, then the 26-token check; `ReflectorSetupInvolution` and `WrongCountReportedLast` characterise it |
| Reflectors.ReflectorSetupInvolution | reflector.cpp:21-129 | a reflector set up with NO_ERROR is an involution built from exactly 26 tokens |
| Reflectors.WrongCountReportedLast | reflector.cpp:108-124 | INCORRECT_NUMBER_OF_REFLECTOR_PARAMETERS is reported exactly when the pair loop passed and the count is not 26 |
| Reflectors.FixedPointsAccepted | reflector.cpp:41-124 | thirteen copies of the pair (0, 1) are accepted and leave letters 2..25 fixed |
| Reflectors.Reflector.constructor | reflector.cpp:6-9 | `errorcode` is the setup outcome; on NO_ERROR the array is the configured involution |
| Reflectors.Reflector.Setup | reflector.cpp:21-129 | returns the code of the pair loop then the 26-token check, and leaves the configured mapping in the array |
| Reflectors.Reflector.Encrypt | reflector.cpp:158-163 | a lookup giving a letter, which a second lookup sends back on a valid reflector |
| RotorMaps.Through | rotor.cpp:132-147 | reading a bounded offset table at a letter gives a letter |
| RotorMaps.ThroughIsResidue | rotor.cpp:136 | the single wrap equals `(c + offset[c]) mod 26` |
| RotorMaps.ShiftLeftSlots | rotor.cpp:96-103 | after `rotate_array`, slot i holds old slot i + 1 and the last slot holds the old first |
| RotorMaps.ThroughShifted | rotor.cpp:96-103 | the shifted table read at c is the old table read at the next letter, stepped back one letter |
| RotorMaps.Rotated | rotor.cpp:87-90 | one step of a rotor on its own: both tables shifted left together and the counter incremented modulo 26; `RotatedWellFormed` and `RotatedKeepsInverse` state what it keeps |
| RotorMaps.NotchHit | rotor.cpp:117-123 | `is_notch` on a snapshot: the counter equals one of the 26 notch slots, as `Rotors.Rotor.IsNotch` returns |
| RotorMaps.Cascade | rotor.cpp:85-94 | the recursive `rotate` on rotor k of a chain; `CascadeTurns` states exactly which rotors step |
| RotorMaps.Prime | rotor.cpp:125-130 | `start` on rotor k of a chain: `rotate` repeated n times, carries included; `PrimeWellFormed` and `PrimeKeepsRight` state what it keeps |
| RotorMaps.RotatedKeepsInverse | rotor.cpp:87-88 | shifting both tables together keeps the backward table the inverse of the forward table |
| RotorMaps.RotatedWellFormed | rotor.cpp:85-90 | one rotation keeps a rotor well formed (inverse tables, counter in 0..25) |
| RotorMaps.CascadeTurns | rotor.cpp:85-94 | `rotate` on rotor k steps exactly rotor k and each rotor j left of it whose right-hand rotors up to k all hit a notch, each once; every other rotor, in particular every rotor right of k, is unchanged |
| RotorMaps.CascadeWellFormed | rotor.cpp:85-94 | every rotor stays well formed through a carry |
| RotorMaps.PrimeWellFormed | rotor.cpp:125-130 | every rotor stays well formed through `start` |
| RotorMaps.PrimeKeepsRight | rotor.cpp:125-130 | starting rotor k never changes a rotor to its right |
| RotorMaps.RotatedCounterInRange | rotor.cpp:89-90 | the counter is in 0..25 after a rotation |
| RotorMaps.NoNotchesNoCarry | rotor.cpp:117-123 | a rotor whose notch slots are all unused (-1) never carries |
| RotorMaps.FwOffsets | rotor.cpp:71-73 | the forward offsets of a permutation are `p[i] - i` and lie strictly between -26 and 26 |
| RotorMaps.BwOffsets | rotor.cpp:71-75 | the backward table satisfies `bw[p[i]] == i - p[i]` for every i, with bounded offsets |
| RotorMaps.NotchSlots | rotor.cpp:77-80 | there are always 26 notch slots |
| RotorMaps.RotorTokenCheck | rotor.cpp:32-59 | the per-token checks in the source's order: INVALID_INDEX for a token out of range, INVALID_ROTOR_MAPPING for a repeat among the first 26; `RotorTokenCheckIff` states when they pass |
| RotorMaps.RotorSetup | rotor.cpp:12-83 | the rotor built from its tokens, with the intended bound of 26 to 52 tokens; `RotorSetupIff` and `RotorSetupWiring` state what it builds |
| RotorMaps.RotorTokenCheckIff | rotor.cpp:32-59 | the per-token checks pass exactly when every token is in 0..25 and none of the first 26 repeats an earlier one |
| RotorMaps.RotorTokenCheckPermutation | rotor.cpp:46-55 | tokens that pass the checks begin with a permutation of the alphabet |
| RotorMaps.RotorSetupIff | rotor.cpp:12-83 | a rotor is built exactly from a permutation followed by at most 26 notch tokens in range |
| RotorMaps.OffsetsWiring | rotor.cpp:70-75 | the tables built from `p` send i to `p[i]` forwards and back again, and are inverse to each other |
| RotorMaps.RotorSetupWiring | rotor.cpp:12-83 | a built rotor is well formed and wires i to its i-th token and back |
| RotorMaps.RepeatedNotchAccepted | rotor.cpp:46-55 | notch tokens are not checked for repeats: a notch given twice is accepted |
| RotorMaps.RotorSetupAsWritten | rotor.cpp:57-64 | rotor setup as written: the token count is decremented before the bound 26..52 is tested |
| RotorMaps.RotorSetupAsWrittenAgrees | rotor.cpp:57-64 | for 27 to 52 tokens the code as written and the intended bound give the same outcome |
| RotorMaps.NotchFreeRotorRefused | rotor.cpp:57-64 | the 26 tokens 0..25 are a valid rotor by the intended bound, and the code as written refuses them with INVALID_ROTOR_MAPPING |
| RotorMaps.FiftyThirdTokenAccepted | rotor.cpp:57-64 | a permutation followed by 27 notch tokens is refused by the intended bound and accepted by the code as written |
| Rotors.Rotor.constructor | rotor.cpp:7-10 | `errorcode` is the setup outcome; on NO_ERROR the arrays hold the configured rotor, which is valid |
| Rotors.Rotor.InitializeArrays | rotor.cpp:105-115 | every stored token slot becomes -1, slot i of both offset tables holds i (a placeholder, not the identity wiring) and every notch slot -1 |
| Rotors.Rotor.Setup | rotor.cpp:12-83 | returns the rotor setup code and, on NO_ERROR, leaves the configured tables and notches in the arrays |
| Rotors.Rotor.ReadTokens | rotor.cpp:27-66 | the validation loop returns the rotor setup code and stores every token read |
| Rotors.Rotor.FillOffsets | rotor.cpp:70-75 | the filling loop leaves the forward and backward offset tables of the wiring |
| Rotors.Rotor.FillNotches | rotor.cpp:77-80 | tokens 27 onwards fill the notch slots in order; unfilled slots keep -1 |
| Rotors.Rotor.RotateArray | rotor.cpp:96-103 | the array becomes its cyclic left shift by one |
| Rotors.Rotor.IsNotch | rotor.cpp:117-123 | true exactly when the counter equals a notch slot |
| Rotors.Rotor.FwEncrypt | rotor.cpp:132-139 | the forward map at the rotor's current state, undone by the backward map |
| Rotors.Rotor.BwEncrypt | rotor.cpp:141-147 | the backward map at the rotor's current state, undone by the forward map |
| Rotors.Rotor.Step | rotor.cpp:87-90 | the arrays shift and the counter steps: the rotor's snapshot becomes `Rotated` of the old one |
| Rotors.Rotor.Advance | rotor.cpp:87-91 | only this rotor steps, the chain stays linked and separate, and the notch test is made on the new counter |
| Rotors.Rotor.Rotate | rotor.cpp:85-94 | the recursive `rotate` leaves the chain in the states `Cascade(states, k)` |
| Rotors.Rotor.Start | rotor.cpp:125-130 | the loop re-tests `starting_position`, which `rotate` never writes, so it rotates rotor k exactly `starting_position` times, or not at all when that is not positive, leaving the chain in `Prime(states, k, Times(starting_position))` |
| Rotors.Rotor.StartFrom | enigma.cpp:95-96 | stores the starting position, then starts the rotor |
| RotorLists.RotorList.constructor | rotorlist.cpp:3-7 | an empty list |
| RotorLists.RotorList.FindLeftmost | rotorlist.cpp:26-34 | the walk left from `first` ends at the leftmost rotor |
| RotorLists.RotorList.FindRightmost | rotorlist.cpp:36-44 | the walk right from `first` ends at the rightmost rotor |
| RotorLists.RotorList.Append | rotorlist.cpp:9-24 | the rotor becomes the right end of the chain, `first` stays the leftmost, `last` is the previous right end |
| RotorLists.RotorList.Extend | rotorlist.cpp:9-24 | appending a rotor that shares no array with the chain or the boards keeps the list assembled, its states extended by the rotor's |
| RotorLists.RotorList.AppendNew | enigma.cpp:81-85 | a new rotor from a file is appended exactly when it reports NO_ERROR, extending the states by `RotorSetup` of the file |
| Machines.ForwardPass | enigma.cpp:153-159 | the right-to-left walk through every rotor's forward map gives a letter; `PassesInverse` shows the backward pass undoes it |
| Machines.BackwardPass | enigma.cpp:163-169 | the left-to-right walk through every rotor's backward map gives a letter; `PassesInverse` shows the forward pass undoes it |
| Machines.Substitute | enigma.cpp:149-180 | the lookup path at a fixed rotor state, with and without rotors, gives a letter; `SubstituteInvolution` shows it is its own inverse |
| Machines.PassesInverse | enigma.cpp:153-169 | at every rotor state the left-to-right backward pass undoes the right-to-left forward pass, and the other way round |
| Machines.ForwardBackward | rotor.cpp:132-147 | for one well-formed rotor the backward map undoes the forward map, and the other way round |
| Machines.SubstituteInvolution | enigma.cpp:149-180 | at a fixed rotor state the substitution is its own inverse, with or without rotors |
| Machines.SelfEncryptionNeedsFixedPoint | enigma.cpp:161 | a letter encrypts to itself only through a reflector fixed point; a reflector without fixed points never encrypts a letter to itself |
| Machines.KeypressSteps | enigma.cpp:183-190 | the rightmost rotor steps on every key; a rotor further left steps exactly when every rotor to its right has just hit a notch |
| Machines.Keypress | enigma.cpp:183-190 | `rotate` on the rightmost rotor, nothing without rotors; it keeps the number of rotors, and `KeypressSteps` states which rotors step |
| Machines.Press | enigma.cpp:147 | a keypress changes only the rotors, keeps their number and keeps a machine shaped |
| Machines.KeypressBounded | rotor.cpp:96-103 | rotation keeps every offset strictly between -26 and 26 |
| Machines.PressValid | enigma.cpp:147 | a keypress keeps a configured machine valid |
| Machines.Presses | enigma.cpp:131-147 | n keypresses, one per letter enciphered, change only the rotors, keep their number and keep a machine shaped |
| Machines.PressesValid | enigma.cpp:131-147 | any number of keypresses keeps a configured machine valid |
| Machines.Stripped | enigma.cpp:117-129 | the stripped line has no blank characters and is no longer than the line |
| Machines.Erased | enigma.cpp:118-119 | one `erase(remove(...))` gives a string without `ch`, no longer than the input; `ErasedAppend` and `ErasedBlanksStrip` state what the six calls do |
| Machines.StrippedKeeps | enigma.cpp:117-129 | stripping keeps exactly the characters that are not blanks |
| Machines.StrippedUnchanged | enigma.cpp:117-129 | a line without blanks is left as it is |
| Machines.StrippedIdempotent | enigma.cpp:117-129 | stripping twice is stripping once |
| Machines.ErasedBlanksStrip | enigma.cpp:117-129 | the six `erase(remove(...))` calls, one blank after another, strip the line |
| Machines.CapitalPrefix | enigma.cpp:131-137 | the length of the run of capitals at the start: all before it are capitals and the next character is not |
| Machines.Cipher | enigma.cpp:131-140 | one capital written per capital of the leading run, each a capital |
| Machines.EncryptLetters | enigma.cpp:131-142 | the loop reports NO_ERROR exactly when every character is a capital, INVALID_INPUT_CHARACTER otherwise |
| Machines.Pressed | enigma.cpp:131-147 | the machine once the loop has gone through the leading capitals keeps its boards, its number of rotors and its shape |
| Machines.PressedPresses | enigma.cpp:131-147 | the loop presses the key once per leading capital: `Pressed(m, s)` is `Presses(m, CapitalPrefix(s))` |
| Machines.ProgressStart | enigma.cpp:131 | before the loop nothing is written and the machine is the starting one: the loop's invariant `Progress` holds |
| Machines.CipherNext | enigma.cpp:133-139 | one loop turn, writing capital i enciphered after one keypress and moving to the pressed machine, keeps `Progress`: written letters plus the rest's cipher are the whole cipher, and the pressed machine still leads to the machine the whole message leaves |
| Machines.CipherDone | enigma.cpp:131-142 | when the loop stops, at the end or at a non-capital, what was written and the code are the message's outcome, and the machine reached is `Presses(m, CapitalPrefix(s))` |
| Machines.CipherRoundTrip | enigma.cpp:131-142 | enciphering the ciphertext of a message of capitals from the same starting state gives the message back |
| Machines.EncryptMessage | enigma.cpp:111-143 | `encrypt_message` on a line: strip the blanks, then the letter loop; `MessageRoundTrip` states its round trip |
| Machines.MessageRoundTrip | enigma.cpp:111-143 | encrypting the output of a successful encryption from the same state gives back the line without its blanks, with NO_ERROR |
| Machines.Primed | enigma.cpp:88-105 | the first n rotors started leftmost first, each with its position; `PrimedWellFormed`, `PrimedKeepsRight` and `PrimedReadsPrefix` state what it keeps and reads |
| Machines.RotorsSetup | enigma.cpp:79-87 | on success one rotor per file; an error is never NO_ERROR |
| Machines.RotorsSetupIff | enigma.cpp:79-87 | all rotors are built exactly when every file is a valid rotor, rotor i being the one file i describes |
| Machines.RotorsSetupFirstError | enigma.cpp:83-84 | the code reported is that of the leftmost file in error |
| Machines.RotorsSetupNext | enigma.cpp:81-86 | one more file appends its rotor or makes its error the outcome |
| Machines.PrimedWellFormed | enigma.cpp:88-105 | starting the rotors leftmost first keeps every rotor well formed |
| Machines.PrimedKeepsRight | enigma.cpp:93-103 | starting the first n rotors leaves the rotors right of them as built |
| Machines.PrimedReadsPrefix | enigma.cpp:93-103 | only the first n starting positions are read |
| Machines.MachineSetup | enigma.cpp:19-109 | setup in the source's order; its error is never NO_ERROR |
| Machines.MachineSetupValid | enigma.cpp:19-109 | a configured machine has involutive boards, well-formed rotors and one rotor per rotor file |
| Machines.MachineSetupIff | enigma.cpp:19-109 | setup succeeds exactly when both boards and every rotor file are valid and there are at least as many positions as rotors |
| Machines.ExtraPositionsIgnored | enigma.cpp:61-69 | positions beyond the number of rotors change nothing |
| Machines.PrimingMovesStartedRotor | enigma.cpp:93-103 | starting a rotor can move one already started: the left rotor, given position 0, ends at counter 1 |
| Machines.Run | enigma.cpp:8-17 | the constructor's sequence: setup, then, on NO_ERROR, the encryption of the line; `RunCases` and `RunRoundTrip` characterise it |
| Machines.RunCases | enigma.cpp:8-17 | a failed setup writes nothing and reports its code; otherwise the run is the encryption of the line by the configured machine |
| Machines.RunRoundTrip | enigma.cpp:8-17 | running the output of a successful run back through the same configuration gives the line without its blanks |
| Engine.Enigma.constructor | enigma.cpp:8-17 | `errorcode` and what is written are those of `Run` on the configuration and the line |
| Engine.Enigma.Setup | enigma.cpp:19-109 | returns the code of `MachineSetup`; on NO_ERROR the objects are valid for its machine |
| Engine.Enigma.SetBoards | enigma.cpp:24-32 | the plugboard, then the reflector; the first error is returned, else both arrays hold the configured mappings |
| Engine.Enigma.SetRotors | enigma.cpp:75-106 | the rotors are built and appended and then started; the chain holds `Primed` of the built rotors |
| Engine.Enigma.BuildRotors | enigma.cpp:76-87 | a new list receives one rotor per file; the code is that of `RotorsSetup` |
| Engine.Enigma.AddRotors | enigma.cpp:79-87 | the rotor loop stops at the first error with its code, else every rotor is appended and counted |
| Engine.Enigma.CountRotor | enigma.cpp:86 | `existing_rotors` goes up by one |
| Engine.Enigma.PrimeRotors | enigma.cpp:88-105 | the rotors are started leftmost first, each with its position: the chain ends in `Primed` |
| Engine.Enigma.PrimeRest | enigma.cpp:97-103 | the walk right from the leftmost rotor starts every further rotor |
| Engine.Enigma.Keypress | enigma.cpp:183-190 | after `keypress` the objects hold `Press` of the machine |
| Engine.Enigma.Turn | enigma.cpp:187-188 | rotating the rightmost rotor is one keypress |
| Engine.Enigma.Encrypt | enigma.cpp:145-181 | the key is pressed, and the letter returned is `Substitute` at the pressed state |
| Engine.Enigma.Scramble | enigma.cpp:149-180 | the lookup path gives `Substitute` of the letter and moves nothing |
| Engine.Enigma.PassLeft | enigma.cpp:153-159 | the walk from the rightmost rotor gives the forward pass |
| Engine.Enigma.PassRight | enigma.cpp:163-169 | the walk from the leftmost rotor gives the backward pass |
| Engine.Enigma.ForwardWalk | enigma.cpp:155-159 | the loop over `left` pointers applies every rotor's forward map, right to left |
| Engine.Enigma.BackwardWalk | enigma.cpp:165-169 | the loop over `right` pointers applies every rotor's backward map, left to right |
| Engine.Enigma.EncryptMessage | enigma.cpp:111-143 | the outcome is `EncryptMessage` of the starting machine on the line, and the objects are left valid for `Presses(m, CapitalPrefix(Stripped(line)))`: one keypress per capital enciphered |
| Engine.Enigma.EncipherLetters | enigma.cpp:131-142 | the loop writes exactly the `EncryptLetters` outcome of the starting machine and leaves the objects valid for `Presses(m, CapitalPrefix(message))` |
| Engine.Enigma.EncipherCapital | enigma.cpp:133-139 | one loop turn: the objects move to the pressed state and `Progress` is kept |
| Engine.Enigma.Strip | enigma.cpp:117-129 | the six erasures give the stripped line |
| Engine.Enigma.Erase | enigma.cpp:118-119 | every `ch` is removed and the other characters keep their order |

## Left out

- Command-line handling is not modelled: `argc`, INSUFFICIENT_NUMBER_OF_PARAMETERS and the choice of file names. Configuration arrives as parsed tokens.
- File opening and reading are not modelled: ERROR_OPENING_CONFIGURATION_FILE and NON_NUMERIC_CHARACTER only arise there. Every configuration file is taken to end in whitespace, so the `eof` test after a dangling plugboard or reflector token fires only at the true end.
- RotorMaps.RotorSetup: the source decrements the token count (`count--`, rotor.cpp:60) before it tests the bound 26..52. With every token followed by whitespace it therefore accepts 27 to 53 tokens. The model accepts 26 wiring tokens plus at most 26 notches, the stated intent; the code as written is `RotorMaps.RotorSetupAsWritten` (see Findings).
- Rotors.Rotor.InitializeArrays: the source's first loop runs while `i <= 2*ALPHA_SIZE` (rotor.cpp:107-108), so it also writes `input_values[52]`, one past the 52-slot array (rotor.cpp:14). The model initialises only the 52 slots.
- Rotors.Rotor.ReadTokens: the source stores every token into a 52-slot array with no bound. The model stores only tokens that fit. More than 52 tokens are rejected either way.
- Rotors.Rotor.RotateArray: the source's loop also reads the slot past the end of the array. That value is overwritten at once, and the read is not modelled.
- Rotors.Rotor.constructor: the source never initialises `rotations`, `left`, `right` or `starting_position`. The model starts them at 0, null, null and 0.
- Engine.Enigma: `rot_ptr` is left uninitialised when there are no rotors. It is null here.
- Diagnostics are not modelled: `cerr_pb`, `cerr_rf`, `cerr_rot`, `cerr_rot_map`, `cerr_startpos` and `cerr_enigma`, and the offending character written to standard error. `printed` records standard output only.
- Getters are not modelled: `get_pb_error`, `get_rf_error`, `get_rot_error` and `get_enigma_error` only read a field, which the model reads directly.
- The destructor `~Enigma` is not modelled: it frees memory, which Dafny manages.
- `std::getline` is not modelled: the line read is a parameter.
- Engine.Enigma.Erase: `std::remove` compacts the string in place. The model builds the result as a new value.
- `char` arithmetic is not modelled: board arrays hold indices 0..25, not characters, and `char` overflow cannot arise for the letters used.
- The recursions over counts step down through `Alphabet.Prev` instead of `n - 1`. This keeps verification fast and does not change their meaning.

## Findings

| source | as written | input that shows it | evidently intended | confidence | as-written member | corrected member |
|---|---|---|---|---|---|---|
| rotor.cpp:57-64 | `count--` runs before the test against 26 and 52, so a file of n whitespace-terminated tokens is tested as n - 1 | the 26 tokens 0..25 with no notch are refused with INVALID_ROTOR_MAPPING; the same with 27 notch tokens is accepted, the 53rd token stored past the 52-slot `input_values` | 26 wiring tokens followed by 0 to 26 notches | medium: it assumes the file ends in whitespace; not executed | RotorMaps.RotorSetupAsWritten, RotorMaps.NotchFreeRotorRefused, RotorMaps.FiftyThirdTokenAccepted | RotorMaps.RotorSetup, RotorMaps.RotorSetupIff |
