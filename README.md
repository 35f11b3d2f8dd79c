# Enigma machine core in Dafny

This project models the core of a Java simulator of the Enigma cipher machine
and proves properties of it. The model covers five classes:

- `Alphabet`: an ordered set of distinct characters.
- `Permutation`: a permutation of an alphabet written in cycle notation.
- `Rotor` and `MovingRotor`: a permutation with a setting, a ring setting and
  notches.
- `Machine`: rotor slots, pawls, a plugboard, the stepping rule and the
  signal path.

Layout, one module per file:

- `Errors.dfy`: the error kinds that stand for the source's exceptions, with
  `Result`, `Option` and `Outcome`.
- `Alphabet.dfy` (module `Alphabets`): an alphabet is a `string`. The
  constructor is a method with the source's counting loop.
- `Permutation.dfy` (module `Permutations`):
  - Java's truncating `%` and the `wrap` helper built on it.
  - The cycle-string parser (`cyclesArr`, including the semantics of Java's
    `String.split`).
  - The value type `Permutation`. Its methods `Permute`, `Invert`, `Scan`
    and `Derangement` carry the source's loops and are proved equal to
    specification functions.
- `Rotor.dfy` (module `Rotors`):
  - A value `RotorState` holds a rotor's permutation, kind, setting and ring
    setting.
  - The class `Rotor` holds the fields the source updates in place (setting
    and ring).
  - `Fixed(reflects)` covers the base class and reflectors. `Moving(notches)`
    covers `MovingRotor`.
- `Machine.dfy` (module `Machines`):
  - Pure functions for one step of the stepping rule (`Step`), one pass of
    the signal (`Signal`), one keystroke (`Stroke`) and a whole message
    (`Run`), with lemmas about them.
  - The class `Machine` holds the slot array `slots: array<Rotor?>` and the
    plugboard. Its methods are proved against those functions through
    `View()`, the sequence of states of the rotors in the slots.
- `Examples.dfy` (module `PermutationExamples`): the cycle strings used in
  the source's unit tests, parsed.

Behaviour that follows the code rather than its comments:

- The cycle syntax check looks only at adjacent pairs of characters. A string
  such as `"(A"` is accepted, where one might expect a syntax error, and its
  pieces come from `split`.
  `NewPermutation` models exactly that check.
- `insertRotors` claims in its comment that the rotors start at setting 0.
  The code does not reset them. `InsertRotors` only changes `slots`, so every
  rotor keeps its state.
- A plugboard built from the empty cycle string has one cycle `""`, whose
  length is not 2, so `setPlugboard` rejects it (`EmptyPlugboardRejected`).
- When a rotor-setting character is missing from the alphabet, the code has
  already set the rotors to its left. `Configured` keeps that prefix.
- `convert(int)` uses Java's `%`. A negative input that is not a multiple of
  the alphabet size stays negative, so the plugboard then reports an index
  out of range, while a machine without a plugboard wraps it in the first
  rotor. A negative multiple of the size becomes 0 and converts like index 0.

## Model

| member | source | states |
|---|---|---|
| Alphabets.NewAlphabet | enigma/Alphabet.java:15-32 | succeeds exactly when no character repeats; otherwise fails with a duplicate-character error; on success the alphabet is the given characters in order |
| Alphabets.DistinctIffSingleOccurrences | enigma/Alphabet.java:18-31 | the constructor's counting test (every character counted at most once) is equivalent to pairwise distinct positions |
| Alphabets.Upper | enigma/Alphabet.java:35-37 | the default alphabet has 26 characters, the i-th being 'A' + i |
| Alphabets.Size | enigma/Alphabet.java:40-42 | the size is the number of indices that name a character: toChar succeeds exactly on 0..size-1 |
| Alphabets.Contains | enigma/Alphabet.java:45-52 | true exactly when the character occurs in the alphabet |
| Alphabets.ToChar | enigma/Alphabet.java:56-61 | succeeds exactly for 0 <= index < size, else an index-out-of-range error; the result is in the alphabet and its index is the argument |
| Alphabets.ToInt | enigma/Alphabet.java:65-72 | succeeds exactly for characters of the alphabet, else a not-in-alphabet error; the alphabet holds the character at the returned index |
| Alphabets.IndexOf | enigma/Alphabet.java:66-70 | the scan returns the first position holding the character, and -1 exactly when it is absent |
| Alphabets.ToIntToChar | enigma/Alphabet.java:56-72 | toInt(toChar(i)) == i for every index in range |
| Alphabets.ToCharToInt | enigma/Alphabet.java:56-72 | toChar(toInt(c)) == c for every character of the alphabet |
| Permutations.JavaRem | enigma/Permutation.java:53 | Java's `%`: strictly between -n and n, with the sign of the dividend |
| Permutations.JavaRemIsRem | enigma/Permutation.java:53 | Java's `%` and `/` are the remainder and quotient of the absolute value, negated for a negative dividend |
| Permutations.JavaDivision | enigma/Permutation.java:53 | p == n * quotient + Java remainder |
| Permutations.Wrap | enigma/Permutation.java:52-58 | wrap(p) lies in 0..n-1 |
| Permutations.WrapIsMod | enigma/Permutation.java:52-58 | wrap(p) is the mathematical p mod n, negative p included |
| Permutations.WrapSmall | enigma/Permutation.java:52-58 | wrap leaves 0..n-1 unchanged |
| Permutations.WrapShift | enigma/Permutation.java:52-58 | wrapping an intermediate sum does not change the wrapped total |
| Permutations.RemoveSpaces | enigma/Permutation.java:66 | the cleaned string has no space, and every other character occurs as often as before |
| Permutations.Split | enigma/Permutation.java:67 | Java's `split`: a string without the delimiter gives itself as the only piece; otherwise no trailing piece is empty, and the pieces followed by the dropped empty ones join back to the input with the delimiter between them; no piece contains the delimiter |
| Permutations.CyclesArr | enigma/Permutation.java:65-74 | no parsed cycle contains a space or a closing parenthesis |
| Permutations.ParseNotation | enigma/Permutation.java:65-74 | parsing the cycle notation written from any cycles without parentheses or spaces gives those cycles back |
| Permutations.NotationWellDelimited | enigma/Permutation.java:19-26 | cycle notation written from such cycles passes the constructor's syntax check |
| Permutations.EmptyCycles | enigma/Permutation.java:65-74 | the empty cycle string parses to one empty cycle |
| Permutations.NewPermutation | enigma/Permutation.java:17-36 | succeeds exactly when the cycle string is well delimited and the alphabet has no reserved character; the two failures are told apart; the result keeps the parsed cycles |
| Permutations.Permutation.Size | enigma/Permutation.java:78-80 | the size of a permutation is the size of its alphabet |
| Permutations.Permutation.WrapIndex | enigma/Permutation.java:52-58 | the wrapped index lies in 0..size-1 |
| Permutations.Permutation.Map | enigma/Permutation.java:84-132 | an index outside 0..size-1 is an index-out-of-range error; a result is always inside 0..size-1 |
| Permutations.Permutation.Scan | enigma/Permutation.java:84-132 | the cycle-scanning loop computes the specification `Map` (the last cycle holding the character decides) |
| Permutations.Permutation.Permute | enigma/Permutation.java:84-106 | the method's result is the forward image `Apply` |
| Permutations.Permutation.Invert | enigma/Permutation.java:110-132 | the method's result is the backward image `ApplyInverse` |
| Permutations.Permutation.PermuteChar | enigma/Permutation.java:136-143 | a character outside the alphabet is a not-in-alphabet error; a result is in the alphabet |
| Permutations.Permutation.InvertChar | enigma/Permutation.java:146-153 | a character outside the alphabet is a not-in-alphabet error; a result is in the alphabet |
| Permutations.Permutation.Derangement | enigma/Permutation.java:162-171 | the counting loop's answer is `Deranged`: size is not 1 and the cycles hold size characters |
| Permutations.MapInRange | enigma/Permutation.java:84-132 | for an index in range the image is the neighbour of its character in the last cycle holding it, or the index itself when no cycle holds it |
| Permutations.ApplyInCycle | enigma/Permutation.java:89-131 | in a well-formed permutation each character maps to the next one in its cycle (the last to the first) and back to the previous one |
| Permutations.ApplyUncovered | enigma/Permutation.java:101-128 | a character in no cycle is mapped to itself both ways |
| Permutations.EmptyIsIdentity | enigma/Permutation.java:84-132 | the permutation with no cycles is the identity both ways |
| Permutations.MapRoundTrip | enigma/Permutation.java:84-132 | the backward map undoes the forward map and vice versa, on a well-formed permutation |
| Permutations.MapDomain | enigma/Permutation.java:84-132 | a well-formed permutation is defined, in both directions, on exactly the indices 0..size-1 |
| Permutations.InvertPermute | enigma/Permutation.java:84-132 | invert(permute(i)) == i |
| Permutations.PermuteInvert | enigma/Permutation.java:84-132 | permute(invert(i)) == i |
| Permutations.CharRoundTrip | enigma/Permutation.java:136-153 | the character forms go through the index forms and invert each other |
| Permutations.SwapsSymmetric | enigma/Permutation.java:84-132 | when every cycle has length 2, permute and invert agree |
| Permutations.SwapsSelfInverse | enigma/Permutation.java:84-132 | when every cycle has length 2, permute is its own inverse |
| Permutations.ImageInCycle | enigma/Permutation.java:89-100 | with disjoint cycles the one cycle holding a character decides its image |
| Permutations.ImageUncovered | enigma/Permutation.java:89-101 | a character in no cycle gets no image from the scan |
| Permutations.DerangedIffAllCovered | enigma/Permutation.java:162-171 | on a well-formed permutation, derangement holds exactly when size is not 1 and every character lies in a cycle |
| Rotors.RotorState.Rotates | enigma/Rotor.java:38-40 | false for the base class and true for a moving rotor (enigma/MovingRotor.java:22-24): a rotor rotates exactly when advancing it moves it |
| Rotors.RotorState.Reflecting | enigma/Rotor.java:43-45 | a reflecting rotor never rotates, and advancing it leaves it unchanged |
| Rotors.RotorState.AtNotch | enigma/MovingRotor.java:27-29 | only a moving rotor is ever at a notch, and only when the character at its setting is a notch; the base class never is (enigma/Rotor.java:88-90) |
| Rotors.NotchReached | enigma/MovingRotor.java:27-35 | every notch that is a character of the alphabet is reached within one revolution: after the advances that carry the setting to that character, the rotor is at a notch |
| Rotors.RotorState.Advanced | enigma/MovingRotor.java:32-35 | a moving rotor's setting becomes (setting + 1) mod size and nothing else changes; a fixed rotor does not move |
| Rotors.RotorState.ConvertForward | enigma/Rotor.java:70-75 | a successful result lies in 0..size-1 |
| Rotors.RotorState.ConvertBackward | enigma/Rotor.java:79-84 | a successful result lies in 0..size-1 |
| Rotors.BackwardAfterForward | enigma/Rotor.java:70-84 | convertBackward undoes convertForward at any setting and ring |
| Rotors.ForwardAfterBackward | enigma/Rotor.java:70-84 | convertForward undoes convertBackward at any setting and ring |
| Rotors.SwapsConvertSelfInverse | enigma/Rotor.java:70-84 | a rotor whose cycles are all swaps (a reflector) converts both ways alike and is its own inverse |
| Rotors.SwapsAgree | enigma/Rotor.java:70-84 | a rotor whose cycles are all swaps converts forward and backward alike |
| Rotors.AdvancedTimesSetting | enigma/MovingRotor.java:32-35 | k advances move a moving rotor's setting by k modulo size |
| Rotors.FullTurn | enigma/MovingRotor.java:32-35 | size advances bring any rotor back to its state |
| Rotors.FixedNeverMoves | enigma/Rotor.java:93-94 | advancing a fixed rotor any number of times leaves it unchanged |
| Rotors.Rotor.constructor | enigma/Rotor.java:11-15 | a new rotor has its name, permutation and kind, with setting 0 and ring 0 |
| Rotors.Rotor.Set | enigma/Rotor.java:64-66 | succeeds exactly for characters of the alphabet and then sets the setting to that character's index and changes nothing else; otherwise a not-in-alphabet error and no change |
| Rotors.Rotor.SetRing | enigma/Rotor.java:54-56 | the same for the ring setting |
| Rotors.Rotor.SetPosition | enigma/Rotor.java:59-61 | the setting becomes the given index, nothing else changes |
| Rotors.Rotor.Advance | enigma/MovingRotor.java:32-35 | the rotor's new state is its old state advanced once |
| Machines.Step | enigma/Machine.java:157-179 | a slot advances exactly once when, with at least one pawl, it is the rightmost slot, or a pawl slot whose right neighbour is at a notch, or a pawl slot at a notch whose left neighbour does not reflect, or the non-reflecting left neighbour of such a pawl slot; every other slot keeps its state |
| Machines.StepNoPawls | enigma/Machine.java:158-160 | with no pawls nothing moves |
| Machines.SteppingRule | enigma/Machine.java:161-175 | a slot is selected exactly when it is the rightmost slot, its right neighbour is at a notch, it is at a notch with a non-reflecting left neighbour, or its right neighbour is so placed |
| Machines.RightmostAdvances | enigma/Machine.java:162-165 | the rightmost rotor advances on every step when there is a pawl |
| Machines.Carry | enigma/Machine.java:166-168 | a pawled rotor whose right neighbour is at a notch advances |
| Machines.DoubleStep | enigma/Machine.java:169-173 | a pawled rotor at a notch advances together with its non-reflecting left neighbour (the double step) |
| Machines.FarLeftStill | enigma/Machine.java:161-175 | rotors left of the pawled slots and their left neighbour never move |
| Machines.StepKeepsRotors | enigma/Machine.java:176-178 | stepping changes only settings: permutation, kind and ring stay |
| Machines.BackwardUndoesForward | enigma/Machine.java:131-136 | on rotors sharing one alphabet the backward pass undoes the forward pass |
| Machines.ForwardUndoesBackward | enigma/Machine.java:131-136 | the forward pass undoes the backward pass |
| Machines.PlugTwice | enigma/Machine.java:127-140 | a plugboard of swaps, or no plugboard, applied twice is the identity |
| Machines.SignalOk | enigma/Machine.java:123-143 | with rotors and plugboard whose cycles are real permutations, whatever the reflector's cycles, the signal path is defined on every index and ends in range |
| Machines.SignalSelfInverse | enigma/Machine.java:123-143 | with a reflector of swaps and a plugboard of swaps, the signal path is defined on every index and is its own inverse |
| Machines.SignalInRange | enigma/Machine.java:123-143 | a converted index lies in 0..size-1 |
| Machines.BackwardPassInRange | enigma/Machine.java:134-136 | the backward pass ends inside the last rotor's alphabet |
| Machines.ForwardPassFails | enigma/Machine.java:131-133 | an error inside the forward pass is the error of the whole pass |
| Machines.StrokeOk | enigma/Machine.java:149-152 | a converted character means the input is in the alphabet, the machine stepped once, and the output is the alphabet's character at the signal's index |
| Machines.RunPointwise | enigma/Machine.java:147-154 | a converted message has the input's length, the machine has stepped once per character, and the k-th output is the signal of the k-th input after k + 1 steps |
| Machines.RunDecodes | enigma/Machine.java:147-154 | running the output again from the same starting state gives the message back and ends in the same state |
| Machines.RunFailsOnlyOutside | enigma/Machine.java:147-154 | for rotors and plugboard whose cycles are real permutations of the alphabet (the reflector's cycles of any length), converting a message succeeds exactly when all its characters are in the alphabet, and otherwise fails with a not-in-alphabet error |
| Machines.Named | enigma/Machine.java:53-56 | the name table holds exactly the catalogue's names, each bound to a catalogue rotor of that name |
| Machines.NamedLast | enigma/Machine.java:53-56 | the last catalogue rotor under a name is the one the table keeps |
| Machines.FirstNotIn | enigma/Machine.java:58-88 | the index of the first element outside a set, with every element before it inside: where filling the slots stops at an unknown name and where setting the rotors stops at a character outside the alphabet |
| Machines.AcceptedPlugboardSwaps | enigma/Machine.java:107-118 | an accepted plugboard consists of swaps and is its own inverse |
| Machines.FullPlugboardRejected | enigma/Machine.java:108-110 | a plugboard that moves every character of an alphabet larger than 1 is rejected |
| Machines.EmptyPlugboardRejected | enigma/Machine.java:111-116 | the plugboard with no cycles is rejected |
| Machines.ConfiguredReadsBack | enigma/Machine.java:79-104 | after setting, the reflector is untouched, each rotor up to the first bad character reads back its character, and the rest keep their state |
| Machines.Machine.constructor | enigma/Machine.java:17-29 | a new machine keeps its alphabet, slot count, pawls and catalogue, with no rotors and no plugboard |
| Machines.Machine.Create | enigma/Machine.java:17-29 | construction succeeds exactly when 1 < slots and 0 <= pawls < slots, else a configuration error; the new machine keeps the given alphabet, slot count, pawls and catalogue, with no rotors and no plugboard |
| Machines.Machine.InsertRotors | enigma/Machine.java:44-74 | a wrong number of names is a configuration error with the slots unchanged; otherwise the slots hold the named rotors up to the first unknown name (an unknown-rotor error), and the insertion passes exactly when slot 0 reflects and every pawled slot rotates |
| Machines.Machine.NameTable | enigma/Machine.java:53-56 | the loop builds the name table `Named` |
| Machines.Machine.FillSlots | enigma/Machine.java:58-64 | the loop fills the slots with the named rotors up to the first unknown name and leaves the rest empty |
| Machines.NamedRow | enigma/Machine.java:58-64 | a fresh row as long as the names, holding the table's rotor for each name before the first unknown one (where the loop stops) and empty from there on |
| Machines.Machine.CheckSlotKinds | enigma/Machine.java:66-73 | the check passes exactly when slot 0 reflects and every pawled slot rotates |
| Machines.Machine.SetRotors | enigma/Machine.java:79-89 | a wrong length is a configuration error with nothing changed; otherwise the rotors are set as `Configured` says, and the call passes exactly when every character is in the alphabet |
| Machines.Machine.SetRingRotors | enigma/Machine.java:94-104 | the same for the ring settings |
| Machines.Machine.Configure | enigma/Machine.java:79-104 | the loop shared by both setters reaches the state `Configured` |
| Machines.Machine.ConfigureSlot | enigma/Machine.java:87 | one slot's setting or ring becomes the index of its character |
| Machines.Machine.SetPlugboard | enigma/Machine.java:107-118 | passes exactly when the permutation is no derangement and all its cycles have length 2, and then installs it; otherwise a configuration error and no change |
| Machines.Machine.AdvRotors | enigma/Machine.java:157-179 | the rotors' new states are one `Step` of the old ones |
| Machines.Machine.SelectRotors | enigma/Machine.java:161-175 | the loop collects exactly the rotors the stepping rule selects |
| Machines.CollectSelected | enigma/Machine.java:161-175 | over a row of distinct rotors and their states, visiting the pawl slots left to right collects a rotor exactly when Selected names its slot, and nothing outside the row |
| Machines.Machine.AdvanceEach | enigma/Machine.java:176-178 | every collected rotor advances once and the others keep their state |
| Machines.Machine.Convert | enigma/Machine.java:123-143 | the machine steps once, then the result is the signal path through the new state |
| Machines.Machine.PlugStage | enigma/Machine.java:127-129 | the plugboard stage applies the plugboard when there is one |
| Machines.Machine.ForwardLoop | enigma/Machine.java:131-133 | the loop computes the forward pass from the rightmost rotor to the reflector |
| Machines.Machine.BackwardLoop | enigma/Machine.java:134-136 | the loop computes the backward pass back to the rightmost rotor |
| Machines.Machine.ConvertChar | enigma/Machine.java:149-151 | one keystroke produces the output and state of `Stroke` |
| Machines.Machine.ConvertMessage | enigma/Machine.java:147-154 | the output and the new state are those of `Run` on the old state |
| PermutationExamples.ParseOneCycle | enigma/PermutationTest.java:56 | the test string "(BACD)" parses to the single cycle "BACD" |
| PermutationExamples.ParseTwoCycles | enigma/PermutationTest.java:165 | the test string "(BAD) (CE)" parses to the cycles "BAD" and "CE" |

## Left out

- Exceptions become error kinds in `Result` and `Outcome`. Their messages, `EnigmaException` and the `error` helper are not modelled.
- Permutations.Permutation: keeps the parsed cycles in the field `cyclesArr`, where the source re-parses `_cycles` on each call to `cyclesArr()` (enigma/Permutation.java:65-74). `NewPermutation` sets the field to `CyclesArr(cycles)`, so the two agree for every permutation it builds, `SetPlugboard`'s check included. `WellFormed` does not restate that link, so a permutation value built directly may hold cycles other than those its string parses to.
- `toString`, `addCycle` and the plain accessors (`name`, `alphabet`, `permutation`, `numRotors`, `numPawls`) are not modelled. The accessors are fields of the model.
- Configuration files, the command-line driver and input/output are not modelled.
- The `FixedRotor` and `Reflector` subclasses are not part of this model. Both become the `Fixed(reflects)` kind.
- Rotors.Rotor.constructor: requires a non-empty alphabet. With an empty alphabet the source's `wrap` divides by zero.
- Rotors.Rotor.SetPosition: requires an index in range. The source stores any integer, and a later conversion then wraps it.
- Permutations.MapRoundTrip: round trips are proved only for well-formed permutations. In these the cycles consist of alphabet characters, no cycle repeats a character, no two cycles share one, and the alphabet has no NUL character, because the source uses NUL as its "no image" sentinel. The functions themselves reproduce the sentinel behaviour for every input.
- Machines.Machine.InsertRotors: requires distinct names. One rotor object in two slots would be aliased, and the source's `HashSet` in `advRotors` would advance it once.
- Machines.Machine.constructor: requires every catalogue rotor to be valid and to use the machine's alphabet. The source assumes this in its comment on `_alphabet` (enigma/Machine.java:181-182) without checking it.
- Machines.Machine.Create: has the same catalogue requirement as the constructor, for the same reason.
- Machines.Machine.SetRotors: requires every slot to be filled. In the source the slots are missing before any `insertRotors`, and an insertion that stops at an unknown name leaves the slots after it null; the rotor loops then throw `NullPointerException`. An insertion that fails on its count keeps the previous slots, and one that fails the reflector or pawl check leaves every slot filled; the model allows both. The same requirement holds for `SetRingRotors`, `AdvRotors`, `Convert`, `ConvertChar` and `ConvertMessage`.
- Machines.Machine.SetRotors: the path where a setting string of the wrong length is given before any rotors are inserted is not modelled; the source reports the length error there before touching the slots. The same holds for `SetRingRotors`.
- Machines.Machine.ConvertMessage: the path where the empty message is converted before any rotors are inserted is not modelled; the source returns the empty string there without touching the slots.
- Machines.Machine.InsertRotors: the check `_pawls < 0` is not modelled. The constructor already excludes it, so it can never fail.
- Machines.Machine.Convert: takes an unbounded integer instead of a 32-bit `int`. The results agree on Java's `int` range, where no intermediate sum overflows for alphabets of realistic size.
- Alphabets.NewAlphabet: a Java `char` is a UTF-16 code unit, while a Dafny `char` is a Unicode scalar value. A character outside the Basic Multilingual Plane counts twice in the source's `size()` and `length()` and once in the model.
- Machines.Machine.SetPlugboard: the plugboard's alphabet is not compared with the machine's. The source does not compare them either. Proofs about conversion assume the sizes agree.
- Machines.Machine.AdvanceEach: advances the collected rotors in an unspecified order, because the source iterates a `HashSet`. Each rotor moves independently, so the order does not matter.
- PermutationExamples.ParseOneCycle: the unit tests' concrete permute/invert tables are not reproduced. Only their cycle strings are parsed, and the general lemmas cover the rest.
