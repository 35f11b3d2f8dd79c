/** The machine (enigma/Machine.java): a row of rotor slots filled from a
    catalog of rotors, slot 0 holding the reflector and the rightmost `pawls`
    slots holding rotors that can move, plus an optional plugboard. Each
    character first steps the rotors, then travels through the plugboard,
    right to left through every slot, left to right back through every slot
    but the reflector, and through the plugboard again.

    The first part states stepping and the signal path on the values of the
    slots' rotors (a sequence of RotorState, slot 0 first); the class Machine
    then updates the rotor objects in place and is proved to follow it. */
module Machines {
  import opened Errors
  import opened Alphabets
  import opened Permutations
  import opened Rotors

  // ---------------------------------------------------------------------
  // Stepping
  // ---------------------------------------------------------------------

  /** Every rotor of the row has its setting and ring in range. */
  predicate AllValid(v: seq<RotorState>) {
    forall k :: 0 <= k < |v| ==> v[k].Valid()
  }

  /** Iteration j of the first loop of `advRotors` puts slot i in the set
      of rotors to advance: the rightmost slot always; otherwise slot j when
      the slot to its right is at a notch, and slots j and j-1 when slot j
      is itself at a notch and slot j-1 does not reflect. */
  predicate SelectedAt(v: seq<RotorState>, j: int, i: int)
    requires AllValid(v) && 1 <= j < |v|
  {
    if j == |v| - 1 then i == j
    else
      (i == j && v[j + 1].AtNotch())
      || ((i == j || i == j - 1) && v[j].AtNotch() && !v[j - 1].Reflecting())
  }

  /** Some iteration over the pawl slots n-pawls .. n-1 selects slot i.
      All decisions read the settings from before any rotor moves. */
  predicate Selected(v: seq<RotorState>, pawls: int, i: int)
    requires AllValid(v) && 0 <= pawls < |v|
  {
    exists j :: |v| - pawls <= j < |v| && SelectedAt(v, j, i)
  }

  /** Some iteration before i (of those starting at n-pawls) selects slot
      k: what the selection loop has collected when it reaches i. */
  predicate SelectedBefore(v: seq<RotorState>, pawls: int, i: int, k: int)
    requires AllValid(v) && 0 <= pawls < |v| && |v| - pawls <= i <= |v|
    decreases i
  {
    i > |v| - pawls && (SelectedBefore(v, pawls, i - 1, k) || SelectedAt(v, i - 1, k))
  }

  /** The loop's view of the selection agrees with Selected once every pawl
      slot has been visited. */
  lemma {:induction false} SelectedBeforeIff(v: seq<RotorState>, pawls: int, i: int, k: int)
    requires AllValid(v) && 0 <= pawls < |v| && |v| - pawls <= i <= |v|
    ensures SelectedBefore(v, pawls, i, k) <==> exists j :: |v| - pawls <= j < i && SelectedAt(v, j, k)
    decreases i
  {
    if i > |v| - pawls {
      SelectedBeforeIff(v, pawls, i - 1, k);
    }
  }

  /** After the last pawl slot, the loop's view is Selected for every slot. */
  lemma {:induction false} SelectedBeforeAll(v: seq<RotorState>, pawls: int)
    requires AllValid(v) && 0 <= pawls < |v|
    ensures forall k :: SelectedBefore(v, pawls, |v|, k) <==> Selected(v, pawls, k)
  {
    forall k
      ensures SelectedBefore(v, pawls, |v|, k) <==> Selected(v, pawls, k)
    {
      SelectedBeforeIff(v, pawls, |v|, k);
    }
  }

  /** The first loop of `advRotors` over the rotors of a row `rs` whose
      states are `v`: visiting the pawl slots from left to right, it
      collects exactly the rotors of the slots that Selected names. */
  method CollectSelected(rs: seq<Rotor>, v: seq<RotorState>, pawls: int) returns (chosen: set<Rotor>)
    requires AllValid(v) && 0 <= pawls < |v| && |rs| == |v|
    requires forall k, l :: 0 <= k < l < |rs| ==> rs[k] != rs[l]
    ensures forall r :: r in chosen ==> r in rs
    ensures forall k :: 0 <= k < |rs| ==> (rs[k] in chosen <==> Selected(v, pawls, k))
  {
    var n := |rs|;
    chosen := {};
    var i := n - pawls;
    while i < n
      invariant n - pawls <= i <= n
      invariant forall r :: r in chosen ==> r in rs
      invariant forall k :: 0 <= k < n ==> (rs[k] in chosen <==> SelectedBefore(v, pawls, i, k))
    {
      ghost var before := chosen;
      if i == n - 1 {
        chosen := chosen + {rs[i]};
      } else {
        if v[i + 1].AtNotch() {
          chosen := chosen + {rs[i]};
        }
        if v[i].AtNotch() && !v[i - 1].Reflecting() {
          chosen := chosen + {rs[i], rs[i - 1]};
        }
      }
      forall k | 0 <= k < n
        ensures rs[k] in chosen <==> rs[k] in before || SelectedAt(v, i, k)
      {
        assert rs[k] == rs[i] <==> k == i;
        assert rs[k] == rs[i - 1] <==> k == i - 1;
      }
      i := i + 1;
    }
    SelectedBeforeAll(v, pawls);
  }

  /** The stepping rule slot by slot, without reference to the loop: with
      at least one pawl, slot i advances iff it is the rightmost slot, or it
      is a pawl slot whose right-hand neighbour is at a notch, or it is a
      pawl slot at a notch whose left neighbour does not reflect, or its
      right-hand neighbour is a pawl slot (not the rightmost) at a notch and
      slot i does not reflect. */
  predicate StepRule(v: seq<RotorState>, pawls: int, i: int)
    requires AllValid(v) && 0 <= pawls < |v| && 0 <= i < |v|
  {
    pawls > 0 &&
    (i == |v| - 1
     || (|v| - pawls <= i < |v| - 1 && v[i + 1].AtNotch())
     || (|v| - pawls <= i < |v| - 1 && v[i].AtNotch() && !v[i - 1].Reflecting())
     || (|v| - pawls <= i + 1 < |v| - 1 && v[i + 1].AtNotch() && !v[i].Reflecting()))
  }

  /** The row after `advRotors`: each rotor the loop selects advances
      exactly once, however many iterations selected it; the others keep
      their state. By SteppingRule, that is each rotor StepRule names. */
  function Step(v: seq<RotorState>, pawls: int): (r: seq<RotorState>)
    requires AllValid(v) && 0 <= pawls < |v|
    ensures |r| == |v| && AllValid(r)
    ensures forall i :: 0 <= i < |v| ==> r[i] == if StepRule(v, pawls, i) then v[i].Advanced() else v[i]
  {
    var r := seq(|v|, i requires 0 <= i < |v| => if Selected(v, pawls, i) then v[i].Advanced() else v[i]);
    assert forall i :: 0 <= i < |v| ==> (Selected(v, pawls, i) <==> StepRule(v, pawls, i)) by {
      forall i | 0 <= i < |v| {
        SteppingRule(v, pawls, i);
      }
    }
    r
  }

  /** With no pawls nothing moves. */
  lemma {:induction false} StepNoPawls(v: seq<RotorState>)
    requires AllValid(v) && |v| > 0
    ensures Step(v, 0) == v
  {
    assert forall i :: 0 <= i < |v| ==> Step(v, 0)[i] == v[i];
  }

  /** The selection loop selects slot i exactly when the stepping rule
      names it. */
  lemma {:induction false} SteppingRule(v: seq<RotorState>, pawls: int, i: int)
    requires AllValid(v) && 0 <= pawls < |v| && 0 <= i < |v|
    ensures Selected(v, pawls, i) <==> StepRule(v, pawls, i)
  {
    var n := |v|;
    if Selected(v, pawls, i) {
      var j :| n - pawls <= j < n && SelectedAt(v, j, i);
    }
    if pawls > 0 {
      if i == n - 1 {
        assert SelectedAt(v, n - 1, i);
      } else if n - pawls <= i < n - 1 && (v[i + 1].AtNotch() || (v[i].AtNotch() && !v[i - 1].Reflecting())) {
        assert SelectedAt(v, i, i);
      } else if n - pawls <= i + 1 < n - 1 && v[i + 1].AtNotch() && !v[i].Reflecting() {
        assert SelectedAt(v, i + 1, i);
      }
    }
  }

  /** With at least one pawl the rightmost rotor advances on every step. */
  lemma {:induction false} RightmostAdvances(v: seq<RotorState>, pawls: int)
    requires AllValid(v) && 0 < pawls < |v|
    ensures Step(v, pawls)[|v| - 1] == v[|v| - 1].Advanced()
  {
    assert SelectedAt(v, |v| - 1, |v| - 1);
  }

  /** The double step: a pawl rotor (not the rightmost) that is at a notch
      advances together with its left neighbour, unless that one reflects. */
  lemma {:induction false} DoubleStep(v: seq<RotorState>, pawls: int, i: int)
    requires AllValid(v) && 0 <= pawls < |v| && |v| - pawls <= i < |v| - 1
    requires v[i].AtNotch() && !v[i - 1].Reflecting()
    ensures Step(v, pawls)[i] == v[i].Advanced()
    ensures Step(v, pawls)[i - 1] == v[i - 1].Advanced()
  {
    assert SelectedAt(v, i, i);
    assert SelectedAt(v, i, i - 1);
  }

  /** The carry: a pawl rotor advances when its right-hand neighbour is at a
      notch. */
  lemma {:induction false} Carry(v: seq<RotorState>, pawls: int, i: int)
    requires AllValid(v) && 0 <= pawls < |v| && |v| - pawls <= i < |v| - 1
    requires v[i + 1].AtNotch()
    ensures Step(v, pawls)[i] == v[i].Advanced()
  {
    assert SelectedAt(v, i, i);
  }

  /** Slots left of the pawls, other than the one just left of them, never
      move. */
  lemma {:induction false} FarLeftStill(v: seq<RotorState>, pawls: int, i: int)
    requires AllValid(v) && 0 <= pawls < |v| && 0 <= i < |v| - pawls - 1
    ensures Step(v, pawls)[i] == v[i]
  {
    SteppingRule(v, pawls, i);
  }

  /** Stepping keeps every rotor's permutation, kind and ring. */
  lemma {:induction false} StepKeepsRotors(v: seq<RotorState>, pawls: int)
    requires AllValid(v) && 0 <= pawls < |v|
    ensures forall i :: 0 <= i < |v| ==>
      Step(v, pawls)[i].perm == v[i].perm && Step(v, pawls)[i].kind == v[i].kind
      && Step(v, pawls)[i].ring == v[i].ring
  {
  }

  /** The row after k steps. */
  function StepTimes(v: seq<RotorState>, pawls: int, k: nat): (r: seq<RotorState>)
    requires AllValid(v) && 0 <= pawls < |v|
    ensures |r| == |v| && AllValid(r)
    decreases k
  {
    if k == 0 then v else StepTimes(Step(v, pawls), pawls, k - 1)
  }

  // ---------------------------------------------------------------------
  // The signal path
  // ---------------------------------------------------------------------

  /** The forward pass of `convert`: x enters slot n-1 and leaves slot lo,
      converted forward by each slot on the way (slot 0, the reflector,
      included when lo is 0). */
  function ForwardPass(v: seq<RotorState>, lo: int, x: int): Result<int>
    requires AllValid(v) && 0 <= lo <= |v|
    decreases |v| - lo
  {
    if lo == |v| then Ok(x)
    else
      var y :- ForwardPass(v, lo + 1, x);
      v[lo].ConvertForward(y)
  }

  /** The backward pass of `convert`: x enters slot lo and leaves slot n-1,
      converted backward by each slot on the way. */
  function BackwardPass(v: seq<RotorState>, lo: int, x: int): Result<int>
    requires AllValid(v) && 0 <= lo <= |v|
    decreases |v| - lo
  {
    if lo == |v| then Ok(x)
    else
      var y :- v[lo].ConvertBackward(x);
      BackwardPass(v, lo + 1, y)
  }

  /** The plugboard stage: the identity when no plugboard is set. */
  function Plug(plugboard: Option<Permutation>, x: int): Result<int> {
    if plugboard.None? then Ok(x) else plugboard.value.Apply(x)
  }

  /** `convert(int)` after stepping: reduce c modulo the alphabet size with
      Java's `%`, then plugboard, forward through every slot, backward
      through slots 1..n-1, plugboard. */
  function Signal(v: seq<RotorState>, plugboard: Option<Permutation>, size: int, c: int): Result<int>
    requires AllValid(v) && |v| > 0 && size > 0
  {
    var ch := JavaRem(c, size);
    var a :- Plug(plugboard, ch);
    var b :- ForwardPass(v, 0, a);
    var d :- BackwardPass(v, 1, b);
    Plug(plugboard, d)
  }

  /** Every slot holds a rotor over an alphabet of the given size whose
      cycles form a real permutation. */
  ghost predicate Uniform(v: seq<RotorState>, size: int) {
    AllValid(v) && forall k :: 0 <= k < |v| ==> v[k].Size() == size && v[k].perm.WellFormed()
  }

  /** No plugboard, or one whose cycles form a real permutation of an
      alphabet of the given size. */
  ghost predicate RealBoard(plugboard: Option<Permutation>, size: int) {
    plugboard.Some? ==> plugboard.value.WellFormed() && plugboard.value.Size() == size
  }

  /** No plugboard, or one that swaps pairs of an alphabet of the given size. */
  ghost predicate SwapBoard(plugboard: Option<Permutation>, size: int) {
    plugboard.Some? ==>
      plugboard.value.WellFormed() && plugboard.value.OnlySwaps() && plugboard.value.Size() == size
  }

  /** Stepping keeps a row uniform. */
  lemma {:induction false} StepUniform(v: seq<RotorState>, pawls: int, size: int)
    requires Uniform(v, size) && 0 <= pawls < |v|
    ensures Uniform(Step(v, pawls), size)
  {
  }

  /** The backward pass through slots lo..n-1 undoes the forward pass
      through them. */
  lemma {:induction false} BackwardUndoesForward(v: seq<RotorState>, size: int, lo: int, x: int)
    requires Uniform(v, size) && 0 <= lo <= |v| && 0 <= x < size
    ensures ForwardPass(v, lo, x).Ok? && 0 <= ForwardPass(v, lo, x).value < size
    ensures BackwardPass(v, lo, ForwardPass(v, lo, x).value) == Ok(x)
    decreases |v| - lo
  {
    if lo < |v| {
      BackwardUndoesForward(v, size, lo + 1, x);
      var y := ForwardPass(v, lo + 1, x).value;
      BackwardAfterForward(v[lo], y);
    }
  }

  /** The forward pass through slots lo..n-1 undoes the backward pass
      through them. */
  lemma {:induction false} ForwardUndoesBackward(v: seq<RotorState>, size: int, lo: int, x: int)
    requires Uniform(v, size) && 0 <= lo <= |v| && 0 <= x < size
    ensures BackwardPass(v, lo, x).Ok? && 0 <= BackwardPass(v, lo, x).value < size
    ensures ForwardPass(v, lo, BackwardPass(v, lo, x).value) == Ok(x)
    decreases |v| - lo
  {
    if lo < |v| {
      ForwardAfterBackward(v[lo], x);
      var y := v[lo].ConvertBackward(x).value;
      ForwardUndoesBackward(v, size, lo + 1, y);
    }
  }

  /** A swapping plugboard maps indices in range into range and is its own
      inverse. */
  lemma {:induction false} PlugTwice(plugboard: Option<Permutation>, size: int, x: int)
    requires SwapBoard(plugboard, size) && 0 <= x < size
    ensures Plug(plugboard, x).Ok? && 0 <= Plug(plugboard, x).value < size
    ensures Plug(plugboard, Plug(plugboard, x).value) == Ok(x)
  {
    if plugboard.Some? {
      SwapsSelfInverse(plugboard.value, x);
    }
  }

  /** With a reflector that swaps pairs, rotors that are real permutations
      and a swapping plugboard, the signal path is its own inverse: the
      machine in the same state encodes the output back to the input. */
  lemma {:induction false} SignalSelfInverse(v: seq<RotorState>, plugboard: Option<Permutation>, size: int, c: int)
    requires Uniform(v, size) && |v| > 0 && v[0].perm.OnlySwaps()
    requires SwapBoard(plugboard, size) && 0 <= c < size
    ensures Signal(v, plugboard, size, c).Ok?
    ensures 0 <= Signal(v, plugboard, size, c).value < size
    ensures Signal(v, plugboard, size, Signal(v, plugboard, size, c).value) == Ok(c)
  {
    assert JavaRem(c, size) == c;
    PlugTwice(plugboard, size, c);
    var a := Plug(plugboard, c).value;
    BackwardUndoesForward(v, size, 1, a);
    var y := ForwardPass(v, 1, a).value;
    SwapsConvertSelfInverse(v[0], y);
    var z := v[0].ConvertForward(y).value;
    assert ForwardPass(v, 0, a) == Ok(z);
    ForwardUndoesBackward(v, size, 1, z);
    var d := BackwardPass(v, 1, z).value;
    PlugTwice(plugboard, size, d);
    var out := Plug(plugboard, d).value;
    assert Signal(v, plugboard, size, c) == Ok(out);
    assert JavaRem(out, size) == out;
    assert ForwardPass(v, 0, d) == Ok(y);
  }

  /** With real permutations throughout, whatever the reflector's cycles,
      the signal path is defined on every index and stays in range. */
  lemma {:induction false} SignalOk(v: seq<RotorState>, plugboard: Option<Permutation>, size: int, c: int)
    requires Uniform(v, size) && |v| > 0 && RealBoard(plugboard, size) && 0 <= c < size
    ensures Signal(v, plugboard, size, c).Ok?
    ensures 0 <= Signal(v, plugboard, size, c).value < size
  {
    assert JavaRem(c, size) == c;
    if plugboard.Some? {
      MapDomain(plugboard.value, c, true);
    }
    var a := Plug(plugboard, c).value;
    BackwardUndoesForward(v, size, 0, a);
    var b := ForwardPass(v, 0, a).value;
    ForwardUndoesBackward(v, size, 1, b);
    var d := BackwardPass(v, 1, b).value;
    if plugboard.Some? {
      MapDomain(plugboard.value, d, true);
    }
  }

  /** The backward pass from a slot before the last ends in the last
      slot's conversion, so its result is an index of that rotor. */
  lemma {:induction false} BackwardPassInRange(v: seq<RotorState>, lo: int, x: int)
    requires AllValid(v) && 0 <= lo < |v|
    requires BackwardPass(v, lo, x).Ok?
    ensures 0 <= BackwardPass(v, lo, x).value < v[|v| - 1].Size()
    decreases |v| - lo
  {
    var y := v[lo].ConvertBackward(x).value;
    if lo < |v| - 1 {
      BackwardPassInRange(v, lo + 1, y);
    }
  }

  /** `convert(int)` returns an index of the alphabet: with at least two
      slots the signal leaves the last rotor, or a plugboard over an
      alphabet of the same size, in range. */
  lemma {:induction false} SignalInRange(v: seq<RotorState>, plugboard: Option<Permutation>, size: int, c: int)
    requires AllValid(v) && |v| > 1 && size > 0 && v[|v| - 1].Size() == size
    requires plugboard.Some? ==> plugboard.value.Size() == size
    requires Signal(v, plugboard, size, c).Ok?
    ensures 0 <= Signal(v, plugboard, size, c).value < size
  {
    var a := Plug(plugboard, JavaRem(c, size)).value;
    var b := ForwardPass(v, 0, a).value;
    BackwardPassInRange(v, 1, b);
  }

  /** A failure in slot i of the forward pass is the failure of the whole
      pass. */
  lemma {:induction false} ForwardPassFails(v: seq<RotorState>, lo: int, i: int, x: int)
    requires AllValid(v) && 0 <= lo <= i < |v|
    requires ForwardPass(v, i, x).Err?
    ensures ForwardPass(v, lo, x) == ForwardPass(v, i, x)
    decreases i - lo
  {
    if lo < i {
      ForwardPassFails(v, lo + 1, i, x);
    }
  }

  // ---------------------------------------------------------------------
  // Messages
  // ---------------------------------------------------------------------

  /** res with out put in front of its text when it succeeded. */
  function Prepend(out: string, res: (Result<string>, seq<RotorState>)): (Result<string>, seq<RotorState>) {
    (if res.0.Ok? then Ok(out + res.0.value) else res.0, res.1)
  }

  /** Run from position i of a message: the character there, then the rest. */
  lemma {:induction false} RunUnfold(v: seq<RotorState>, plugboard: Option<Permutation>, pawls: int,
                  alphabet: Alphabet, msg: string, i: int)
    requires AllValid(v) && 0 <= pawls < |v| && |alphabet| > 0 && 0 <= i < |msg|
    ensures var (ch, w) := Stroke(v, plugboard, pawls, alphabet, msg[i]);
      Run(v, plugboard, pawls, alphabet, msg[i..])
        == if ch.Err? then (Err(ch.error), w)
           else Prepend([ch.value], Run(w, plugboard, pawls, alphabet, msg[i + 1..]))
  {
    assert msg[i..][0] == msg[i] && msg[i..][1..] == msg[i + 1..];
  }

  /** Output collected so far goes in front of what the rest produces. */
  lemma {:induction false} PrependTwice(out: string, x: char, res: (Result<string>, seq<RotorState>))
    ensures Prepend(out, Prepend([x], res)) == Prepend(out + [x], res)
  {
    if res.0.Ok? {
      assert out + ([x] + res.0.value) == (out + [x]) + res.0.value;
    }
  }

  /** One character of `convert(String)`: it is turned into its index (a
      character outside the alphabet fails before any stepping), the machine
      steps and converts it, and the index goes back to a character. The
      result comes with the row of rotors as the source leaves it. */
  function Stroke(v: seq<RotorState>, plugboard: Option<Permutation>, pawls: int,
                  alphabet: Alphabet, x: char): (r: (Result<char>, seq<RotorState>))
    requires AllValid(v) && 0 <= pawls < |v| && |alphabet| > 0
    ensures |r.1| == |v| && AllValid(r.1)
  {
    var c := ToInt(alphabet, x);
    if c.Err? then (Err(c.error), v)
    else
      var w := Step(v, pawls);
      var d := Signal(w, plugboard, |alphabet|, c.value);
      if d.Err? then (Err(d.error), w)
      else (ToChar(alphabet, d.value), w)
  }

  /** `convert(String)`: the characters in turn, up to the first failure. */
  function Run(v: seq<RotorState>, plugboard: Option<Permutation>, pawls: int,
               alphabet: Alphabet, msg: string): (r: (Result<string>, seq<RotorState>))
    requires AllValid(v) && 0 <= pawls < |v| && |alphabet| > 0
    ensures |r.1| == |v| && AllValid(r.1)
    decreases |msg|
  {
    if msg == [] then (Ok([]), v)
    else
      var (ch, w) := Stroke(v, plugboard, pawls, alphabet, msg[0]);
      if ch.Err? then (Err(ch.error), w)
      else Prepend([ch.value], Run(w, plugboard, pawls, alphabet, msg[1..]))
  }

  /** A character that converts successfully is in the alphabet, steps the
      rotors once, and comes out as the character whose index the signal
      path gives. */
  lemma {:induction false} StrokeOk(v: seq<RotorState>, plugboard: Option<Permutation>, pawls: int,
                 alphabet: Alphabet, x: char)
    requires AllValid(v) && 0 <= pawls < |v| && |alphabet| > 0
    requires Stroke(v, plugboard, pawls, alphabet, x).0.Ok?
    ensures var (ch, w) := Stroke(v, plugboard, pawls, alphabet, x);
      x in alphabet && w == Step(v, pawls) && ch.value in alphabet
      && Signal(w, plugboard, |alphabet|, IndexOf(alphabet, x)) == Ok(IndexOf(alphabet, ch.value))
  {
    var w := Step(v, pawls);
    var d := Signal(w, plugboard, |alphabet|, IndexOf(alphabet, x));
    IndexOfDistinct(alphabet, d.value);
  }

  /** On success, `convert(String)` returns one character per input
      character, the k-th being the conversion of the k-th input after k+1
      steps, and leaves the rotors stepped once per character. */
  lemma {:induction false} RunPointwise(v: seq<RotorState>, plugboard: Option<Permutation>, pawls: int,
                                         alphabet: Alphabet, msg: string)
    requires AllValid(v) && 0 <= pawls < |v| && |alphabet| > 0
    requires Run(v, plugboard, pawls, alphabet, msg).0.Ok?
    ensures var (res, w) := Run(v, plugboard, pawls, alphabet, msg);
      |res.value| == |msg| && w == StepTimes(v, pawls, |msg|)
      && forall k :: 0 <= k < |msg| ==>
           msg[k] in alphabet
           && Signal(StepTimes(v, pawls, k + 1), plugboard, |alphabet|, IndexOf(alphabet, msg[k]))
              == Ok(IndexOf(alphabet, res.value[k]))
    decreases |msg|
  {
    if msg != [] {
      StrokeOk(v, plugboard, pawls, alphabet, msg[0]);
      var (ch, w) := Stroke(v, plugboard, pawls, alphabet, msg[0]);
      RunPointwise(w, plugboard, pawls, alphabet, msg[1..]);
      var (res, u) := Run(v, plugboard, pawls, alphabet, msg);
      var (rest, u') := Run(w, plugboard, pawls, alphabet, msg[1..]);
      assert res.value == [ch.value] + rest.value && u == u';
      forall k | 0 <= k < |msg|
        ensures msg[k] in alphabet
        ensures Signal(StepTimes(v, pawls, k + 1), plugboard, |alphabet|, IndexOf(alphabet, msg[k]))
                == Ok(IndexOf(alphabet, res.value[k]))
      {
        assert StepTimes(v, pawls, k + 1) == StepTimes(w, pawls, k);
        if k > 0 {
          assert msg[k] == msg[1..][k - 1];
          assert res.value[k] == rest.value[k - 1];
        }
      }
    }
  }

  /** A message that starts with a character that converts is that
      character's output followed by the run of the rest. */
  lemma {:induction false} RunCons(v: seq<RotorState>, plugboard: Option<Permutation>, pawls: int,
                alphabet: Alphabet, x: char, t: string)
    requires AllValid(v) && 0 <= pawls < |v| && |alphabet| > 0
    requires Stroke(v, plugboard, pawls, alphabet, x).0.Ok?
    ensures var (ch, w) := Stroke(v, plugboard, pawls, alphabet, x);
      Run(v, plugboard, pawls, alphabet, [x] + t) == Prepend([ch.value], Run(w, plugboard, pawls, alphabet, t))
  {
    var s := [x] + t;
    assert s[0] == x && s[1..] == t;
  }

  /** One stroke undoes itself: from the same rotor states, the character a
      stroke produces converts back to the character that went in. */
  lemma {:induction false} StrokeDecodes(v: seq<RotorState>, plugboard: Option<Permutation>, pawls: int,
                      alphabet: Alphabet, x: char)
    requires Uniform(v, |alphabet|) && 0 <= pawls < |v| && v[0].perm.OnlySwaps()
    requires |alphabet| > 0 && SwapBoard(plugboard, |alphabet|)
    requires Stroke(v, plugboard, pawls, alphabet, x).0.Ok?
    ensures var (ch, w) := Stroke(v, plugboard, pawls, alphabet, x);
      w == Step(v, pawls) && Stroke(v, plugboard, pawls, alphabet, ch.value) == (Ok(x), w)
  {
    var n := |alphabet|;
    var c := IndexOf(alphabet, x);
    var w := Step(v, pawls);
    StepUniform(v, pawls, n);
    StepKeepsRotors(v, pawls);
    SignalSelfInverse(w, plugboard, n, c);
    var d := Signal(w, plugboard, n, c).value;
    IndexOfDistinct(alphabet, d);
    IndexOfDistinct(alphabet, c);
  }

  /** Running the machine again from the same state on the output decodes
      it: with a swapping reflector and plugboard, each character's
      conversion is its own inverse, and stepping does not depend on the
      text. */
  lemma {:induction false} RunDecodes(v: seq<RotorState>, plugboard: Option<Permutation>, pawls: int,
                                       alphabet: Alphabet, msg: string)
    requires Uniform(v, |alphabet|) && 0 <= pawls < |v| && v[0].perm.OnlySwaps()
    requires |alphabet| > 0 && SwapBoard(plugboard, |alphabet|)
    requires Run(v, plugboard, pawls, alphabet, msg).0.Ok?
    ensures var (res, w) := Run(v, plugboard, pawls, alphabet, msg);
      Run(v, plugboard, pawls, alphabet, res.value) == (Ok(msg), w)
    decreases |msg|
  {
    if msg != [] {
      var (ch, w) := Stroke(v, plugboard, pawls, alphabet, msg[0]);
      StrokeDecodes(v, plugboard, pawls, alphabet, msg[0]);
      StepUniform(v, pawls, |alphabet|);
      StepKeepsRotors(v, pawls);
      RunDecodes(w, plugboard, pawls, alphabet, msg[1..]);
      var (rest, u) := Run(w, plugboard, pawls, alphabet, msg[1..]);
      assert Run(v, plugboard, pawls, alphabet, msg) == (Ok([ch.value] + rest.value), u) by {
        RunCons(v, plugboard, pawls, alphabet, msg[0], msg[1..]);
        assert [msg[0]] + msg[1..] == msg;
      }
      assert Run(v, plugboard, pawls, alphabet, [ch.value] + rest.value) == (Ok(msg), u) by {
        RunCons(v, plugboard, pawls, alphabet, ch.value, rest.value);
        assert [msg[0]] + msg[1..] == msg;
      }
    }
  }

  /** With real permutations throughout (the reflector's cycles may have
      any length), `convert(String)` fails exactly when the message holds a
      character outside the alphabet. */
  lemma {:induction false} RunFailsOnlyOutside(v: seq<RotorState>, plugboard: Option<Permutation>, pawls: int,
                                                alphabet: Alphabet, msg: string)
    requires Uniform(v, |alphabet|) && 0 <= pawls < |v|
    requires |alphabet| > 0 && RealBoard(plugboard, |alphabet|)
    ensures Run(v, plugboard, pawls, alphabet, msg).0.Ok? <==> forall k :: 0 <= k < |msg| ==> msg[k] in alphabet
    ensures Run(v, plugboard, pawls, alphabet, msg).0.Err? ==> Run(v, plugboard, pawls, alphabet, msg).0.error == NotInAlphabet
    decreases |msg|
  {
    if msg != [] {
      var n := |alphabet|;
      var w := Step(v, pawls);
      assert Uniform(w, n) by {
        StepUniform(v, pawls, n);
      }
      RunFailsOnlyOutside(w, plugboard, pawls, alphabet, msg[1..]);
      if msg[0] in alphabet {
        assert Stroke(v, plugboard, pawls, alphabet, msg[0]).0.Ok? by {
          SignalOk(w, plugboard, n, IndexOf(alphabet, msg[0]));
        }
      }
      RunFailsStep(v, plugboard, pawls, alphabet, msg);
    }
  }

  /** The first character decides whether the run fails at once; otherwise
      the rest of the run decides. */
  lemma {:induction false} RunFailsStep(v: seq<RotorState>, plugboard: Option<Permutation>, pawls: int,
                                         alphabet: Alphabet, msg: string)
    requires AllValid(v) && 0 <= pawls < |v| && |alphabet| > 0 && msg != []
    requires msg[0] in alphabet ==> Stroke(v, plugboard, pawls, alphabet, msg[0]).0.Ok?
    requires var rest := Run(Step(v, pawls), plugboard, pawls, alphabet, msg[1..]).0;
      (rest.Ok? <==> forall k :: 0 <= k < |msg[1..]| ==> msg[1..][k] in alphabet)
      && (rest.Err? ==> rest.error == NotInAlphabet)
    ensures Run(v, plugboard, pawls, alphabet, msg).0.Ok? <==> forall k :: 0 <= k < |msg| ==> msg[k] in alphabet
    ensures Run(v, plugboard, pawls, alphabet, msg).0.Err? ==> Run(v, plugboard, pawls, alphabet, msg).0.error == NotInAlphabet
  {
    var w := Step(v, pawls);
    var r := Run(v, plugboard, pawls, alphabet, msg).0;
    var rest := Run(w, plugboard, pawls, alphabet, msg[1..]).0;
    AllInCons(msg, alphabet);
    if msg[0] in alphabet {
      assert (r.Ok? <==> rest.Ok?) && (r.Err? ==> r == rest) by {
        var st := Stroke(v, plugboard, pawls, alphabet, msg[0]);
        assert st.1 == w;
        assert Run(v, plugboard, pawls, alphabet, msg) == Prepend([st.0.value], Run(w, plugboard, pawls, alphabet, msg[1..])) by {
          RunCons(v, plugboard, pawls, alphabet, msg[0], msg[1..]);
          assert [msg[0]] + msg[1..] == msg;
        }
      }
    } else {
      assert r == Err(NotInAlphabet) by {
        RunUnfold(v, plugboard, pawls, alphabet, msg, 0);
        assert msg[0..] == msg;
      }
    }
  }

  /** A nonempty message lies in the alphabet when its first character and
      the rest do. */
  lemma {:induction false} AllInCons(msg: string, alphabet: Alphabet)
    requires msg != []
    ensures (forall k :: 0 <= k < |msg| ==> msg[k] in alphabet)
        <==> msg[0] in alphabet && forall k :: 0 <= k < |msg[1..]| ==> msg[1..][k] in alphabet
  {
    assert forall k :: 1 <= k < |msg| ==> msg[k] == msg[1..][k - 1];
  }

  // ---------------------------------------------------------------------
  // Catalog lookup and configuration strings
  // ---------------------------------------------------------------------

  /** The name table `insertRotors` builds from the catalog: every rotor is
      put under its name, so a later rotor replaces an earlier namesake. */
  function Named(rs: seq<Rotor>): (m: map<string, Rotor>)
    ensures forall name :: name in m <==> exists k :: 0 <= k < |rs| && rs[k].name == name
    ensures forall name :: name in m ==> m[name] in rs && m[name].name == name
  {
    if rs == [] then map[]
    else
      var init := rs[..|rs| - 1];
      assert forall k :: 0 <= k < |init| ==> init[k] == rs[k];
      Named(init)[rs[|rs| - 1].name := rs[|rs| - 1]]
  }

  /** The rotor filed under a name is the last catalog rotor with that name. */
  lemma {:induction false} NamedLast(rs: seq<Rotor>, k: int)
    requires 0 <= k < |rs|
    requires forall j :: k < j < |rs| ==> rs[j].name != rs[k].name
    ensures rs[k].name in Named(rs) && Named(rs)[rs[k].name] == rs[k]
  {
    var n := |rs|;
    if k < n - 1 {
      var init := rs[..n - 1];
      NamedLast(init, k);
    }
  }

  /** The index of the first element of xs outside s, or |xs| when all of
      them are in s: where the slot-filling loop of `insertRotors` stops on an
      unknown name, and where the loops of `setRotors` and `setRingRotors`
      stop on a character outside the alphabet. */
  function FirstNotIn<T>(xs: seq<T>, s: set<T>): (k: nat)
    ensures k <= |xs|
    ensures forall j :: 0 <= j < k ==> xs[j] in s
    ensures k < |xs| ==> xs[k] !in s
  {
    if xs == [] || xs[0] !in s then 0 else 1 + FirstNotIn(xs[1..], s)
  }

  /** The states of a row of rotor objects, slot 0 first. */
  function StatesOf(rs: seq<Rotor?>): (r: seq<RotorState>)
    requires forall k :: 0 <= k < |rs| ==> rs[k] != null
    reads set x: Rotor | x in rs
    ensures |r| == |rs| && forall k :: 0 <= k < |rs| ==> r[k] == rs[k].State()
    decreases |rs|
  {
    if rs == [] then [] else [rs[0].State()] + StatesOf(rs[1..])
  }

  /** What `setPlugboard` accepts: a permutation that is not a derangement
      and whose every cycle has exactly two characters. */
  predicate PlugboardAccepted(p: Permutation) {
    !p.Deranged() && forall k :: 0 <= k < |p.cyclesArr| ==> |p.cyclesArr[k]| == 2
  }

  /** An accepted plugboard over a real permutation swaps pairs, so the
      plugboard stage is its own inverse. */
  lemma {:induction false} AcceptedPlugboardSwaps(p: Permutation, x: int)
    requires p.WellFormed() && PlugboardAccepted(p) && 0 <= x < p.Size()
    ensures SwapBoard(Some(p), p.Size())
    ensures Plug(Some(p), x).Ok?
    ensures Plug(Some(p), Plug(Some(p), x).value) == Ok(x)
  {
    PlugTwice(Some(p), p.Size(), x);
  }

  /** A plugboard that pairs up every character of an alphabet of more than
      one character is a derangement and is refused. */
  lemma {:induction false} FullPlugboardRejected(p: Permutation)
    requires p.WellFormed() && p.Size() > 1
    requires forall c :: c in p.alphabet ==> Covered(p.cyclesArr, c)
    ensures !PlugboardAccepted(p)
  {
    DerangedIffAllCovered(p);
  }

  /** The empty cycle string parses to one empty cycle, which is not a pair,
      so a plugboard without any swaps is refused too. */
  lemma {:induction false} EmptyPlugboardRejected(alphabet: Alphabet)
    ensures !PlugboardAccepted(Permutation(alphabet, "", CyclesArr("")))
  {
    EmptyCycles();
  }

  /** Slot state after `set` (setting) or `setRing` (ring) to index x. */
  function Reset(s: RotorState, x: int, ring: bool): RotorState {
    if ring then s.(ring := x) else s.(setting := x)
  }

  /** The row after `setRotors` (ring false) or `setRingRotors` (ring true)
      with a string of one character per slot after the reflector: slot i
      takes the index of chars[i-1], up to the first character outside the
      alphabet, where the source stops with an error. */
  function Configured(v: seq<RotorState>, chars: string, alphabet: Alphabet, ring: bool): (r: seq<RotorState>)
    requires |chars| == |v| - 1
    ensures |r| == |v|
  {
    var m := FirstNotIn(chars, Chars(alphabet));
    seq(|v|, i requires 0 <= i < |v| =>
      if 1 <= i <= m then Reset(v[i], IndexOf(alphabet, chars[i - 1]), ring) else v[i])
  }

  /** When the first missing character is chars[i-1] (or there is none and
      i is the row's length), the configured row is v with slots 1..i-1
      reset. */
  lemma {:induction false} ConfiguredUpTo(v: seq<RotorState>, chars: string, alphabet: Alphabet, ring: bool, i: int)
    requires |chars| == |v| - 1 && 1 <= i <= |v| && FirstNotIn(chars, Chars(alphabet)) == i - 1
    ensures forall k :: 0 <= k < |v| ==>
      Configured(v, chars, alphabet, ring)[k]
        == if 1 <= k < i then Reset(v[k], IndexOf(alphabet, chars[k - 1]), ring) else v[k]
  {
  }

  /** After a configuration string of alphabet characters, every slot but
      the reflector shows that string's character at its setting (or ring),
      the reflector and every other field are untouched, and the row is
      still in range. A string with a character outside the alphabet leaves
      the slots from that character's on unchanged. */
  lemma {:induction false} ConfiguredReadsBack(v: seq<RotorState>, chars: string, alphabet: Alphabet, ring: bool)
    requires |chars| == |v| - 1 && AllValid(v)
    requires forall k :: 0 <= k < |v| ==> v[k].perm.alphabet == alphabet
    ensures var r := Configured(v, chars, alphabet, ring);
      AllValid(r) && r[0] == v[0]
      && (forall i :: 0 <= i < |v| ==> r[i].perm == v[i].perm && r[i].kind == v[i].kind)
      && (forall i :: 1 <= i < |v| && (forall j :: 0 <= j < i ==> chars[j] in alphabet) ==>
            alphabet[if ring then r[i].ring else r[i].setting] == chars[i - 1]
            && (if ring then r[i].setting == v[i].setting else r[i].ring == v[i].ring))
      && (forall i :: 1 <= i < |v| && (exists j :: 0 <= j < i && chars[j] !in alphabet) ==> r[i] == v[i])
  {
    var r := Configured(v, chars, alphabet, ring);
    var m := FirstNotIn(chars, Chars(alphabet));
    forall i | 1 <= i <= m && i < |v|
      ensures r[i].Valid() && alphabet[if ring then r[i].ring else r[i].setting] == chars[i - 1]
    {
      IndexOfDistinct(alphabet, IndexOf(alphabet, chars[i - 1]));
    }
  }

  // ---------------------------------------------------------------------
  // The machine object
  // ---------------------------------------------------------------------

  /** The slot-filling loop of `insertRotors`: a fresh row holding the rotor
      the table names for each name, up to the first unknown name, and
      nothing after it. k is where the loop stopped. */
  method NamedRow(names: seq<string>, m: map<string, Rotor>) returns (row: array<Rotor?>, k: nat)
    ensures fresh(row) && row.Length == |names|
    ensures k == FirstNotIn(names, m.Keys)
    ensures forall j :: 0 <= j < k ==> row[j] == m[names[j]]
    ensures forall j :: k <= j < |names| ==> row[j] == null
  {
    var n := |names|;
    row := new Rotor?[n](_ => null);
    ghost var first := FirstNotIn(names, m.Keys);
    k := 0;
    while k < n && names[k] in m
      invariant 0 <= k <= first && row.Length == n
      invariant forall j :: 0 <= j < k ==> row[j] == m[names[j]]
      invariant forall j :: k <= j < n ==> row[j] == null
    {
      assert names[k] in m.Keys;
      row[k] := m[names[k]];
      k := k + 1;
    }
  }

  class Machine {
    /** The common alphabet of the machine and of its rotors. */
    const alphabet: Alphabet
    const numRotors: int
    const pawls: int
    /** All rotors available for insertion. */
    const catalog: seq<Rotor>
    /** The rotor slots, slot 0 leftmost; empty until rotors are inserted,
        and null from the first unknown name on after a failed insertion. */
    var slots: array<Rotor?>
    var plugboard: Option<Permutation>

    /** The rotors currently in slots. */
    ghost function Rotors(): set<Rotor>
      reads this, slots
    {
      set r: Rotor | r in slots[..]
    }

    ghost predicate Valid()
      reads this, slots, set r: Rotor | r in catalog
    {
      1 < numRotors && 0 <= pawls < numRotors
      && (forall r :: r in catalog ==> r.Valid() && r.perm.alphabet == alphabet)
      && (slots.Length == 0 || slots.Length == numRotors)
      && (forall k :: 0 <= k < slots.Length && slots[k] != null ==> slots[k] in catalog)
      && (forall k, l :: 0 <= k < l < slots.Length && slots[k] != null ==> slots[k] != slots[l])
    }

    /** Every slot holds a rotor: the machine can convert and be set. */
    ghost predicate Ready()
      reads this, slots
    {
      slots.Length == numRotors && forall k :: 0 <= k < slots.Length ==> slots[k] != null
    }

    /** The states of the rotors in the slots, slot 0 first. */
    function View(): (v: seq<RotorState>)
      requires Ready()
      reads this, slots, Rotors()
      ensures |v| == numRotors
    {
      StatesOf(slots[..])
    }

    /** A new machine with no rotors inserted and no plugboard. */
    constructor (alphabet: Alphabet, numRotors: int, pawls: int, catalog: seq<Rotor>)
      requires 1 < numRotors && 0 <= pawls < numRotors
      requires forall r :: r in catalog ==> r.Valid() && r.perm.alphabet == alphabet
      ensures this.alphabet == alphabet && this.numRotors == numRotors
      ensures this.pawls == pawls && this.catalog == catalog
      ensures slots.Length == 0 && plugboard.None?
      ensures Valid()
    {
      this.alphabet := alphabet;
      this.numRotors := numRotors;
      this.pawls := pawls;
      this.catalog := catalog;
      slots := new Rotor?[0];
      plugboard := None;
    }

    /** The source's constructor with its checks: more than one slot and
        0 <= pawls < slots, otherwise a configuration error. */
    static method Create(alphabet: Alphabet, numRotors: int, pawls: int, catalog: seq<Rotor>)
      returns (r: Result<Machine>)
      requires forall r :: r in catalog ==> r.Valid() && r.perm.alphabet == alphabet
      ensures r.Ok? <==> 1 < numRotors && 0 <= pawls < numRotors
      ensures r.Err? ==> r.error == BadConfig
      ensures r.Ok? ==> fresh(r.value) && r.value.Valid() && r.value.slots.Length == 0
      ensures r.Ok? ==> r.value.numRotors == numRotors && r.value.pawls == pawls
      ensures r.Ok? ==> r.value.alphabet == alphabet && r.value.catalog == catalog && r.value.plugboard.None?
    {
      if numRotors <= 1 {
        return Err(BadConfig);
      }
      if pawls < 0 || pawls >= numRotors {
        return Err(BadConfig);
      }
      var m := new Machine(alphabet, numRotors, pawls, catalog);
      return Ok(m);
    }

    /** `insertRotors`: a name list of the wrong length fails and changes
        nothing; otherwise the slots are refilled from the catalog's name
        table in order. The first unknown name fails, leaving the slots from
        it on empty; when every name is known the insertion still fails,
        with all slots filled, unless slot 0 reflects and every pawl slot
        rotates. */
    method InsertRotors(names: seq<string>) returns (o: Outcome)
      requires Valid()
      requires forall k, l :: 0 <= k < l < |names| ==> names[k] != names[l]
      modifies this`slots
      ensures Valid()
      ensures |names| != numRotors ==> o == Fail(BadConfig) && slots == old(slots)
      ensures |names| == numRotors ==>
        fresh(slots) && slots.Length == numRotors
        && var m := Named(catalog);
           var k := FirstNotIn(names, m.Keys);
           (forall j :: 0 <= j < k ==> slots[j] == m[names[j]])
           && (forall j :: k <= j < numRotors ==> slots[j] == null)
           && (k < numRotors ==> o == Fail(UnknownRotor))
           && (k == numRotors ==>
                 (o.Pass? <==> SlotKindsFit()) && (o.Fail? ==> o.error == BadConfig))
    {
      if |names| != numRotors {
        return Fail(BadConfig);
      }
      var m := NameTable();
      var filled := FillSlots(names, m);
      if !filled {
        return Fail(UnknownRotor);
      }
      var fits := CheckSlotKinds();
      if !fits {
        return Fail(BadConfig);
      }
      return Pass;
    }

    /** Slot 0 holds a reflector and every pawl slot a rotor that rotates. */
    ghost predicate SlotKindsFit()
      reads this, slots, Rotors()
      requires Ready() && 0 <= pawls < numRotors
    {
      slots[0].State().Reflecting()
      && forall j :: numRotors - pawls <= j < numRotors ==> slots[j].State().Rotates()
    }

    /** The name table, built by a loop over the catalog. */
    method NameTable() returns (m: map<string, Rotor>)
      ensures m == Named(catalog)
    {
      m := map[];
      for k := 0 to |catalog|
        invariant m == Named(catalog[..k])
      {
        assert catalog[..k + 1][..k] == catalog[..k];
        m := m[catalog[k].name := catalog[k]];
      }
      assert catalog[..|catalog|] == catalog;
    }

    /** The filling loop of `insertRotors`: a fresh row of slots takes the
        named rotors in order and stops at the first unknown name. */
    method FillSlots(names: seq<string>, m: map<string, Rotor>) returns (filled: bool)
      requires Valid() && m == Named(catalog) && |names| == numRotors
      requires forall k, l :: 0 <= k < l < |names| ==> names[k] != names[l]
      modifies this`slots
      ensures Valid() && fresh(slots) && slots.Length == numRotors
      ensures var k := FirstNotIn(names, m.Keys);
        (filled <==> k == numRotors)
        && (forall j :: 0 <= j < k ==> slots[j] == m[names[j]])
        && (forall j :: k <= j < numRotors ==> slots[j] == null)
    {
      var row, i := NamedRow(names, m);
      slots := row;
      SlotsFromNames(names, m, i);
      filled := i == numRotors;
    }

    /** Slots filled from the name table up to k, and empty after, keep the
        machine valid: distinct names pick distinct catalog rotors. */
    lemma {:induction false} SlotsFromNames(names: seq<string>, m: map<string, Rotor>, k: int)
      requires 1 < numRotors && 0 <= pawls < numRotors && slots.Length == numRotors
      requires forall r :: r in catalog ==> r.Valid() && r.perm.alphabet == alphabet
      requires m == Named(catalog) && |names| == numRotors && 0 <= k <= numRotors
      requires forall k, l :: 0 <= k < l < |names| ==> names[k] != names[l]
      requires forall j :: 0 <= j < k ==> names[j] in m && slots[j] == m[names[j]]
      requires forall j :: k <= j < numRotors ==> slots[j] == null
      ensures Valid()
    {
      forall j, l | 0 <= j < l < slots.Length && slots[j] != null
        ensures slots[j] != slots[l]
      {
        if l < k {
          assert slots[j].name == names[j] && slots[l].name == names[l];
        }
      }
    }

    /** The checks `insertRotors` makes once every slot is filled. */
    method CheckSlotKinds() returns (fits: bool)
      requires Valid() && Ready()
      ensures fits <==> SlotKindsFit()
    {
      if !slots[0].State().Reflecting() {
        return false;
      }
      var i := numRotors - pawls;
      while i < numRotors
        invariant numRotors - pawls <= i <= numRotors
        invariant forall j :: numRotors - pawls <= j < i ==> slots[j].State().Rotates()
      {
        if !slots[i].State().Rotates() {
          return false;
        }
        i := i + 1;
      }
      return true;
    }

    /** `setRotors`: the settings of slots 1..n-1 from a string of n-1
        characters. A string of the wrong length changes nothing; a
        character outside the alphabet stops the loop there. */
    method SetRotors(setting: string) returns (o: Outcome)
      requires Valid() && Ready()
      modifies Rotors()
      ensures Valid() && Ready()
      ensures |setting| != numRotors - 1 ==> o == Fail(BadConfig) && View() == old(View())
      ensures |setting| == numRotors - 1 ==>
        View() == Configured(old(View()), setting, alphabet, false)
        && (o.Pass? <==> forall j :: 0 <= j < |setting| ==> setting[j] in alphabet)
        && (o.Fail? ==> o.error == NotInAlphabet)
    {
      o := Configure(setting, false);
    }

    /** `setRingRotors`: the same for the ring settings. */
    method SetRingRotors(ringSetting: string) returns (o: Outcome)
      requires Valid() && Ready()
      modifies Rotors()
      ensures Valid() && Ready()
      ensures |ringSetting| != numRotors - 1 ==> o == Fail(BadConfig) && View() == old(View())
      ensures |ringSetting| == numRotors - 1 ==>
        View() == Configured(old(View()), ringSetting, alphabet, true)
        && (o.Pass? <==> forall j :: 0 <= j < |ringSetting| ==> ringSetting[j] in alphabet)
        && (o.Fail? ==> o.error == NotInAlphabet)
    {
      o := Configure(ringSetting, true);
    }

    /** The loop shared by `setRotors` and `setRingRotors`. */
    method Configure(chars: string, ring: bool) returns (o: Outcome)
      requires Valid() && Ready()
      modifies Rotors()
      ensures Valid() && Ready()
      ensures |chars| != numRotors - 1 ==> o == Fail(BadConfig) && View() == old(View())
      ensures |chars| == numRotors - 1 ==>
        View() == Configured(old(View()), chars, alphabet, ring)
        && (o.Pass? <==> forall j :: 0 <= j < |chars| ==> chars[j] in alphabet)
        && (o.Fail? ==> o.error == NotInAlphabet)
    {
      if |chars| != numRotors - 1 {
        return Fail(BadConfig);
      }
      ghost var v := View();
      ghost var m := FirstNotIn(chars, Chars(alphabet));
      var i := 1;
      while i < slots.Length
        invariant 1 <= i <= numRotors && i - 1 <= m && Valid() && Ready()
        invariant ResetBelow(v, chars, ring, i)
      {
        if !Contains(alphabet, chars[i - 1]) {
          assert m == i - 1;
          ConfiguredUpTo(v, chars, alphabet, ring, i);
          ViewIs(Configured(v, chars, alphabet, ring));
          return Fail(NotInAlphabet);
        }
        assert chars[i - 1] in Chars(alphabet);
        assert m != i - 1;
        ConfigureNext(chars, ring, i, v);
        i := i + 1;
      }
      ConfiguredUpTo(v, chars, alphabet, ring, i);
      ViewIs(Configured(v, chars, alphabet, ring));
      return Pass;
    }

    /** Slots 1..i-1 hold v's states reset to the configuration string's
        characters; every other slot still holds v's state. */
    ghost predicate ResetBelow(v: seq<RotorState>, chars: string, ring: bool, i: int)
      requires Ready() && |v| == numRotors && |chars| == numRotors - 1
      reads this, slots, Rotors()
    {
      forall k :: 0 <= k < numRotors ==>
        slots[k].State() == if 1 <= k < i then Reset(v[k], IndexOf(alphabet, chars[k - 1]), ring) else v[k]
    }

    /** One pass of the configuration loop, for a character of the alphabet. */
    method ConfigureNext(chars: string, ring: bool, i: int, ghost v: seq<RotorState>)
      requires Valid() && Ready() && |v| == numRotors && |chars| == numRotors - 1
      requires 1 <= i < numRotors && chars[i - 1] in alphabet && ResetBelow(v, chars, ring, i)
      modifies Rotors()
      ensures Valid() && Ready() && ResetBelow(v, chars, ring, i + 1)
    {
      ghost var x := IndexOf(alphabet, chars[i - 1]);
      ConfigureSlot(i, chars[i - 1], ring);
      forall k | 0 <= k < numRotors
        ensures slots[k].State() == if 1 <= k < i + 1 then Reset(v[k], IndexOf(alphabet, chars[k - 1]), ring) else v[k]
      {
        if k == i {
          assert slots[k].State() == Reset(v[k], x, ring);
        }
      }
    }

    /** One iteration of the configuration loop: `set` or `setRing` on the
        rotor in slot i with a character of the alphabet. */
    method ConfigureSlot(i: int, c: char, ring: bool)
      requires Valid() && Ready() && 1 <= i < numRotors && c in alphabet
      modifies slots[i]
      ensures Valid()
      ensures slots[i].State() == Reset(old(slots[i].State()), IndexOf(alphabet, c), ring)
      ensures forall k :: 0 <= k < numRotors && k != i ==> slots[k].State() == old(slots[k].State())
    {
      assert slots[i] in catalog;
      assert forall k :: 0 <= k < numRotors && k != i ==> slots[k] != slots[i];
      var done: Outcome;
      if ring {
        done := slots[i].SetRing(c);
      } else {
        done := slots[i].Set(c);
      }
    }

    /** The view equals a row that agrees with every slot's state. */
    lemma {:induction false} ViewIs(w: seq<RotorState>)
      requires Ready() && |w| == numRotors
      requires forall k :: 0 <= k < numRotors ==> slots[k].State() == w[k]
      ensures View() == w
    {
    }

    /** `setPlugboard`: a derangement, or any cycle that is not exactly a
        pair, is refused and leaves the plugboard as it was. */
    method SetPlugboard(p: Permutation) returns (o: Outcome)
      modifies this`plugboard
      ensures o.Pass? <==> PlugboardAccepted(p)
      ensures o.Pass? ==> plugboard == Some(p)
      ensures o.Fail? ==> o.error == BadConfig && plugboard == old(plugboard)
    {
      var deranged := p.Derangement();
      if deranged {
        return Fail(BadConfig);
      }
      var cycles := p.cyclesArr;
      for k := 0 to |cycles|
        invariant forall j :: 0 <= j < k ==> |cycles[j]| == 2
      {
        if |cycles[k]| != 2 {
          return Fail(BadConfig);
        }
      }
      plugboard := Some(p);
      return Pass;
    }

    /** `advRotors`: the first loop collects the rotors to advance from the
        settings before any move, the second advances each collected rotor
        once. */
    method AdvRotors()
      requires Valid() && Ready()
      modifies Rotors()
      ensures Valid() && Ready()
      ensures View() == Step(old(View()), pawls)
    {
      ghost var v := View();
      if pawls == 0 {
        StepNoPawls(v);
        return;
      }
      var chosen := SelectRotors();
      AdvanceEach(chosen);
      ViewIs(Step(v, pawls));
    }

    /** The first loop of `advRotors`: a slot's rotor is collected when some
        iteration over the pawl slots selects it. */
    method SelectRotors() returns (chosen: set<Rotor>)
      requires Valid() && Ready() && pawls > 0
      ensures chosen <= Rotors()
      ensures forall k :: 0 <= k < numRotors ==> (slots[k] in chosen <==> Selected(View(), pawls, k))
    {
      ViewValid();
      chosen := CollectSelected(slots[..], View(), pawls);
    }

    /** The second loop of `advRotors`: every collected rotor advances once,
        in whatever order the set yields them. */
    method AdvanceEach(chosen: set<Rotor>)
      requires Valid() && Ready() && chosen <= Rotors()
      modifies chosen
      ensures Valid() && Ready()
      ensures forall k :: 0 <= k < numRotors ==>
        slots[k].State() == if slots[k] in chosen then old(slots[k].State()).Advanced() else old(slots[k].State())
    {
      ghost var v := View();
      var pending := chosen;
      while pending != {}
        invariant pending <= chosen
        invariant forall r :: r in catalog ==> r.Valid()
        invariant forall k :: 0 <= k < numRotors ==>
          slots[k].State() == if slots[k] in chosen && slots[k] !in pending then v[k].Advanced() else v[k]
        decreases pending
      {
        var r :| r in pending;
        assert r in catalog;
        r.Advance();
        pending := pending - {r};
      }
    }

    /** `convert(int)`: step the rotors, then send the index through the
        plugboard, every slot forward from the right, every slot but the
        reflector backward, and the plugboard again. */
    method Convert(c: int) returns (r: Result<int>)
      requires Valid() && Ready()
      modifies Rotors()
      ensures Valid() && Ready()
      ensures View() == Step(old(View()), pawls)
      ensures r == Signal(View(), plugboard, |alphabet|, c)
    {
      AdvRotors();
      ViewValid();
      r := SignalPath(c);
    }

    /** The part of `convert(int)` after stepping: plugboard, every slot
        forward from the right, every slot but the reflector backward, and
        the plugboard again. It changes nothing. */
    method SignalPath(c: int) returns (r: Result<int>)
      requires Ready() && 1 < numRotors && |alphabet| > 0 && AllValid(View())
      ensures r == Signal(View(), plugboard, |alphabet|, c)
    {
      ghost var v, pb := View(), plugboard;
      var ch := JavaRem(c, |alphabet|);
      var a := PlugStage(ch);
      assert a == Plug(pb, ch);
      if a.Err? {
        return a;
      }
      var b := ForwardLoop(a.value);
      assert View() == v && b == ForwardPass(v, 0, a.value);
      if b.Err? {
        return b;
      }
      var d := BackwardLoop(b.value);
      assert View() == v && d == BackwardPass(v, 1, b.value);
      if d.Err? {
        return d;
      }
      r := PlugStage(d.value);
      assert View() == v && r == Plug(pb, d.value);
    }

    /** Every slot's rotor is in range, over the machine's alphabet. */
    lemma {:induction false} ViewValid()
      requires Valid() && Ready()
      ensures |alphabet| > 0 && AllValid(View())
      ensures forall k :: 0 <= k < numRotors ==> View()[k].perm.alphabet == alphabet
    {
      assert slots[0] in catalog;
      forall k | 0 <= k < numRotors
        ensures View()[k].Valid() && View()[k].perm.alphabet == alphabet
      {
        assert slots[k] in catalog;
      }
    }

    /** The plugboard stage of `convert(int)`, when a plugboard is set. */
    method PlugStage(x: int) returns (r: Result<int>)
      ensures r == Plug(plugboard, x)
    {
      if plugboard.None? {
        return Ok(x);
      }
      r := plugboard.value.Permute(x);
    }

    /** The first loop of `convert(int)`: right to left through every slot. */
    method ForwardLoop(a: int) returns (r: Result<int>)
      requires Ready() && AllValid(View())
      ensures r == ForwardPass(View(), 0, a)
    {
      ghost var v := View();
      var ch := a;
      var i := numRotors - 1;
      while i >= 0
        invariant -1 <= i < numRotors
        invariant ForwardPass(v, i + 1, a) == Ok(ch)
      {
        var next := slots[i].State().ConvertForward(ch);
        if next.Err? {
          ForwardPassFails(v, 0, i, a);
          return Err(next.error);
        }
        ch := next.value;
        i := i - 1;
      }
      return Ok(ch);
    }

    /** The second loop of `convert(int)`: left to right through every slot
        after the reflector. */
    method BackwardLoop(b: int) returns (r: Result<int>)
      requires Ready() && 1 < numRotors && AllValid(View())
      ensures r == BackwardPass(View(), 1, b)
    {
      ghost var v := View();
      var ch := b;
      var j := 1;
      while j < numRotors
        invariant 1 <= j <= numRotors
        invariant BackwardPass(v, 1, b) == BackwardPass(v, j, ch)
      {
        var next := slots[j].State().ConvertBackward(ch);
        if next.Err? {
          return Err(next.error);
        }
        ch := next.value;
        j := j + 1;
      }
      return Ok(ch);
    }

    /** The body of the loop of `convert(String)`. */
    method ConvertChar(x: char) returns (r: Result<char>)
      requires Valid() && Ready()
      modifies Rotors()
      ensures Valid() && Ready()
      ensures (r, View()) == Stroke(old(View()), plugboard, pawls, alphabet, x)
    {
      ViewValid();
      var c := ToInt(alphabet, x);
      if c.Err? {
        return Err(c.error);
      }
      var d := Convert(c.value);
      if d.Err? {
        return Err(d.error);
      }
      r := ToChar(alphabet, d.value);
    }

    /** One pass of the loop in `convert(String)`: the character at `i` is
        converted, and the run still owed moves past it. */
    method ConvertNext(msg: string, i: nat, out: string,
                       ghost whole: (Result<string>, seq<RotorState>)) returns (ch: Result<char>)
      requires Valid() && Ready() && i < |msg|
      requires |alphabet| > 0 && AllValid(View())
      requires whole == Prepend(out, Run(View(), plugboard, pawls, alphabet, msg[i..]))
      modifies Rotors()
      ensures Valid() && Ready() && AllValid(View())
      ensures ch.Err? ==> whole == (Err(ch.error), View())
      ensures ch.Ok? ==> whole == Prepend(out + [ch.value], Run(View(), plugboard, pawls, alphabet, msg[i + 1..]))
    {
      ghost var w := View();
      RunUnfold(w, plugboard, pawls, alphabet, msg, i);
      ch := ConvertChar(msg[i]);
      ViewValid();
      if ch.Ok? {
        PrependTwice(out, ch.value, Run(View(), plugboard, pawls, alphabet, msg[i + 1..]));
      } else {
        assert Prepend(out, (Err(ch.error), View())) == (Err(ch.error), View());
      }
    }

    /** `convert(String)`: each character in turn is turned into an index,
        converted (stepping the rotors) and turned back into a character;
        the first failure ends the conversion. */
    method ConvertMessage(msg: string) returns (r: Result<string>)
      requires Valid() && Ready()
      modifies Rotors()
      ensures Valid() && Ready()
      ensures (r, View()) == Run(old(View()), plugboard, pawls, alphabet, msg)
    {
      ViewValid();
      var out := "";
      var i := 0;
      ghost var whole := Run(View(), plugboard, pawls, alphabet, msg);
      assert msg[i..] == msg;
      assert whole.0.Ok? ==> out + whole.0.value == whole.0.value;
      assert Prepend(out, whole) == whole;
      while i < |msg|
        invariant 0 <= i <= |msg| && Valid() && Ready() && |alphabet| > 0 && AllValid(View())
        invariant whole == Prepend(out, Run(View(), plugboard, pawls, alphabet, msg[i..]))
      {
        var ch := ConvertNext(msg, i, out, whole);
        if ch.Err? {
          return Err(ch.error);
        }
        out := out + [ch.value];
        i := i + 1;
      }
      ghost var v := View();
      assert msg[i..] == [];
      assert Run(v, plugboard, pawls, alphabet, msg[i..]) == (Ok([]), v);
      assert out + [] == out;
      return Ok(out);
    }
  }
}
