/** Rotors (enigma/Rotor.java and enigma/MovingRotor.java). A rotor owns a
    permutation of its alphabet, a setting and a ring setting; a moving rotor
    also has notches and advances one position at a time. The conversions only
    read the rotor, so they are stated on RotorState, the value of a rotor's
    fields; the class Rotor holds the fields that the source updates in place. */
module Rotors {
  import opened Errors
  import opened Alphabets
  import opened Permutations

  /** What kind of rotor this is. The base class neither rotates nor reflects;
      a moving rotor rotates and has notches; a reflector (a subclass that is
      not part of this model) only reports that it reflects. */
  datatype Kind = Fixed(reflects: bool) | Moving(notches: string)

  /** The fields of a rotor. */
  datatype RotorState = RotorState(perm: Permutation, kind: Kind, setting: int, ring: int)
  {
    function Size(): nat {
      perm.Size()
    }

    /** Setting and ring are indices of the alphabet. */
    predicate Valid() {
      Size() > 0 && 0 <= setting < Size() && 0 <= ring < Size()
    }

    /** `rotates()`: only a moving rotor has a ratchet, so a rotor rotates
        exactly when advancing it moves it. */
    predicate Rotates(): (b: bool)
      ensures Valid() && Size() > 1 ==> (b <==> Advanced() != this)
    {
      if kind.Moving? && Valid() then
        assert Advanced().setting == (setting + 1) % Size();
        true
      else kind.Moving?
    }

    /** `reflecting()`: false for the base class and for moving rotors; a
        reflector neither rotates nor ever moves. */
    predicate Reflecting(): (b: bool)
      ensures b ==> !Rotates()
      ensures b && Valid() ==> Advanced() == this
    {
      kind.Fixed? && kind.reflects
    }

    /** `atNotch()`: a moving rotor is at a notch when the alphabet character
        at its setting is one of its notches; the base class never is. */
    predicate AtNotch(): (b: bool)
      requires Valid()
      ensures b ==> Rotates() && perm.alphabet[setting] in kind.notches
    {
      kind.Moving? && perm.alphabet[setting] in kind.notches
    }

    /** `advance()`: a moving rotor moves its setting one position on,
        wrapping; the base class does nothing. */
    function Advanced(): (r: RotorState)
      requires Valid()
      ensures r.Valid()
      ensures r.perm == perm && r.kind == kind && r.ring == ring
      ensures kind.Moving? ==> r.setting == (setting + 1) % Size()
      ensures kind.Fixed? ==> r == this
    {
      if kind.Moving? then
        WrapIsMod(setting + 1, Size());
        this.(setting := Wrap(setting + 1, Size()))
      else this
    }

    /** `convertForward(p)`: shift into the rotor's frame by setting - ring,
        permute, and shift back, each step wrapped into 0..size-1. */
    function ConvertForward(p: int): (r: Result<int>)
      requires Size() > 0
      ensures r.Ok? ==> 0 <= r.value < Size()
    {
      var charIn := Wrap(p + setting - ring, Size());
      var charPerm :- perm.Apply(charIn);
      Ok(Wrap(charPerm - setting + ring, Size()))
    }

    /** `convertBackward(e)`: the same with the inverse permutation. */
    function ConvertBackward(e: int): (r: Result<int>)
      requires Size() > 0
      ensures r.Ok? ==> 0 <= r.value < Size()
    {
      var charIn := Wrap(e + setting - ring, Size());
      var charInvert :- perm.ApplyInverse(charIn);
      Ok(Wrap(charInvert - setting + ring, Size()))
    }
  }

  /** Shifting into the rotor's frame and back out again is no shift. */
  lemma {:induction false} ShiftBack(p: int, d: int, n: int)
    requires 0 <= p < n
    ensures Wrap(Wrap(p + d, n) - d, n) == p
  {
    WrapShift(p + d, -d, n);
    WrapSmall(p, n);
  }

  /** Shifting into the frame of a rotor at (setting, ring) and back. */
  lemma {:induction false} ShiftInOut(p: int, a: int, setting: int, ring: int, n: int)
    requires 0 <= p < n && a == Wrap(p + setting - ring, n)
    ensures Wrap(a - setting + ring, n) == p
  {
    ShiftBack(p, setting - ring, n);
    assert Wrap(p + setting - ring, n) - setting + ring == Wrap(p + (setting - ring), n) - (setting - ring);
  }

  /** Shifting out of the frame of a rotor at (setting, ring) and back. */
  lemma {:induction false} ShiftOutIn(p: int, q: int, setting: int, ring: int, n: int)
    requires 0 <= p < n && q == Wrap(p - setting + ring, n)
    ensures Wrap(q + setting - ring, n) == p
  {
    ShiftBack(p, ring - setting, n);
    assert Wrap(p - setting + ring, n) + setting - ring == Wrap(p + (ring - setting), n) - (ring - setting);
  }

  /** The forward conversion of p, when the permutation maps the shifted
      input a to b. */
  lemma {:induction false} ForwardThrough(s: RotorState, p: int, a: int, b: int, r: int)
    requires s.Valid() && a == Wrap(p + s.setting - s.ring, s.Size())
    requires s.perm.Apply(a) == Ok(b) && r == Wrap(b - s.setting + s.ring, s.Size())
    ensures s.ConvertForward(p) == Ok(r)
  {
    var x := s.perm.Apply(a);
    assert !x.IsFailure() && x.Extract() == b;
  }

  /** The backward conversion of e, when the inverse maps the shifted input
      a to b. */
  lemma {:induction false} BackwardThrough(s: RotorState, e: int, a: int, b: int, r: int)
    requires s.Valid() && a == Wrap(e + s.setting - s.ring, s.Size())
    requires s.perm.ApplyInverse(a) == Ok(b) && r == Wrap(b - s.setting + s.ring, s.Size())
    ensures s.ConvertBackward(e) == Ok(r)
  {
    var x := s.perm.ApplyInverse(a);
    assert !x.IsFailure() && x.Extract() == b;
  }

  /** The second half of a round trip: q, the image of p shifted back out,
      converts (forward or backward) to p when b maps back to a. */
  lemma {:induction false} BackStep(s: RotorState, p: int, a: int, b: int, q: int, forward: bool)
    requires s.Valid() && 0 <= p < s.Size() && 0 <= b < s.Size()
    requires a == Wrap(p + s.setting - s.ring, s.Size())
    requires q == Wrap(b - s.setting + s.ring, s.Size())
    requires s.perm.Map(b, forward) == Ok(a)
    ensures (if forward then s.ConvertForward(q) else s.ConvertBackward(q)) == Ok(p)
  {
    var n := s.Size();
    ShiftOutIn(b, q, s.setting, s.ring, n);
    ShiftInOut(p, a, s.setting, s.ring, n);
    if forward {
      ForwardThrough(s, q, b, a, p);
    } else {
      BackwardThrough(s, q, b, a, p);
    }
  }

  /** When the permutation maps a to b and back, the conversions undo each
      other on the input p that shifts to a. */
  lemma {:induction false} UndoForward(s: RotorState, p: int, a: int, b: int)
    requires s.Valid() && 0 <= p < s.Size() && 0 <= b < s.Size()
    requires a == Wrap(p + s.setting - s.ring, s.Size())
    requires s.perm.Apply(a) == Ok(b) && s.perm.ApplyInverse(b) == Ok(a)
    ensures s.ConvertForward(p).Ok?
    ensures s.ConvertBackward(s.ConvertForward(p).value) == Ok(p)
  {
    var q := Wrap(b - s.setting + s.ring, s.Size());
    ForwardThrough(s, p, a, b, q);
    BackStep(s, p, a, b, q, false);
  }

  /** When the inverse maps a to b and the permutation maps b back, the
      conversions undo each other on the input e that shifts to a. */
  lemma {:induction false} UndoBackward(s: RotorState, e: int, a: int, b: int)
    requires s.Valid() && 0 <= e < s.Size() && 0 <= b < s.Size()
    requires a == Wrap(e + s.setting - s.ring, s.Size())
    requires s.perm.ApplyInverse(a) == Ok(b) && s.perm.Apply(b) == Ok(a)
    ensures s.ConvertBackward(e).Ok?
    ensures s.ConvertForward(s.ConvertBackward(e).value) == Ok(e)
  {
    var q := Wrap(b - s.setting + s.ring, s.Size());
    BackwardThrough(s, e, a, b, q);
    BackStep(s, e, a, b, q, true);
  }

  /** `convertBackward(convertForward(p)) == p` for every setting and ring. */
  lemma {:induction false} BackwardAfterForward(s: RotorState, p: int)
    requires s.Valid() && s.perm.WellFormed() && 0 <= p < s.Size()
    ensures s.ConvertForward(p).Ok?
    ensures s.ConvertBackward(s.ConvertForward(p).value) == Ok(p)
  {
    var a := Wrap(p + s.setting - s.ring, s.Size());
    InvertPermute(s.perm, a);
    UndoForward(s, p, a, s.perm.Apply(a).value);
  }

  /** `convertForward(convertBackward(e)) == e` for every setting and ring. */
  lemma {:induction false} ForwardAfterBackward(s: RotorState, e: int)
    requires s.Valid() && s.perm.WellFormed() && 0 <= e < s.Size()
    ensures s.ConvertBackward(e).Ok?
    ensures s.ConvertForward(s.ConvertBackward(e).value) == Ok(e)
  {
    var a := Wrap(e + s.setting - s.ring, s.Size());
    PermuteInvert(s.perm, a);
    UndoBackward(s, e, a, s.perm.ApplyInverse(a).value);
  }

  /** A rotor whose permutation only swaps pairs (a reflector) converts the
      same way in both directions, so converting twice gives back p. */
  lemma {:induction false} SwapsConvertSelfInverse(s: RotorState, p: int)
    requires s.Valid() && s.perm.WellFormed() && s.perm.OnlySwaps() && 0 <= p < s.Size()
    ensures s.ConvertForward(p) == s.ConvertBackward(p)
    ensures s.ConvertForward(p).Ok? && s.ConvertForward(s.ConvertForward(p).value) == Ok(p)
  {
    SwapsAgree(s, p);
    BackwardAfterForward(s, p);
    SwapsAgree(s, s.ConvertForward(p).value);
  }

  /** With a swaps-only permutation both conversions agree. */
  lemma {:induction false} SwapsAgree(s: RotorState, p: int)
    requires s.Valid() && s.perm.WellFormed() && s.perm.OnlySwaps() && 0 <= p < s.Size()
    ensures s.ConvertForward(p) == s.ConvertBackward(p)
  {
    var a := Wrap(p + s.setting - s.ring, s.Size());
    SwapsSymmetric(s.perm, a);
    InvertPermute(s.perm, a);
    var b := s.perm.Apply(a).value;
    var r := Wrap(b - s.setting + s.ring, s.Size());
    ForwardThrough(s, p, a, b, r);
    BackwardThrough(s, p, a, b, r);
  }

  /** The rotor after k calls of `advance()`. */
  function AdvancedTimes(s: RotorState, k: nat): (r: RotorState)
    requires s.Valid()
    ensures r.Valid()
  {
    if k == 0 then s else AdvancedTimes(s, k - 1).Advanced()
  }

  /** After k advances a moving rotor stands k positions further on. */
  lemma {:induction false} AdvancedTimesSetting(s: RotorState, k: nat)
    requires s.Valid() && s.kind.Moving?
    ensures AdvancedTimes(s, k) == s.(setting := Wrap(s.setting + k, s.Size()))
  {
    var n := s.Size();
    if k == 0 {
      WrapSmall(s.setting, n);
    } else {
      AdvancedTimesSetting(s, k - 1);
      WrapShift(s.setting + k - 1, 1, n);
      WrapIsMod(Wrap(s.setting + k - 1, n) + 1, n);
    }
  }

  /** After `size` advances every rotor is back where it started. */
  lemma {:induction false} FullTurn(s: RotorState)
    requires s.Valid()
    ensures AdvancedTimes(s, s.Size()) == s
  {
    var n := s.Size();
    if s.kind.Moving? {
      AdvancedTimesSetting(s, n);
      WrapShift(n, s.setting, n);
      WrapSmall(0, n);
      WrapDivision(n, n);
      WrapSmall(s.setting, n);
    } else {
      FixedNeverMoves(s, n);
    }
  }

  /** Every notch of a moving rotor that names a character of its alphabet
      is reached within one revolution: after the number of advances that
      carries the setting to that character, the rotor is at a notch. */
  lemma {:induction false} NotchReached(s: RotorState, c: char)
    requires s.Valid() && s.kind.Moving? && c in s.kind.notches && c in s.perm.alphabet
    ensures var k := Wrap(IndexOf(s.perm.alphabet, c) - s.setting, s.Size());
      0 <= k < s.Size() && AdvancedTimes(s, k).AtNotch()
  {
    var n := s.Size();
    var i := IndexOf(s.perm.alphabet, c);
    var k := Wrap(i - s.setting, n);
    var t := AdvancedTimes(s, k);
    assert t.setting == Wrap(k + s.setting, n) && t.perm == s.perm && t.kind == s.kind by {
      AdvancedTimesSetting(s, k);
    }
    assert Wrap(k + s.setting, n) == i by {
      WrapShift(i - s.setting, s.setting, n);
      WrapSmall(i, n);
    }
    assert s.perm.alphabet[i] == c;
  }

  /** A rotor that does not rotate keeps its setting however often it is
      told to advance. */
  lemma {:induction false} FixedNeverMoves(s: RotorState, k: nat)
    requires s.Valid() && s.kind.Fixed?
    ensures AdvancedTimes(s, k) == s
  {
    if k > 0 {
      FixedNeverMoves(s, k - 1);
    }
  }

  /** A rotor object. Its name, permutation and kind never change; `set`,
      `setRing` and `advance` update its setting and ring in place. */
  class Rotor {
    const name: string
    const perm: Permutation
    const kind: Kind
    var setting: int
    var ring: int

    /** The rotor's fields as a value. */
    function State(): RotorState
      reads this
    {
      RotorState(perm, kind, setting, ring)
    }

    ghost predicate Valid()
      reads this
    {
      State().Valid()
    }

    /** A new rotor starts at setting 0 with ring 0. */
    constructor (name: string, perm: Permutation, kind: Kind)
      requires perm.Size() > 0
      ensures this.name == name && this.perm == perm && this.kind == kind
      ensures setting == 0 && ring == 0
      ensures Valid()
    {
      this.name := name;
      this.perm := perm;
      this.kind := kind;
      setting := 0;
      ring := 0;
    }

    /** `set(char)`: the setting becomes the index of c; a character outside
        the alphabet fails and changes nothing. */
    method Set(c: char) returns (o: Outcome)
      requires Valid()
      modifies this
      ensures Valid()
      ensures o.Pass? <==> c in perm.alphabet
      ensures o.Fail? ==> o.error == NotInAlphabet && State() == old(State())
      ensures o.Pass? ==> State() == old(State()).(setting := IndexOf(perm.alphabet, c))
      ensures o.Pass? ==> perm.alphabet[setting] == c
    {
      var i := ToInt(perm.alphabet, c);
      if i.Err? {
        return Fail(i.error);
      }
      setting := i.value;
      return Pass;
    }

    /** `setRing(char)`: the ring becomes the index of c; a character outside
        the alphabet fails and changes nothing. */
    method SetRing(c: char) returns (o: Outcome)
      requires Valid()
      modifies this
      ensures Valid()
      ensures o.Pass? <==> c in perm.alphabet
      ensures o.Fail? ==> o.error == NotInAlphabet && State() == old(State())
      ensures o.Pass? ==> State() == old(State()).(ring := IndexOf(perm.alphabet, c))
      ensures o.Pass? ==> perm.alphabet[ring] == c
    {
      var i := ToInt(perm.alphabet, c);
      if i.Err? {
        return Fail(i.error);
      }
      ring := i.value;
      return Pass;
    }

    /** `set(int)`: the setting becomes posn. */
    method SetPosition(posn: int)
      requires Valid() && 0 <= posn < perm.Size()
      modifies this
      ensures Valid()
      ensures State() == old(State()).(setting := posn)
    {
      setting := posn;
    }

    /** `advance()`: a moving rotor steps one position, the base class
        stays put. */
    method Advance()
      requires Valid()
      modifies this
      ensures Valid()
      ensures State() == old(State()).Advanced()
    {
      if kind.Moving? {
        SetPosition(Wrap(setting + 1, perm.Size()));
      }
    }
  }
}
