/** A permutation of the indices 0..size-1 of an alphabet, given in cycle
    notation such as "(BAD) (CE)" (enigma/Permutation.java). A permutation is
    immutable once built: it is a value holding its alphabet, the notation it
    was built from, and the cycle strings parsed out of that notation. */
module Permutations {
  import opened Errors
  import opened Alphabets

  // ---------------------------------------------------------------------
  // Modular arithmetic of the source
  // ---------------------------------------------------------------------

  /** Java's `%`: the remainder of a division truncated toward zero, so it
      has the sign of p. It is computed by repeated subtraction here;
      JavaRemIsRem relates it to Dafny's `%`. */
  function JavaRem(p: int, n: int): (r: int)
    requires n > 0
    ensures -n < r < n
    ensures p >= 0 ==> r >= 0
    ensures p <= 0 ==> r <= 0
    decreases if p >= 0 then 2 * p else 2 * -p + 1
  {
    if p < 0 then -JavaRem(-p, n)
    else if p < n then p
    else JavaRem(p - n, n)
  }

  /** Java's `/`: the quotient truncated toward zero, computed by the same
      repeated subtraction as JavaRem. */
  function JavaQuot(p: int, n: int): int
    requires n > 0
    decreases if p >= 0 then 2 * p else 2 * -p + 1
  {
    if p < 0 then -JavaQuot(-p, n)
    else if p < n then 0
    else 1 + JavaQuot(p - n, n)
  }

  /** Java's quotient and remainder put p back together. */
  lemma {:induction false} JavaDivision(p: int, n: int)
    requires n > 0
    ensures p == n * JavaQuot(p, n) + JavaRem(p, n)
    decreases if p >= 0 then 2 * p else 2 * -p + 1
  {
    if p < 0 {
      JavaDivision(-p, n);
      var q := JavaQuot(-p, n);
      assert n * -q == -(n * q);
    } else if p >= n {
      JavaDivision(p - n, n);
      var q := JavaQuot(p - n, n);
      assert n * (q + 1) == n * q + n;
    }
  }

  /** The truncated remainder and quotient are Dafny's remainder and
      quotient of |p|, signed like p. */
  lemma {:induction false} JavaRemIsRem(p: int, n: int)
    requires n > 0
    ensures JavaRem(p, n) == if p >= 0 then p % n else -((-p) % n)
    ensures JavaQuot(p, n) == if p >= 0 then p / n else -((-p) / n)
  {
    var a := if p >= 0 then p else -p;
    JavaDivision(a, n);
    RemainderUnique(a, n, JavaQuot(a, n), JavaRem(a, n), a / n, a % n);
  }

  /** `wrap`: the source adds n to a negative Java remainder, so that the
      result lies in 0..n-1. */
  function Wrap(p: int, n: int): (r: int)
    requires n > 0
    ensures 0 <= r < n
  {
    var t := JavaRem(p, n);
    if t < 0 then t + n else t
  }

  lemma {:induction false} MulSign(n: int, d: int)
    requires n > 0
    ensures d >= 1 ==> n * d >= n
    ensures d <= -1 ==> n * d <= -n
  {
  }

  /** Division by n > 0 has one quotient and one remainder in 0..n-1. */
  lemma {:induction false} RemainderUnique(p: int, n: int, q1: int, r1: int, q2: int, r2: int)
    requires n > 0 && 0 <= r1 < n && 0 <= r2 < n
    requires p == n * q1 + r1 && p == n * q2 + r2
    ensures q1 == q2 && r1 == r2
  {
    assert n * (q1 - q2) == r2 - r1;
    MulSign(n, q1 - q2);
  }

  /** The quotient that goes with `wrap`: one less than Java's when the
      Java remainder is negative. */
  function WrapQuot(p: int, n: int): int
    requires n > 0
  {
    if JavaRem(p, n) < 0 then JavaQuot(p, n) - 1 else JavaQuot(p, n)
  }

  lemma {:induction false} WrapDivision(p: int, n: int)
    requires n > 0
    ensures p == n * WrapQuot(p, n) + Wrap(p, n)
  {
    JavaDivision(p, n);
  }

  /** `wrap(p)` is the value in 0..n-1 congruent to p modulo n, negative p
      included: the remainder of floor division, which is Dafny's `%`. */
  lemma {:induction false} WrapIsMod(p: int, n: int)
    requires n > 0
    ensures Wrap(p, n) == p % n
  {
    WrapDivision(p, n);
    RemainderUnique(p, n, WrapQuot(p, n), Wrap(p, n), p / n, p % n);
  }

  /** `wrap` leaves an index already in range alone. */
  lemma {:induction false} WrapSmall(p: int, n: int)
    requires 0 <= p < n
    ensures Wrap(p, n) == p
  {
    WrapDivision(p, n);
    RemainderUnique(p, n, WrapQuot(p, n), Wrap(p, n), 0, p);
  }

  /** Wrapping an intermediate sum changes nothing modulo n. */
  lemma {:induction false} WrapShift(x: int, y: int, n: int)
    requires n > 0
    ensures Wrap(Wrap(x, n) + y, n) == Wrap(x + y, n)
  {
    var a := Wrap(x, n);
    WrapDivision(x, n);
    WrapDivision(a + y, n);
    WrapDivision(x + y, n);
    SameRemainder(x, y, n, WrapQuot(x, n), a, WrapQuot(a + y, n), Wrap(a + y, n),
                  WrapQuot(x + y, n), Wrap(x + y, n));
  }

  lemma {:induction false} SameRemainder(x: int, y: int, n: int, qa: int, a: int, q1: int, r1: int, q2: int, r2: int)
    requires n > 0 && 0 <= r1 < n && 0 <= r2 < n
    requires x == n * qa + a && a + y == n * q1 + r1 && x + y == n * q2 + r2
    ensures r1 == r2
  {
    assert x + y == n * (qa + q1) + r1;
    RemainderUnique(x + y, n, qa + q1, r1, q2, r2);
  }

  // ---------------------------------------------------------------------
  // Cycle notation
  // ---------------------------------------------------------------------

  /** Characters i and i+1 of s form "()", "((" or "))". */
  predicate BadPairAt(s: string, i: int)
    requires 0 <= i < |s| - 1
  {
    (s[i] == '(' && s[i + 1] == ')') || (s[i] == '(' && s[i + 1] == '(')
    || (s[i] == ')' && s[i + 1] == ')')
  }

  /** No adjacent "()", "((" or "))" anywhere in s. */
  predicate WellDelimited(s: string) {
    forall i :: 0 <= i < |s| - 1 ==> !BadPairAt(s, i)
  }

  /** The alphabet holds one of the characters that cycle notation reserves. */
  predicate HasReservedChar(a: Alphabet) {
    '(' in a || ')' in a || ' ' in a
  }

  /** s with every space removed (String.replaceAll(" ", "")). */
  function RemoveSpaces(s: string): (r: string)
    ensures ' ' !in r
    ensures forall c :: c != ' ' ==> multiset(r)[c] == multiset(s)[c]
  {
    if s == [] then []
    else
      assert s == [s[0]] + s[1..];
      (if s[0] == ' ' then [] else [s[0]]) + RemoveSpaces(s[1..])
  }

  lemma {:induction false} RemoveSpacesNone(s: string)
    requires ' ' !in s
    ensures RemoveSpaces(s) == s
  {
    if s != [] {
      RemoveSpacesNone(s[1..]);
    }
  }

  /** The pieces of s between occurrences of d, in order, with every empty
      piece kept. */
  function Pieces(s: string, d: char): (r: seq<string>)
    ensures |r| >= 1
    ensures forall k :: 0 <= k < |r| ==> d !in r[k]
    ensures Join(r, d) == s
    decreases |s|
  {
    var k := IndexOf(s, d);
    if k == -1 then [s]
    else
      var rest := Pieces(s[k + 1..], d);
      var r := [s[..k]] + rest;
      assert r[0] == s[..k] && r[1..] == rest && d !in s[..k];
      assert forall j :: 1 <= j < |r| ==> r[j] == rest[j - 1];
      assert Join(r, d) == s by {
        assert s == s[..k] + [d] + s[k + 1..];
      }
      r
  }

  /** The pieces put back together with d between consecutive pieces. */
  function Join(pieces: seq<string>, d: char): string
    requires |pieces| >= 1
  {
    if |pieces| == 1 then pieces[0] else pieces[0] + [d] + Join(pieces[1..], d)
  }

  /** Every character of a piece occurs in the joined string. */
  lemma {:induction false} JoinedPieceIn(pieces: seq<string>, d: char, k: int)
    requires 0 <= k < |pieces|
    ensures forall c :: c in pieces[k] ==> c in Join(pieces, d)
  {
    if k > 0 {
      JoinedPieceIn(pieces[1..], d, k - 1);
    }
  }

  /** pieces without its trailing empty strings. */
  function DropTrailingEmpty(pieces: seq<string>): (r: seq<string>)
    ensures |r| <= |pieces| && r == pieces[..|r|]
    ensures r == [] || r[|r| - 1] != ""
    ensures forall k :: |r| <= k < |pieces| ==> pieces[k] == ""
  {
    if pieces != [] && pieces[|pieces| - 1] == "" then
      DropTrailingEmpty(pieces[..|pieces| - 1])
    else pieces
  }

  /** m empty strings. */
  function Blanks(m: nat): (r: seq<string>)
    ensures |r| == m && forall k :: 0 <= k < m ==> r[k] == ""
  {
    seq(m, _ => "")
  }

  /** Java's String.split on the single character d: the whole string when
      d does not occur, otherwise the pieces without the trailing empty ones.
      Putting the dropped empty pieces back and joining with d gives s. */
  function Split(s: string, d: char): (r: seq<string>)
    ensures d !in s ==> r == [s]
    ensures d in s ==> r == [] || r[|r| - 1] != ""
    ensures exists m: nat :: |r| + m >= 1 && Join(r + Blanks(m), d) == s
    ensures forall k :: 0 <= k < |r| ==> d !in r[k]
    ensures forall k, c :: 0 <= k < |r| && c in r[k] ==> c in s
  {
    if d !in s then
      assert [s] + Blanks(0) == [s];
      [s]
    else
      var all := Pieces(s, d);
      var r := DropTrailingEmpty(all);
      assert r + Blanks(|all| - |r|) == all;
      assert forall k, c :: 0 <= k < |r| && c in r[k] ==> c in s by {
        forall k | 0 <= k < |r| ensures forall c :: c in r[k] ==> c in s {
          assert r[k] == all[k];
          JoinedPieceIn(all, d, k);
        }
      }
      r
  }

  /** The piece without its first character (the opening parenthesis). */
  function DropFirst(s: string): string {
    if |s| > 0 then s[1..] else s
  }

  function DropFirsts(pieces: seq<string>): (r: seq<string>)
    ensures |r| == |pieces|
    ensures forall k :: 0 <= k < |r| ==> r[k] == DropFirst(pieces[k])
  {
    if pieces == [] then [] else [DropFirst(pieces[0])] + DropFirsts(pieces[1..])
  }

  /** `cyclesArr`: remove spaces, split on ')', and drop the first character
      of every non-empty piece. What remains has no space and no ')'. */
  function CyclesArr(cycles: string): (r: seq<string>)
    ensures forall k :: 0 <= k < |r| ==> ' ' !in r[k] && ')' !in r[k]
  {
    var pieces := Split(RemoveSpaces(cycles), ')');
    var r := DropFirsts(pieces);
    assert forall k :: 0 <= k < |r| ==> ' ' !in r[k] && ')' !in r[k] by {
      forall k, c | 0 <= k < |r| && c in r[k] ensures c != ' ' && c != ')' {
        assert c in pieces[k];
      }
    }
    r
  }

  /** A cycle that can be written in the notation: non-empty, with no
      parenthesis and no space. */
  predicate PlainCycle(c: string) {
    |c| > 0 && '(' !in c && ')' !in c && ' ' !in c
  }

  /** The notation for cs: each cycle in parentheses, separated by spaces. */
  function Notation(cs: seq<string>): string {
    if cs == [] then ""
    else if |cs| == 1 then "(" + cs[0] + ")"
    else "(" + cs[0] + ") " + Notation(cs[1..])
  }

  /** Notation(cs) with its spaces removed. */
  function Compact(cs: seq<string>): string {
    if cs == [] then "" else "(" + cs[0] + ")" + Compact(cs[1..])
  }

  /** Each cycle behind its opening parenthesis. */
  function Opened(cs: seq<string>): (r: seq<string>)
    ensures |r| == |cs|
    ensures forall k :: 0 <= k < |cs| ==> r[k] == "(" + cs[k]
  {
    if cs == [] then [] else ["(" + cs[0]] + Opened(cs[1..])
  }

  lemma {:induction false} NotationCompact(cs: seq<string>)
    requires forall k :: 0 <= k < |cs| ==> PlainCycle(cs[k])
    ensures RemoveSpaces(Notation(cs)) == Compact(cs)
  {
    if |cs| == 1 {
      var head := "(" + cs[0] + ")";
      assert Compact(cs) == head by {
        assert cs[1..] == [];
      }
      assert PlainCycle(cs[0]);
      RemoveSpacesNone(head);
    } else if cs != [] {
      NotationCompact(cs[1..]);
      NotationCompactStep(cs);
    }
  }

  /** One cycle in front: its space goes and its parenthesised text stays. */
  lemma {:induction false} NotationCompactStep(cs: seq<string>)
    requires |cs| > 1 && PlainCycle(cs[0])
    requires RemoveSpaces(Notation(cs[1..])) == Compact(cs[1..])
    ensures RemoveSpaces(Notation(cs)) == Compact(cs)
  {
    var head := "(" + cs[0] + ")";
    assert Notation(cs) == head + " " + Notation(cs[1..]);
    RemoveSpacesPlain(head, Notation(cs[1..]));
  }

  /** Removing spaces from a space-free x, a space and y keeps x and
      removes the spaces of y. */
  lemma {:induction false} RemoveSpacesPlain(x: string, y: string)
    requires ' ' !in x
    ensures RemoveSpaces(x + " " + y) == x + RemoveSpaces(y)
  {
    var s := x + " " + y;
    if x == [] {
      assert s[0] == ' ' && s[1..] == y;
    } else {
      assert s[0] == x[0] && s[1..] == x[1..] + " " + y;
      RemoveSpacesPlain(x[1..], y);
      assert [x[0]] + (x[1..] + RemoveSpaces(y)) == x + RemoveSpaces(y);
    }
  }

  /** A string that starts with a delimiter-free x and a delimiter splits
      into x and the pieces of the remainder. */
  lemma {:induction false} PiecesAfter(x: string, d: char, y: string)
    requires d !in x
    ensures Pieces(x + [d] + y, d) == [x] + Pieces(y, d)
  {
    var s := x + [d] + y;
    assert s[..|x|] == x;
    IndexOfAt(s, d, |x|);
    assert s[|x| + 1..] == y;
  }

  /** Splitting the compact notation on ')' gives every cycle behind its
      '(' and one empty piece after the last ')'. */
  lemma {:induction false} PiecesOfCompact(cs: seq<string>)
    requires forall k :: 0 <= k < |cs| ==> PlainCycle(cs[k])
    ensures Pieces(Compact(cs), ')') == Opened(cs) + [""]
  {
    if cs == [] {
      assert Compact(cs) == "";
      assert IndexOf("", ')') == -1;
    } else {
      PiecesOfCompact(cs[1..]);
      PiecesOfCompactStep(cs);
    }
  }

  /** The step of PiecesOfCompact: the first cycle comes off as one piece. */
  lemma {:induction false} PiecesOfCompactStep(cs: seq<string>)
    requires |cs| > 0 && PlainCycle(cs[0])
    requires Pieces(Compact(cs[1..]), ')') == Opened(cs[1..]) + [""]
    ensures Pieces(Compact(cs), ')') == Opened(cs) + [""]
  {
    var first := "(" + cs[0];
    var rest := Compact(cs[1..]);
    var later := Opened(cs[1..]);
    assert Pieces(Compact(cs), ')') == [first] + (later + [""]) by {
      assert Compact(cs) == first + [')'] + rest;
      PiecesAfter(first, ')', rest);
    }
    assert Opened(cs) + [""] == [first] + (later + [""]) by {
      assert Opened(cs) == [first] + later;
    }
  }

  lemma {:induction false} CompactHasClose(cs: seq<string>)
    requires |cs| > 0
    ensures ')' in Compact(cs)
  {
    var s := Compact(cs);
    assert s == ("(" + cs[0]) + ")" + Compact(cs[1..]);
    assert s[|cs[0]| + 1] == ')';
  }

  lemma {:induction false} DropOneTrailingEmpty(pieces: seq<string>)
    requires |pieces| > 0 && pieces[|pieces| - 1] != ""
    ensures DropTrailingEmpty(pieces + [""]) == pieces
  {
    assert (pieces + [""])[..|pieces|] == pieces;
  }

  lemma {:induction false} SplitCompact(cs: seq<string>)
    requires |cs| > 0
    requires forall k :: 0 <= k < |cs| ==> PlainCycle(cs[k])
    ensures Split(Compact(cs), ')') == Opened(cs)
  {
    var s := Compact(cs);
    var heads := Opened(cs);
    PiecesOfCompact(cs);
    CompactHasClose(cs);
    assert heads[|heads| - 1] == "(" + cs[|cs| - 1];
    DropOneTrailingEmpty(heads);
    SplitWhenPresent(s, ')');
  }

  lemma {:induction false} SplitWhenPresent(s: string, d: char)
    requires d in s
    ensures Split(s, d) == DropTrailingEmpty(Pieces(s, d))
  {
  }

  lemma {:induction false} DropFirstsOpened(cs: seq<string>)
    ensures DropFirsts(Opened(cs)) == cs
  {
    var r := DropFirsts(Opened(cs));
    forall k | 0 <= k < |cs| ensures r[k] == cs[k] {
      assert ("(" + cs[k])[1..] == cs[k];
    }
  }

  /** Parsing undoes writing: the cycles written in the notation come back
      out of `cyclesArr` unchanged. */
  lemma {:induction false} ParseNotation(cs: seq<string>)
    requires |cs| > 0
    requires forall k :: 0 <= k < |cs| ==> PlainCycle(cs[k])
    ensures CyclesArr(Notation(cs)) == cs
  {
    NotationCompact(cs);
    SplitCompact(cs);
    DropFirstsOpened(cs);
  }

  /** The notation of cycles that are non-empty and free of parentheses never
      has "()", "((" or "))". */
  lemma {:induction false} NotationWellDelimited(cs: seq<string>)
    requires forall k :: 0 <= k < |cs| ==> PlainCycle(cs[k])
    ensures WellDelimited(Notation(cs))
  {
    if |cs| > 1 {
      NotationWellDelimited(cs[1..]);
      var head := "(" + cs[0] + ") ";
      var s := Notation(cs);
      assert s == head + Notation(cs[1..]);
      forall i | 0 <= i < |s| - 1 ensures !BadPairAt(s, i) {
        if i + 1 < |head| {
          assert s[i] == head[i] && s[i + 1] == head[i + 1];
        } else if i + 1 == |head| {
          assert s[i] == ' ';
        } else {
          assert s[i] == Notation(cs[1..])[i - |head|];
          assert s[i + 1] == Notation(cs[1..])[i + 1 - |head|];
          assert !BadPairAt(Notation(cs[1..]), i - |head|);
        }
      }
    } else if |cs| == 1 {
      var s := Notation(cs);
      forall i | 0 <= i < |s| - 1 ensures !BadPairAt(s, i) {
        if i > 0 {
          assert s[i] == cs[0][i - 1];
        }
      }
    }
  }

  // ---------------------------------------------------------------------
  // Stepping through one cycle
  // ---------------------------------------------------------------------

  /** The neighbour of c in cycle: the next character (the first after the
      last) when forward, the previous one (the last before the first)
      otherwise; a one-character cycle maps c to itself. */
  function Neighbour(cycle: string, c: char, forward: bool): char
    requires c in cycle
  {
    var k := IndexOf(cycle, c);
    if |cycle| == 1 then c
    else if forward then (if k == |cycle| - 1 then cycle[0] else cycle[k + 1])
    else (if k == 0 then cycle[|cycle| - 1] else cycle[k - 1])
  }

  /** The position after k in a ring of n positions (before k when not
      forward), wrapping around at the ends. */
  function Along(k: int, n: int, forward: bool): (r: int)
    requires 0 <= k < n
    ensures 0 <= r < n
  {
    if forward then (if k == n - 1 then 0 else k + 1)
    else (if k == 0 then n - 1 else k - 1)
  }

  /** Moving one position along a ring and one position back is no move. */
  lemma {:induction false} AlongBack(k: int, n: int, forward: bool)
    requires 0 <= k < n
    ensures Along(Along(k, n, forward), n, !forward) == k
  {
  }

  /** Position k of a cycle steps to position k+1 (k-1 backward), wrapping. */
  lemma {:induction false} NeighbourAt(cycle: string, k: int, forward: bool)
    requires Distinct(cycle) && 0 <= k < |cycle|
    ensures Neighbour(cycle, cycle[k], forward) == cycle[Along(k, |cycle|, forward)]
  {
    IndexOfDistinct(cycle, k);
  }

  /** Stepping forward and then backward inside one cycle returns to c. */
  lemma {:induction false} NeighbourRoundTrip(cycle: string, c: char, forward: bool)
    requires Distinct(cycle) && c in cycle
    ensures Neighbour(cycle, c, forward) in cycle
    ensures Neighbour(cycle, Neighbour(cycle, c, forward), !forward) == c
  {
    var k := IndexOf(cycle, c);
    NeighbourAt(cycle, k, forward);
    var k' := Along(k, |cycle|, forward);
    NeighbourAt(cycle, k', !forward);
    AlongBack(k, |cycle|, forward);
  }

  /** In a cycle of at most two characters, next and previous coincide. */
  lemma {:induction false} NeighbourOfSwap(cycle: string, c: char)
    requires Distinct(cycle) && c in cycle && |cycle| <= 2
    ensures Neighbour(cycle, c, true) == Neighbour(cycle, c, false)
  {
  }

  // ---------------------------------------------------------------------
  // The loop over all cycles
  // ---------------------------------------------------------------------

  /** What the source's loop over the cycles leaves in `chTo`: the neighbour
      of c in the last cycle that contains c, or '\0' when no cycle does. */
  function Image(cycles: seq<string>, c: char, forward: bool): char {
    if cycles == [] then '\0'
    else
      var last := cycles[|cycles| - 1];
      if c in last then Neighbour(last, c, forward)
      else Image(cycles[..|cycles| - 1], c, forward)
  }

  /** Some cycle contains c. */
  predicate Covered(cycles: seq<string>, c: char) {
    exists k :: 0 <= k < |cycles| && c in cycles[k]
  }

  /** No character lies in two cycles. */
  predicate Disjoint(cycles: seq<string>) {
    forall a, b, c :: 0 <= a < b < |cycles| && c in cycles[a] ==> c !in cycles[b]
  }

  /** With disjoint cycles, the cycle holding c decides its image. */
  lemma {:induction false} ImageInCycle(cycles: seq<string>, c: char, j: int, forward: bool)
    requires Disjoint(cycles) && 0 <= j < |cycles| && c in cycles[j]
    ensures Image(cycles, c, forward) == Neighbour(cycles[j], c, forward)
  {
    var n := |cycles|;
    if j < n - 1 {
      assert c !in cycles[n - 1];
      var init := cycles[..n - 1];
      assert init[j] == cycles[j];
      ImageInCycle(init, c, j, forward);
    }
  }

  /** A character in no cycle leaves the sentinel '\0' in place. */
  lemma {:induction false} ImageUncovered(cycles: seq<string>, c: char, forward: bool)
    requires !Covered(cycles, c)
    ensures Image(cycles, c, forward) == '\0'
  {
    if cycles != [] {
      var init := cycles[..|cycles| - 1];
      assert !Covered(init, c) by {
        forall k | 0 <= k < |init| ensures c !in init[k] {
          assert init[k] == cycles[k];
        }
      }
      ImageUncovered(init, c, forward);
    }
  }

  /** Summed length of all cycle strings. */
  function TotalLength(cycles: seq<string>): nat {
    if cycles == [] then 0
    else TotalLength(cycles[..|cycles| - 1]) + |cycles[|cycles| - 1]|
  }

  /** The characters that occur in some cycle. */
  function CoveredSet(cycles: seq<string>): (r: set<char>)
    ensures forall c :: c in r <==> Covered(cycles, c)
  {
    if cycles == [] then {}
    else
      var n := |cycles|;
      var init, last := cycles[..n - 1], cycles[n - 1];
      var r := CoveredSet(init) + Chars(last);
      assert forall k :: 0 <= k < n - 1 ==> init[k] == cycles[k];
      assert forall c :: Covered(cycles, c) ==> c in r by {
        forall c | Covered(cycles, c) ensures c in r {
          var k :| 0 <= k < n && c in cycles[k];
          if k < n - 1 {
            assert c in init[k];
          }
        }
      }
      r
  }

  // ---------------------------------------------------------------------
  // The permutation
  // ---------------------------------------------------------------------

  datatype Permutation = Permutation(alphabet: Alphabet, cycles: string, cyclesArr: seq<string>)
  {
    /** `size()`: the size of the alphabet permuted. */
    function Size(): (r: nat)
      ensures r == Alphabets.Size(alphabet)
    {
      |alphabet|
    }

    /** `wrap` of the source, modulo the alphabet size. */
    function WrapIndex(p: int): (r: int)
      requires Size() > 0
      ensures 0 <= r < Size()
    {
      Wrap(p, Size())
    }

    /** The body shared by `permute(int)` (forward) and `invert(int)`: fails
        outside 0..size-1; otherwise looks up the neighbour of character p
        in its cycle and returns its index, or p itself when no cycle
        holds that character. */
    function Map(p: int, forward: bool): (r: Result<int>)
      ensures (p < 0 || p >= Size()) ==> r == Err(IndexOutOfRange)
      ensures r.Ok? ==> 0 <= r.value < Size()
    {
      if p < 0 || p > Size() - 1 then Err(IndexOutOfRange)
      else
        var chFr := ToChar(alphabet, WrapIndex(p)).value;
        var chTo := Image(cyclesArr, chFr, forward);
        if chTo == '\0' then ToInt(alphabet, chFr) else ToInt(alphabet, chTo)
    }

    /** `permute(int)`. */
    function Apply(p: int): Result<int> {
      Map(p, true)
    }

    /** `invert(int)`. */
    function ApplyInverse(c: int): Result<int> {
      Map(c, false)
    }

    /** `permute(char)`: fails on a character outside the alphabet. */
    function PermuteChar(c: char): (r: Result<char>)
      ensures c !in alphabet ==> r == Err(NotInAlphabet)
      ensures r.Ok? ==> r.value in alphabet
    {
      if !Contains(alphabet, c) then Err(NotInAlphabet)
      else
        var indexFr := ToInt(alphabet, c).value;
        var indexTo :- Apply(indexFr);
        ToChar(alphabet, indexTo)
    }

    /** `invert(char)`: fails on a character outside the alphabet. */
    function InvertChar(c: char): (r: Result<char>)
      ensures c !in alphabet ==> r == Err(NotInAlphabet)
      ensures r.Ok? ==> r.value in alphabet
    {
      if !Contains(alphabet, c) then Err(NotInAlphabet)
      else
        var indexFr := ToInt(alphabet, c).value;
        var indexTo :- ApplyInverse(indexFr);
        ToChar(alphabet, indexTo)
    }

    /** What `derangement()` answers: false for a one-character alphabet,
        otherwise whether the cycles hold as many characters as the alphabet. */
    predicate Deranged() {
      Size() != 1 && TotalLength(cyclesArr) == Size()
    }

    /** The cycles are a real permutation of the alphabet: each cycle lists
        distinct alphabet characters, no character is in two cycles, and the
        alphabet has no NUL (the source's "no image yet" sentinel). */
    ghost predicate WellFormed() {
      '\0' !in alphabet
      && (forall k :: 0 <= k < |cyclesArr| ==> Distinct(cyclesArr[k]))
      && (forall k, c :: 0 <= k < |cyclesArr| && c in cyclesArr[k] ==> c in alphabet)
      && Disjoint(cyclesArr)
    }

    /** Every cycle has at most two characters (a plugboard or reflector). */
    predicate OnlySwaps() {
      forall k :: 0 <= k < |cyclesArr| ==> |cyclesArr[k]| <= 2
    }

    /** `permute(int)`, with the source's loop over the cycles. */
    method Permute(p: int) returns (r: Result<int>)
      ensures r == Apply(p)
    {
      r := Scan(p, true);
    }

    /** `invert(int)`, with the source's loop over the cycles. */
    method Invert(c: int) returns (r: Result<int>)
      ensures r == ApplyInverse(c)
    {
      r := Scan(c, false);
    }

    /** The loop of `permute`/`invert`: every cycle containing the character
        overwrites `chTo`, so the last such cycle wins. */
    method Scan(p: int, forward: bool) returns (r: Result<int>)
      ensures r == Map(p, forward)
    {
      if p < 0 || p > Size() - 1 {
        return Err(IndexOutOfRange);
      }
      var chFr := ToChar(alphabet, WrapIndex(p)).value;
      var chTo := '\0';
      for k := 0 to |cyclesArr|
        invariant chTo == Image(cyclesArr[..k], chFr, forward)
      {
        var cycle := cyclesArr[k];
        var at := IndexOf(cycle, chFr);
        assert cyclesArr[..k + 1][..k] == cyclesArr[..k];
        if at != -1 {
          if |cycle| == 1 {
            chTo := chFr;
          } else if forward {
            chTo := if at == |cycle| - 1 then cycle[0] else cycle[at + 1];
          } else {
            chTo := if at == 0 then cycle[|cycle| - 1] else cycle[at - 1];
          }
        }
      }
      assert cyclesArr[..|cyclesArr|] == cyclesArr;
      if chTo == '\0' {
        r := ToInt(alphabet, chFr);
      } else {
        r := ToInt(alphabet, chTo);
      }
    }

    /** `derangement()`, summing the cycle lengths in a loop. */
    method Derangement() returns (b: bool)
      ensures b == Deranged()
    {
      if Size() == 1 {
        return false;
      }
      var cyclesLength := 0;
      for k := 0 to |cyclesArr|
        invariant cyclesLength == TotalLength(cyclesArr[..k])
      {
        assert cyclesArr[..k + 1][..k] == cyclesArr[..k];
        cyclesLength := cyclesLength + |cyclesArr[k]|;
      }
      assert cyclesArr[..|cyclesArr|] == cyclesArr;
      b := cyclesLength == Size();
    }
  }

  /** Construction: rejects "()", "((" or "))" in the notation, then an
      alphabet that holds '(', ')' or a space; otherwise keeps the parsed
      cycles. Nothing else is checked: "(A" is accepted as the cycle "A". */
  method NewPermutation(cycles: string, alphabet: Alphabet) returns (r: Result<Permutation>)
    ensures r.Ok? <==> WellDelimited(cycles) && !HasReservedChar(alphabet)
    ensures !WellDelimited(cycles) ==> r == Err(BadCycleSyntax)
    ensures WellDelimited(cycles) && HasReservedChar(alphabet) ==> r == Err(BadConfig)
    ensures r.Ok? ==> r.value == Permutation(alphabet, cycles, CyclesArr(cycles))
  {
    var i := 0;
    while i < |cycles| - 1
      invariant 0 <= i <= |cycles|
      invariant forall j :: 0 <= j < i && j < |cycles| - 1 ==> !BadPairAt(cycles, j)
    {
      var invalid1 := cycles[i] == '(' && cycles[i + 1] == ')';
      var invalid2 := cycles[i] == '(' && cycles[i + 1] == '(';
      var invalid3 := cycles[i] == ')' && cycles[i + 1] == ')';
      if invalid1 || invalid2 || invalid3 {
        assert BadPairAt(cycles, i);
        return Err(BadCycleSyntax);
      }
      i := i + 1;
    }
    if Contains(alphabet, '(') || Contains(alphabet, ')') || Contains(alphabet, ' ') {
      return Err(BadConfig);
    }
    return Ok(Permutation(alphabet, cycles, CyclesArr(cycles)));
  }

  // ---------------------------------------------------------------------
  // What the permutation does
  // ---------------------------------------------------------------------

  /** On an index in range, the image of its character decides the result;
      an uncovered character keeps its own index. */
  lemma {:induction false} MapInRange(p: Permutation, i: int, forward: bool)
    requires 0 <= i < p.Size()
    ensures var t := Image(p.cyclesArr, p.alphabet[i], forward);
      p.Map(i, forward) == if t == '\0' then Ok(i) else ToInt(p.alphabet, t)
  {
    WrapSmall(i, p.Size());
    IndexOfDistinct(p.alphabet, i);
  }

  /** A character of cycle j at position k maps to the one at position k+1,
      the last one to the first; `invert` goes to position k-1, the first
      to the last. */
  lemma {:induction false} ApplyInCycle(p: Permutation, j: int, k: int)
    requires p.WellFormed() && 0 <= j < |p.cyclesArr| && 0 <= k < |p.cyclesArr[j]|
    ensures var cycle := p.cyclesArr[j]; var n := |cycle|;
      p.Apply(IndexOf(p.alphabet, cycle[k])) == Ok(IndexOf(p.alphabet, cycle[Along(k, n, true)]))
      && p.ApplyInverse(IndexOf(p.alphabet, cycle[k])) == Ok(IndexOf(p.alphabet, cycle[Along(k, n, false)]))
  {
    var cycle := p.cyclesArr[j];
    var c := cycle[k];
    var i := IndexOf(p.alphabet, c);
    MapInRange(p, i, true);
    MapInRange(p, i, false);
    ImageInCycle(p.cyclesArr, c, j, true);
    ImageInCycle(p.cyclesArr, c, j, false);
    NeighbourAt(cycle, k, true);
    NeighbourAt(cycle, k, false);
  }

  /** A character in no cycle is fixed by both directions. */
  lemma {:induction false} ApplyUncovered(p: Permutation, i: int)
    requires 0 <= i < p.Size() && !Covered(p.cyclesArr, p.alphabet[i])
    ensures p.Apply(i) == Ok(i) && p.ApplyInverse(i) == Ok(i)
  {
    WrapSmall(i, p.Size());
    ImageUncovered(p.cyclesArr, p.alphabet[i], true);
    ImageUncovered(p.cyclesArr, p.alphabet[i], false);
    IndexOfDistinct(p.alphabet, i);
  }

  /** The empty notation parses to one empty cycle. */
  lemma {:induction false} EmptyCycles()
    ensures CyclesArr("") == [""]
  {
    assert RemoveSpaces("") == "";
    assert Split("", ')') == [""];
  }

  /** The permutation written "" is the identity in both directions. */
  lemma {:induction false} EmptyIsIdentity(alphabet: Alphabet, i: int)
    requires 0 <= i < |alphabet|
    ensures Permutation(alphabet, "", CyclesArr("")).Apply(i) == Ok(i)
    ensures Permutation(alphabet, "", CyclesArr("")).ApplyInverse(i) == Ok(i)
  {
    EmptyCycles();
    ApplyUncovered(Permutation(alphabet, "", CyclesArr("")), i);
  }

  /** One direction followed by the other returns every valid index. */
  lemma {:induction false} MapRoundTrip(p: Permutation, i: int, forward: bool)
    requires p.WellFormed() && 0 <= i < p.Size()
    ensures p.Map(i, forward).Ok?
    ensures p.Map(p.Map(i, forward).value, !forward) == Ok(i)
  {
    var cs := p.cyclesArr;
    var c := p.alphabet[i];
    MapInRange(p, i, forward);
    if Covered(cs, c) {
      var j :| 0 <= j < |cs| && c in cs[j];
      ImageInCycle(cs, c, j, forward);
      NeighbourRoundTrip(cs[j], c, forward);
      var d := Neighbour(cs[j], c, forward);
      var i' := IndexOf(p.alphabet, d);
      assert p.Map(i, forward) == Ok(i');
      MapInRange(p, i', !forward);
      ImageInCycle(cs, d, j, !forward);
      IndexOfDistinct(p.alphabet, i);
    } else {
      ApplyUncovered(p, i);
    }
  }

  /** A well-formed permutation is defined on exactly the indices
      0..size-1, in both directions. */
  lemma {:induction false} MapDomain(p: Permutation, i: int, forward: bool)
    requires p.WellFormed()
    ensures p.Map(i, forward).Ok? <==> 0 <= i < p.Size()
  {
    if 0 <= i < p.Size() {
      MapRoundTrip(p, i, forward);
    }
  }

  /** `invert(permute(p)) == p` for every valid index. */
  lemma {:induction false} InvertPermute(p: Permutation, i: int)
    requires p.WellFormed() && 0 <= i < p.Size()
    ensures p.Apply(i).Ok? && p.ApplyInverse(p.Apply(i).value) == Ok(i)
  {
    MapRoundTrip(p, i, true);
  }

  /** `permute(invert(c)) == c` for every valid index. */
  lemma {:induction false} PermuteInvert(p: Permutation, i: int)
    requires p.WellFormed() && 0 <= i < p.Size()
    ensures p.ApplyInverse(i).Ok? && p.Apply(p.ApplyInverse(i).value) == Ok(i)
  {
    MapRoundTrip(p, i, false);
  }

  /** The character overloads go through the alphabet to the index ones, and
      undo each other on every alphabet character. */
  lemma {:induction false} CharRoundTrip(p: Permutation, c: char)
    requires p.WellFormed() && c in p.alphabet
    ensures p.PermuteChar(c).Ok? && p.PermuteChar(c).value == p.alphabet[p.Apply(IndexOf(p.alphabet, c)).value]
    ensures p.InvertChar(p.PermuteChar(c).value) == Ok(c)
    ensures p.InvertChar(c).Ok? && p.PermuteChar(p.InvertChar(c).value) == Ok(c)
  {
    var i := IndexOf(p.alphabet, c);
    InvertPermute(p, i);
    PermuteInvert(p, i);
    var j := p.Apply(i).value;
    IndexOfDistinct(p.alphabet, j);
    var j' := p.ApplyInverse(i).value;
    IndexOfDistinct(p.alphabet, j');
  }

  /** When every cycle has at most two characters, `permute` and `invert`
      agree on every index. */
  lemma {:induction false} SwapsSymmetric(p: Permutation, i: int)
    requires p.WellFormed() && p.OnlySwaps() && 0 <= i < p.Size()
    ensures p.Apply(i) == p.ApplyInverse(i)
  {
    var cs := p.cyclesArr;
    var c := p.alphabet[i];
    MapInRange(p, i, true);
    MapInRange(p, i, false);
    if Covered(cs, c) {
      var j :| 0 <= j < |cs| && c in cs[j];
      ImageInCycle(cs, c, j, true);
      ImageInCycle(cs, c, j, false);
      NeighbourOfSwap(cs[j], c);
    } else {
      ImageUncovered(cs, c, true);
      ImageUncovered(cs, c, false);
    }
  }

  /** When every cycle has at most two characters, the permutation is its
      own inverse: applying it twice gives back every index. */
  lemma {:induction false} SwapsSelfInverse(p: Permutation, i: int)
    requires p.WellFormed() && p.OnlySwaps() && 0 <= i < p.Size()
    ensures p.Apply(i).Ok? && p.Apply(p.Apply(i).value) == Ok(i)
  {
    InvertPermute(p, i);
    SwapsSymmetric(p, p.Apply(i).value);
  }

  // ---------------------------------------------------------------------
  // Derangement
  // ---------------------------------------------------------------------

  /** A string without repetitions has as many distinct characters as its length. */
  lemma {:induction false} DistinctCard(s: string)
    requires Distinct(s)
    ensures |Chars(s)| == |s|
  {
    if s != [] {
      var t := s[..|s| - 1];
      var x := s[|s| - 1];
      assert Distinct(t);
      DistinctCard(t);
      assert Chars(s) == Chars(t) + {x};
      assert x !in t;
    }
  }

  /** Disjoint cycles without repetitions cover exactly TotalLength characters. */
  lemma {:induction false} CoveredCard(cycles: seq<string>)
    requires Disjoint(cycles)
    requires forall k :: 0 <= k < |cycles| ==> Distinct(cycles[k])
    ensures |CoveredSet(cycles)| == TotalLength(cycles)
  {
    if cycles != [] {
      var n := |cycles|;
      var init, last := cycles[..n - 1], cycles[n - 1];
      assert Disjoint(init) && forall k :: 0 <= k < |init| ==> Distinct(init[k]) by {
        assert forall k :: 0 <= k < |init| ==> init[k] == cycles[k];
      }
      CoveredCard(init);
      DistinctCard(last);
      assert CoveredSet(init) * Chars(last) == {} by {
        LastCycleApart(cycles, init, last);
      }
      CoveredCardStep(cycles, init, last);
    }
  }

  /** The last cycle adds its own characters to those of the ones before. */
  lemma {:induction false} CoveredCardStep(cycles: seq<string>, init: seq<string>, last: string)
    requires cycles != [] && init == cycles[..|cycles| - 1] && last == cycles[|cycles| - 1]
    requires |CoveredSet(init)| == TotalLength(init) && |Chars(last)| == |last|
    requires CoveredSet(init) * Chars(last) == {}
    ensures |CoveredSet(cycles)| == TotalLength(cycles)
  {
    UnionCard(CoveredSet(init), Chars(last));
    assert CoveredSet(cycles) == CoveredSet(init) + Chars(last);
  }

  /** Disjoint sets: the union's size is the sum of the sizes. */
  lemma {:induction false} UnionCard(a: set<char>, b: set<char>)
    requires a * b == {}
    ensures |a + b| == |a| + |b|
  {
    assert |a * b| == 0;
  }

  /** No character of the last of disjoint cycles occurs in the ones before. */
  lemma {:induction false} LastCycleApart(cycles: seq<string>, init: seq<string>, last: string)
    requires cycles != [] && Disjoint(cycles)
    requires init == cycles[..|cycles| - 1] && last == cycles[|cycles| - 1]
    ensures forall c :: c in CoveredSet(init) ==> c !in last
  {
    forall c | c in CoveredSet(init)
      ensures c !in last
    {
      var k :| 0 <= k < |init| && c in init[k];
      assert c in cycles[k];
    }
  }

  /** For a well-formed permutation, `derangement()` holds iff the alphabet
      has more than one character and every character lies in some cycle:
      it counts covered characters, so a one-character cycle still counts. */
  lemma {:induction false} DerangedIffAllCovered(p: Permutation)
    requires p.WellFormed()
    ensures p.Deranged() <==> p.Size() != 1 && forall c :: c in p.alphabet ==> Covered(p.cyclesArr, c)
  {
    var cs := p.cyclesArr;
    var alpha := Chars(p.alphabet);
    var covered := CoveredSet(cs);
    assert |covered| == TotalLength(cs) by {
      CoveredCard(cs);
    }
    assert |alpha| == p.Size() by {
      DistinctCard(p.alphabet);
    }
    assert covered <= alpha;
    var all := forall c :: c in p.alphabet ==> Covered(cs, c);
    assert all <==> alpha <= covered;
    if all {
      assert covered == alpha;
    }
    if |covered| == |alpha| {
      SubsetSameSize(covered, alpha);
      assert all;
    }
    assert all <==> TotalLength(cs) == p.Size();
  }

  /** A subset as large as its superset is the whole superset. */
  lemma {:induction false} SubsetSameSize(a: set<char>, b: set<char>)
    requires a <= b && |a| == |b|
    ensures a == b
  {
    assert a * b == a;
    assert |b - a| == 0;
  }

}
