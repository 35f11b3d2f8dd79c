/** Concrete cycle strings from the unit tests of the permutation class,
    stated as lemmas about the model. */
module PermutationExamples {
  import opened Permutations

  /** "(BACD)" parses to the single cycle "BACD". */
  lemma {:induction false} ParseOneCycle()
    ensures CyclesArr("(BACD)") == ["BACD"]
  {
    assert Notation(["BACD"]) == "(BACD)";
    ParseNotation(["BACD"]);
  }

  /** "(BAD) (CE)" parses to the cycles "BAD" and "CE". */
  lemma {:induction false} ParseTwoCycles()
    ensures CyclesArr("(BAD) (CE)") == ["BAD", "CE"]
  {
    assert Notation(["CE"]) == "(CE)";
    assert Notation(["BAD", "CE"]) == "(BAD) (CE)";
    ParseNotation(["BAD", "CE"]);
  }
}
