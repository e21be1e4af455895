/** Concrete positions of the game that show how the rules play out. */
module Scenarios {
  import opened Words
  import opened Alignment
  import opened Rules

  /** The position after "cat" with the dictionary {cat, cot, coat, cots, at, cats}. */
  const CatState := GameState({"cat", "cot", "coat", "cots", "at", "cats"}, {"cat"}, Some("cat"))

  /** After "cat": the substitution "cot", the deletion "at" and the insertion "coat" are
      accepted under their natural alignments, and so is the append "cats"; yet the generator
      never offers "cats", because it inserts only before an existing letter. */
  lemma CatPosition()
    ensures Acceptable(CatState, "cot", false, [Opcode(Equal, 0, 1, 0, 1), Opcode(Replace, 1, 2, 1, 2), Opcode(Equal, 2, 3, 2, 3)])
    ensures Acceptable(CatState, "at", false, [Opcode(Delete, 0, 1, 0, 0), Opcode(Equal, 1, 3, 0, 2)])
    ensures Acceptable(CatState, "coat", false, [Opcode(Equal, 0, 1, 0, 1), Opcode(Insert, 1, 1, 1, 2), Opcode(Equal, 1, 3, 2, 4)])
    ensures Acceptable(CatState, "cats", false, [Opcode(Equal, 0, 3, 0, 3), Opcode(Insert, 3, 3, 3, 4)])
    ensures "cats" !in Moves(CatState)
  {
    CatsNotGenerated();
  }

  lemma CatsNotGenerated()
    ensures "cats" !in Moves(CatState)
  {
    assert "cat" + ['s'] == "cats";
    TrailingAppendNotGenerated("cat", 's');
    FilteredMembership(CatState, Candidates("cat"), "cats");
  }

  /** A move the generator offers can still be refused by take_word: from "eel" the generator
      builds "ell" (substitute "l" at index 1), which the game refuses under the well-formed
      alignment EelToEll. */
  lemma GeneratedMoveRefused()
    ensures var st := GameState({"eel", "ell"}, {"eel"}, Some("eel"));
            && Inv(st)
            && "ell" in Moves(st)
            && WellFormed(EelToEll, "eel", "ell")
            && !Acceptable(st, "ell", false, EelToEll)
  {
    var st := GameState({"eel", "ell"}, {"eel"}, Some("eel"));
    assert Lowercase[11] == 'l';
    assert Replaced("eel", 1, 'l') == "ell";
    assert GeneratedAt("eel", 1, "ell");
    MovesMembership(st, "ell");
    VerdictDependsOnAlignment();
  }
}
