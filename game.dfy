/** The game object of one_letter.py: a fixed dictionary, the words used so far and the current
    word, with the move generator, take_word and get_word. */
module OneLetter {
  import opened Words
  import opened Alignment
  import opened Rules

  class Game {
    const wordlist: set<Word>
    var used: set<Word>
    var current: Option<Word>

    /** The snapshot the rules are stated on. */
    function State(): GameState
      reads this
    {
      GameState(wordlist, used, current)
    }

    ghost predicate Valid()
      reads this
    {
      Inv(State())
    }

    /** A fresh game over the given dictionary: nothing used, no current word. */
    constructor (wordlist: set<Word>)
      ensures Valid()
      ensures State() == GameState(wordlist, {}, None)
    {
      this.wordlist := wordlist;
      used := {};
      current := None;
    }

    /** Lists the dictionary, each word once, in the order a set iteration would pick. */
    method ListWordlist() returns (words: seq<Word>)
      ensures Enumerates(words, wordlist)
    {
      var rest := wordlist;
      words := [];
      while rest != {}
        invariant rest <= wordlist
        invariant |words| + |rest| == |wordlist|
        invariant forall w :: w in words <==> w in wordlist && w !in rest
        invariant forall k, l :: 0 <= k < l < |words| ==> words[k] != words[l]
        decreases rest
      {
        var w :| w in rest;
        words := words + [w];
        rest := rest - {w};
      }
    }

    /** Lists what the generator yields: the whole dictionary, each word once, before the first
        move; afterwards, index by index, the deletion and then letter by letter the substitution
        and the insertion, keeping those that pass the fast-path check. */
    method PossibleWords() returns (words: seq<Word>)
      ensures Yields(State(), words)
    {
      if current.None? {
        words := ListWordlist();
        return;
      }
      var st, cur := State(), current.value;
      words := [];
      for i := 0 to |cur|
        invariant words == Filtered(st, CandidatesUpTo(cur, i))
      {
        var found := MovesAt(st, cur, i);
        FilteredConcat(st, CandidatesUpTo(cur, i), EditsAt(cur, i));
        words := words + found;
      }
    }

    /** One round of the generator's index loop: the deletion at i, then for each letter the
        substitution at i and the insertion before i, keeping those that pass the fast-path
        check. */
    static method MovesAt(st: GameState, cur: Word, i: nat) returns (found: seq<Word>)
      requires i < |cur|
      ensures found == Filtered(st, EditsAt(cur, i))
    {
      found := TryMove(st, Removed(cur, i));
      assert [Removed(cur, i)] + LetterEdits(cur, i, Lowercase[..0]) == [] + [Removed(cur, i)];
      FilteredAppend(st, [], Removed(cur, i));
      for k := 0 to |Lowercase|
        invariant found == Filtered(st, [Removed(cur, i)] + LetterEdits(cur, i, Lowercase[..k]))
      {
        LetterStep(st, [Removed(cur, i)], cur, i, k);
        var c := Lowercase[k];
        var sub := TryMove(st, Replaced(cur, i, c));
        var ins := TryMove(st, InsertedBefore(cur, i, c));
        found := found + sub + ins;
      }
      assert Lowercase[..|Lowercase|] == Lowercase;
    }

    /** One candidate of the generator: yielded if it passes the fast-path check. */
    static method TryMove(st: GameState, w: Word) returns (kept: seq<Word>)
      ensures kept == Keep(st, w)
      ensures kept == (if w in st.wordlist && w !in st.used then [w] else [])
    {
      kept := [];
      if Acceptable(st, w, true, []) {
        kept := [w];
      }
    }

    /** Plays word if it is acceptable against the current state, with ops the alignment of the
        current word against word. */
    method TakeWord(word: Word, ops: seq<Opcode>) returns (accepted: bool)
      requires current.Some? ==> WellFormed(ops, current.value, word)
      modifies this
      ensures accepted == Acceptable(old(State()), word, false, ops)
      ensures accepted ==> current == Some(word) && used == old(used) + {word}
      ensures !accepted ==> current == old(current) && used == old(used)
      ensures State() == Take(old(State()), word, ops)
      ensures old(Valid()) ==> Valid()
    {
      if !Acceptable(State(), word, false, ops) {
        return false;
      }
      current := Some(word);
      used := used + {word};
      return true;
    }

    /** The opponent's reply: some generated word, or None when the generator yields nothing. */
    method GetWord() returns (reply: Option<Word>)
      ensures reply.None? <==> MoveSet(State()) == {}
      ensures reply.Some? ==> reply.value in MoveSet(State())
    {
      var words := PossibleWords();
      YieldsMoveSet(State(), words);
      if |words| > 0 {
        var k :| 0 <= k < |words|;
        reply := Some(words[k]);
      } else {
        reply := None;
      }
    }
  }
}
