/** The rules of the one-letter game on a snapshot of a game's state: which words are acceptable,
    which candidate moves the generator tries, and how a taken word changes the state. */
module Rules {
  import opened Words
  import opened Alignment

  datatype Option<T> = None | Some(value: T)

  /** A snapshot of a game: the dictionary, the words played so far and the word to follow
      (None before the first move). */
  datatype GameState = GameState(wordlist: set<Word>, used: set<Word>, current: Option<Word>)

  /** What every reachable state satisfies: nothing is used before the first move, afterwards the
      current word is among the used words, and only dictionary words are ever used. */
  ghost predicate Inv(st: GameState)
  {
    && (st.current.None? <==> st.used == {})
    && (st.current.Some? ==> st.current.value in st.used)
    && st.used <= st.wordlist
  }

  /** Whether word is a legal next move. ops is the alignment of the current word against word;
      it is consulted only after a first move and when skipMatcher is false. */
  function Acceptable(st: GameState, word: Word, skipMatcher: bool, ops: seq<Opcode>): (r: bool)
    ensures word in st.used ==> !r
    ensures word !in st.wordlist ==> !r
    ensures st.current.None? ==> (r <==> word in st.wordlist && word !in st.used)
    ensures skipMatcher ==> (r <==> word in st.wordlist && word !in st.used)
    ensures st.current.Some? && !skipMatcher && WellFormed(ops, st.current.value, word) && r ==>
              AtMostOneEdit(st.current.value, word)
    ensures (st.current.Some? && !skipMatcher && WellFormed(ops, st.current.value, word)
             && r && ChangedCount(ops) == 0) ==> word == st.current.value
    ensures st.current.Some? && !skipMatcher ==>
              (r <==> && word in st.wordlist && word !in st.used
                      && (forall k, l :: 0 <= k < l < |ops| ==> !Changed(ops[k]) || !Changed(ops[l]))
                      && (forall k :: 0 <= k < |ops| ==> !Wide(ops[k])))
  {
    if word in st.used then false
    else if word !in st.wordlist then false
    else if st.current.None? then true
    else if skipMatcher then true
    else
      var cur := st.current.value;
      assert WellFormed(ops, cur, word) && Classify(ops) ==>
               AtMostOneEdit(cur, word) && (ChangedCount(ops) == 0 ==> word == cur) by {
        if WellFormed(ops, cur, word) && Classify(ops) {
          ClassifySound(ops, cur, word);
        }
      }
      Classify(ops)
  }

  /** A word accepted after the first move, under a well-formed alignment, is exactly one
      deletion, substitution or insertion away from the current word. */
  lemma AcceptedMoveIsOneEdit(st: GameState, word: Word, ops: seq<Opcode>)
    requires Inv(st) && st.current.Some? && WellFormed(ops, st.current.value, word)
    requires Acceptable(st, word, false, ops)
    ensures word != st.current.value
    ensures var cur := st.current.value;
            || (exists i: nat :: i < |cur| && word == Removed(cur, i))
            || (exists i: nat, c: char :: i < |cur| && word == Replaced(cur, i, c))
            || (exists i: nat, c: char :: i <= |cur| && word == InsertedBefore(cur, i, c))
  {
    SingleEditForms(st.current.value, word);
  }

  /** The state after take_word(word): the word becomes current and is marked used when it is
      acceptable; otherwise nothing changes. */
  function Take(st: GameState, word: Word, ops: seq<Opcode>): (next: GameState)
    ensures next.wordlist == st.wordlist
    ensures st.used <= next.used && next.used - st.used <= {word}
    ensures next.current != st.current ==> next.current == Some(word)
    ensures Inv(st) ==> Inv(next)
    ensures Acceptable(st, word, false, ops) ==>
              next == st.(current := Some(word), used := st.used + {word})
    ensures !Acceptable(st, word, false, ops) ==> next == st
  {
    if Acceptable(st, word, false, ops) then st.(current := Some(word), used := st.used + {word})
    else st
  }

  /** One attempted move: a word and the alignment of the current word against it. */
  datatype Attempt = Attempt(word: Word, ops: seq<Opcode>)

  /** The state after a sequence of attempted moves. */
  function Run(st: GameState, attempts: seq<Attempt>): (last: GameState)
    ensures last.wordlist == st.wordlist && st.used <= last.used
    decreases |attempts|
  {
    if attempts == [] then st
    else Run(Take(st, attempts[0].word, attempts[0].ops), attempts[1..])
  }

  /** How many of the attempts were accepted. */
  function AcceptedCount(st: GameState, attempts: seq<Attempt>): nat
    decreases |attempts|
  {
    if attempts == [] then 0
    else
      (if Acceptable(st, attempts[0].word, false, attempts[0].ops) then 1 else 0)
      + AcceptedCount(Take(st, attempts[0].word, attempts[0].ops), attempts[1..])
  }

  /** A word once played stays used and is never acceptable again, whatever is attempted later
      and whatever the alignment says. */
  lemma {:induction false} NoReplay(st: GameState, attempts: seq<Attempt>, w: Word, skipMatcher: bool, ops: seq<Opcode>)
    requires w in st.used
    decreases |attempts|
    ensures w in Run(st, attempts).used
    ensures !Acceptable(Run(st, attempts), w, skipMatcher, ops)
  {
    if attempts != [] {
      NoReplay(Take(st, attempts[0].word, attempts[0].ops), attempts[1..], w, skipMatcher, ops);
    }
  }

  /** The invariant holds after any sequence of attempts. */
  lemma {:induction false} RunPreservesInv(st: GameState, attempts: seq<Attempt>)
    requires Inv(st)
    ensures Inv(Run(st, attempts))
    decreases |attempts|
    ensures Run(st, attempts).wordlist == st.wordlist && st.used <= Run(st, attempts).used
  {
    if attempts != [] {
      RunPreservesInv(Take(st, attempts[0].word, attempts[0].ops), attempts[1..]);
    }
  }

  /** Every accepted move uses up a dictionary word, so a session accepts at most as many moves
      as there are unused dictionary words: every game ends. */
  lemma {:induction false} AcceptedMovesBounded(st: GameState, attempts: seq<Attempt>)
    ensures AcceptedCount(st, attempts) <= |st.wordlist - st.used|
    decreases |attempts|
  {
    if attempts != [] {
      var a := attempts[0];
      var next := Take(st, a.word, a.ops);
      AcceptedMovesBounded(next, attempts[1..]);
      if Acceptable(st, a.word, false, a.ops) {
        assert st.wordlist - next.used == (st.wordlist - st.used) - {a.word};
      }
    }
  }

  // ---------------------------------------------------------------------------------------
  // The move generator, from a current word cur, tries for each index i < |cur| in turn the
  // deletion at i and then, for each letter c in order, the substitution at i and the insertion
  // before i.

  /** The substitution at index i and the insertion before i, for each of the letters in turn. */
  function LetterEdits(cur: Word, i: nat, letters: string): (r: seq<Word>)
    requires i < |cur|
    ensures |r| == 2 * |letters|
  {
    if letters == [] then []
    else
      var c := letters[|letters| - 1];
      LetterEdits(cur, i, letters[..|letters| - 1]) + [Replaced(cur, i, c), InsertedBefore(cur, i, c)]
  }

  /** All candidates at index i. */
  function EditsAt(cur: Word, i: nat): (r: seq<Word>)
    requires i < |cur|
  {
    [Removed(cur, i)] + LetterEdits(cur, i, Lowercase)
  }

  /** The candidates for the first n indices, in the order they are tried. */
  function CandidatesUpTo(cur: Word, n: nat): (r: seq<Word>)
    requires n <= |cur|
    ensures |r| == 53 * n
  {
    if n == 0 then [] else CandidatesUpTo(cur, n - 1) + EditsAt(cur, n - 1)
  }

  /** Every candidate the generator tries from cur: 53 per index, none from the empty word. */
  function Candidates(cur: Word): (r: seq<Word>)
    ensures |r| == 53 * |cur|
  {
    CandidatesUpTo(cur, |cur|)
  }

  /** What the generator yields for one candidate: the candidate itself if it passes the
      fast-path check, nothing otherwise. */
  function Keep(st: GameState, w: Word): seq<Word>
  {
    if Acceptable(st, w, true, []) then [w] else []
  }

  /** The candidates the generator yields: those acceptable on the fast path, in order. */
  function Filtered(st: GameState, ws: seq<Word>): (r: seq<Word>)
    ensures |r| <= |ws|
  {
    if ws == [] then [] else Filtered(st, ws[..|ws| - 1]) + Keep(st, ws[|ws| - 1])
  }

  /** The moves generated after a first move. */
  function Moves(st: GameState): (r: seq<Word>)
    requires st.current.Some?
    ensures |r| <= 53 * |st.current.value|
  {
    Filtered(st, Candidates(st.current.value))
  }

  /** w is one of the shapes the generator builds at index i. */
  ghost predicate GeneratedAt(cur: Word, i: nat, w: Word)
  {
    i < |cur| &&
    (|| w == Removed(cur, i)
     || (exists c :: c in Lowercase && w == Replaced(cur, i, c))
     || (exists c :: c in Lowercase && w == InsertedBefore(cur, i, c)))
  }

  ghost predicate Generated(cur: Word, w: Word)
  {
    exists i: nat :: GeneratedAt(cur, i, w)
  }

  lemma {:induction false} FilteredAppend(st: GameState, ws: seq<Word>, w: Word)
    ensures Filtered(st, ws + [w]) == Filtered(st, ws) + Keep(st, w)
  {
    assert (ws + [w])[..|ws|] == ws;
  }

  /** One step of the generator's letter loop: the substitution and then the insertion for the
      next letter. */
  lemma LetterStep(st: GameState, done: seq<Word>, cur: Word, i: nat, k: nat)
    requires i < |cur| && k < |Lowercase|
    ensures Filtered(st, done + LetterEdits(cur, i, Lowercase[..k + 1]))
         == Filtered(st, done + LetterEdits(cur, i, Lowercase[..k]))
            + Keep(st, Replaced(cur, i, Lowercase[k])) + Keep(st, InsertedBefore(cur, i, Lowercase[k]))
  {
    var before := done + LetterEdits(cur, i, Lowercase[..k]);
    var sub, ins := Replaced(cur, i, Lowercase[k]), InsertedBefore(cur, i, Lowercase[k]);
    assert Lowercase[..k + 1][..k] == Lowercase[..k];
    assert done + LetterEdits(cur, i, Lowercase[..k + 1]) == before + [sub] + [ins];
    FilteredAppend(st, before, sub);
    FilteredAppend(st, before + [sub], ins);
  }

  /** Filtering distributes over concatenation. */
  lemma {:induction false} FilteredConcat(st: GameState, xs: seq<Word>, ys: seq<Word>)
    ensures Filtered(st, xs + ys) == Filtered(st, xs) + Filtered(st, ys)
    decreases |ys|
  {
    if ys != [] {
      var init, last := ys[..|ys| - 1], ys[|ys| - 1];
      assert ys == init + [last];
      assert xs + ys == (xs + init) + [last];
      FilteredAppend(st, xs + init, last);
      FilteredAppend(st, init, last);
      FilteredConcat(st, xs, init);
    } else {
      assert xs + ys == xs;
    }
  }

  lemma {:induction false} FilteredMembership(st: GameState, ws: seq<Word>, w: Word)
    ensures w in Filtered(st, ws) <==> w in ws && Acceptable(st, w, true, [])
  {
    if ws != [] {
      FilteredMembership(st, ws[..|ws| - 1], w);
      assert ws == ws[..|ws| - 1] + [ws[|ws| - 1]];
    }
  }

  lemma {:induction false} LetterEditsMembership(cur: Word, i: nat, letters: string, w: Word)
    requires i < |cur|
    ensures w in LetterEdits(cur, i, letters) <==>
            exists c :: c in letters && (w == Replaced(cur, i, c) || w == InsertedBefore(cur, i, c))
    decreases |letters|
  {
    if letters != [] {
      var init, c := letters[..|letters| - 1], letters[|letters| - 1];
      LetterEditsMembership(cur, i, init, w);
      assert letters == init + [c];
      var last := [Replaced(cur, i, c), InsertedBefore(cur, i, c)];
      assert w in LetterEdits(cur, i, letters) <==> w in LetterEdits(cur, i, init) || w in last;
    }
  }

  lemma EditsAtMembership(cur: Word, i: nat, w: Word)
    requires i < |cur|
    ensures w in EditsAt(cur, i) <==> GeneratedAt(cur, i, w)
  {
    LetterEditsMembership(cur, i, Lowercase, w);
  }

  lemma {:induction false} CandidatesUpToMembership(cur: Word, n: nat, w: Word)
    requires n <= |cur|
    ensures w in CandidatesUpTo(cur, n) <==> exists i: nat :: i < n && w in EditsAt(cur, i)
  {
    if n > 0 {
      CandidatesUpToMembership(cur, n - 1, w);
      assert w in CandidatesUpTo(cur, n) <==> w in CandidatesUpTo(cur, n - 1) || w in EditsAt(cur, n - 1);
    }
  }

  /** The candidates are exactly the words of a generated shape. */
  lemma CandidatesMembership(cur: Word, w: Word)
    ensures w in Candidates(cur) <==> Generated(cur, w)
  {
    CandidatesUpToMembership(cur, |cur|, w);
    if w in Candidates(cur) {
      var i: nat :| i < |cur| && w in EditsAt(cur, i);
      EditsAtMembership(cur, i, w);
    }
    if Generated(cur, w) {
      var i: nat :| GeneratedAt(cur, i, w);
      EditsAtMembership(cur, i, w);
    }
  }

  /** The generated moves are exactly the unused dictionary words of a generated shape:
      sound (every move passes the fast-path check) and complete (no such word is missed). */
  lemma MovesMembership(st: GameState, w: Word)
    requires st.current.Some?
    ensures w in Moves(st) <==>
            w in st.wordlist && w !in st.used && Generated(st.current.value, w)
  {
    FilteredMembership(st, Candidates(st.current.value), w);
    CandidatesMembership(st.current.value, w);
  }

  /** Every generated move is one edit away from the current word, never the current word itself,
      and so one character shorter, of the same length, or one character longer. */
  lemma MovesAreSingleEdits(st: GameState, w: Word)
    requires Inv(st) && st.current.Some? && w in Moves(st)
    ensures AtMostOneEdit(st.current.value, w) && w != st.current.value
    ensures |st.current.value| - 1 <= |w| <= |st.current.value| + 1
  {
    var cur := st.current.value;
    MovesMembership(st, w);
    var i: nat :| GeneratedAt(cur, i, w);
    if w == Removed(cur, i) {
      EditsAreSingle(cur, i, 'a');
    } else if exists c :: c in Lowercase && w == Replaced(cur, i, c) {
      var c :| c in Lowercase && w == Replaced(cur, i, c);
      EditsAreSingle(cur, i, c);
    } else {
      var c :| c in Lowercase && w == InsertedBefore(cur, i, c);
      EditsAreSingle(cur, i, c);
    }
    AtMostOneEditLengths(cur, w);
  }

  /** Insertions are built only before an existing index, so appending a letter that differs from
      the last one (or appending to the empty word) is never a candidate. */
  lemma TrailingAppendNotGenerated(cur: Word, c: char)
    requires cur == [] || c != cur[|cur| - 1]
    ensures cur + [c] !in Candidates(cur)
  {
    forall i: nat, d | i < |cur| ensures InsertedBefore(cur, i, d) != cur + [c] {
      assert InsertedBefore(cur, i, d)[|cur|] == cur[|cur| - 1];
    }
    CandidatesMembership(cur, cur + [c]);
  }

  /** The distinct elements of words are exactly s. */
  ghost predicate Enumerates(words: seq<Word>, s: set<Word>)
  {
    && |words| == |s|
    && (forall w :: w in words <==> w in s)
    && (forall k, l :: 0 <= k < l < |words| ==> words[k] != words[l])
  }

  /** What the generator yields in state st: the whole word list, each word once, before the first
      move; the filtered candidates afterwards. */
  ghost predicate Yields(st: GameState, words: seq<Word>)
  {
    match st.current
    case None => Enumerates(words, st.wordlist)
    case Some(_) => words == Moves(st)
  }

  /** The set of words the generator offers in st; the game is over when it is empty. */
  ghost function MoveSet(st: GameState): set<Word>
  {
    match st.current
    case None => st.wordlist
    case Some(_) => set w | w in Moves(st)
  }

  /** Every offered word is a legal move on the fast path. */
  lemma MoveSetAcceptable(st: GameState, w: Word)
    requires Inv(st) && w in MoveSet(st)
    ensures Acceptable(st, w, true, [])
  {
    if st.current.Some? {
      MovesMembership(st, w);
    }
  }

  /** A generator output holds exactly the offered words. */
  lemma YieldsMoveSet(st: GameState, words: seq<Word>)
    requires Yields(st, words)
    ensures forall w :: w in words <==> w in MoveSet(st)
    ensures words == [] <==> MoveSet(st) == {}
  {
    if words == [] {
      assert forall w :: w in MoveSet(st) <==> w in {};
    } else {
      assert words[0] in MoveSet(st);
    }
  }
}
