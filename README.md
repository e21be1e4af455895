# One-letter word ladder: the rule engine

A Dafny model of the rules of the one-letter game in `one_letter.py`. Two players take turns
naming dictionary words. Each word must differ from the previous one by a single inserted,
deleted or substituted character, and no word may be played twice in a session. The model
covers the `Game` object without its file loading and terminal loop:

- `acceptable` decides whether a word is a legal next move;
- `get_possible_words` enumerates the candidate moves;
- `take_word` plays a word;
- `get_word` picks the opponent's reply.

Files and modules:

- `words.dfy`, module `Words`. Words are strings. It defines the three edits the generator
  builds (`Removed`, `Replaced`, `InsertedBefore`) and the reference predicate `AtMostOneEdit`:
  the two words share a prefix and a suffix, and between them lies at most one character on
  each side.
- `alignment.dfy`, module `Alignment`. This is the opcode list that `difflib.SequenceMatcher`
  returns for the current word against the candidate. `WellFormed` states what every such list
  satisfies:
  - the opcodes tile both words left to right without gaps;
  - an `equal` opcode covers identical slices;
  - any other opcode covers at least one character on one side.

  `Classify` is the game's test on that list (one_letter.py:31-37). It allows at most one
  non-`equal` opcode, and that opcode may span at most one character on each side.
- `rules.dfy`, module `Rules`. A snapshot `GameState` (dictionary, used words, optional current
  word) and the rules stated on it:
  - `Acceptable`;
  - `Take`, the effect of `take_word`;
  - `Run`, a sequence of attempted moves;
  - the generator's candidate order (`Candidates`) and its output after a first move (`Moves`).
- `game.dfy`, module `OneLetter`. The class `Game`, with fields `wordlist` (fixed), `used` and
  `current`. It has a constructor that takes the word list, and the methods `PossibleWords` (the
  generator's two loops), `TakeWord` (updates the fields in place) and `GetWord`.
- `scenarios.dfy`, module `Scenarios`. Concrete positions.

The alignment is an input, not computed. `Acceptable` and `TakeWord` take the opcode list next
to the word. `TakeWord` requires that list to be well-formed for (current word, word). Every
property proved about the alignment path therefore holds for any matcher whose output is
well-formed.

Two consequences of the code are proved rather than repaired:

- The classifier is sound: an accepted well-formed alignment means at most one edit. It is not
  determined by the two words alone. "eel" → "ell" is one substitution, yet the well-formed
  alignment "delete e, keep el, insert l" is rejected (`VerdictDependsOnAlignment`). That is the
  alignment a longest-matching-block matcher builds here. "el" (a[1:3] = b[0:2]) is the unique
  longest common block. It leaves "e" unmatched before it in "eel" and "l" unmatched after it
  in "ell". This model does not include the matcher, so that last step is argued, not
  proved. `GeneratedMoveRefused` shows what it means for play: the generator offers "ell" from
  "eel", and `take_word` may still refuse it.
- Insertions are generated only before an existing index (one_letter.py:47, 55). Appending a
  letter different from the last one is never a candidate: "cats" is never offered after "cat",
  even though `take_word("cats")` accepts it (`TrailingAppendNotGenerated`, `CatPosition`).

## Model

| member | source | states |
|---|---|---|
| `Rules.Acceptable` | one_letter.py:18-38 | A used word is never acceptable. A word outside the dictionary is never acceptable. On the first move, and on the fast path (`skip_matcher`), acceptable means "in the dictionary and unused", in both directions. Otherwise, under a well-formed alignment, acceptance implies the two words are at most one edit apart. With no changed opcode, acceptance implies the word equals the current word. On the alignment path the verdict is exact, in both directions: the word is accepted exactly when it is an unused dictionary word, no two opcodes are both non-`equal`, and no non-`equal` opcode spans more than one character on either side. |
| `Alignment.Classify` | one_letter.py:30-37 | The verdict is true exactly when no two opcodes are both non-`equal` and no non-`equal` opcode spans more than one character on either side. |
| `Alignment.ClassifySound` | one_letter.py:28-38 | A well-formed alignment that the classifier accepts shows the two words at most one edit apart. With no changed opcode it shows them equal. |
| `Alignment.ClassifyComplete` | one_letter.py:28-38 | For words at most one edit apart, some well-formed alignment is accepted (common prefix, changed group, common suffix). |
| `Alignment.VerdictDependsOnAlignment` | one_letter.py:28-38 | "eel" and "ell" are one edit apart, yet a well-formed alignment of them is rejected. |
| `Rules.AcceptedMoveIsOneEdit` | one_letter.py:19-38 | After the first move, a word accepted under a well-formed alignment differs from the current word. It is a deletion at some index, a substitution at some index, or an insertion before some index of the current word. |
| `Words.SingleEditForms` | one_letter.py:47-57 | Every pair at most one edit apart is an identity, a deletion, a substitution or an insertion. |
| `Words.EditsAreSingle` | one_letter.py:48-55 | The shapes the generator builds (deletion, substitution, insertion before i) and the identity are each at most one edit. |
| `Words.AtMostOneEditSymmetric` | one_letter.py:28-38 | Being at most one edit apart is symmetric: a deletion one way is an insertion the other way. |
| `Words.AtMostOneEditLengths` | one_letter.py:47-57 | Words at most one edit apart differ in length by at most one. |
| `Words.Removed` | one_letter.py:48 | Deleting index i gives a word one shorter: it agrees with the original before i, and from i on holds the original's next character. |
| `Words.Replaced` | one_letter.py:52 | Substituting c at index i keeps the length, puts c at i, and leaves every other character as it was. |
| `Words.InsertedBefore` | one_letter.py:55 | Inserting c before index i gives a word one longer: it agrees with the original before i, holds c at i, and after i holds the original shifted by one. |
| `Rules.Candidates` | one_letter.py:47-57 | The generator tries exactly 53 candidates per index of the current word: one deletion, then a substitution and an insertion for each of the 26 letters. So it tries none from the empty word. |
| `Rules.MovesMembership` | one_letter.py:47-57 | After a first move, a word is generated exactly when it is in the dictionary, is unused, and, for some index i of the current word and some lowercase letter c, it is the deletion at i, the substitution of c at i, or the insertion of c before i. |
| `Rules.MovesAreSingleEdits` | one_letter.py:47-57 | Each generated word is at most one edit from the current word and is never the current word itself. So its length is one less, equal, or one more. |
| `Rules.Moves` | one_letter.py:46-57 | After a first move the generator yields at most 53 words per index of the current word. Its contents are fixed by `MovesMembership`. |
| `Rules.TrailingAppendNotGenerated` | one_letter.py:47-55 | Appending a letter to the empty word, or appending a letter that differs from the last one, is never a candidate. |
| `Rules.MoveSetAcceptable` | one_letter.py:40-57 | Every word offered by the generator, on the first move or later, passes the fast-path acceptability check. |
| `Rules.YieldsMoveSet` | one_letter.py:40-57 | A generator output holds exactly the offered words. It is empty exactly when no word is offered. |
| `Rules.Take` | one_letter.py:59-64 | `take_word` leaves the dictionary alone. It adds at most the played word to `used` and removes nothing. The current word changes only to the played word. It preserves the invariant: before the first move nothing is used, afterwards the current word is used, and only dictionary words are used. An acceptable word becomes current and joins `used`. A refused word leaves the state exactly as it was. |
| `Rules.Run` | one_letter.py:59-64 | Repeated `take_word` calls leave the dictionary unchanged and never remove a used word. |
| `Rules.NoReplay` | one_letter.py:19-63 | A used word stays used and is never acceptable again, whatever moves are attempted later and whatever alignment is given. |
| `Rules.RunPreservesInv` | one_letter.py:59-64 | The invariant holds after any sequence of attempted moves, the dictionary is unchanged, and `used` only grows. |
| `Rules.AcceptedMovesBounded` | one_letter.py:59-64 | A session accepts no more moves than there are unused dictionary words, so every game ends. |
| `OneLetter.Game.constructor` | one_letter.py:12-16 | A new game holds the given word list, no used words and no current word, and satisfies the invariant. |
| `OneLetter.Game.ListWordlist` | one_letter.py:42-43 | Before the first move, the output lists every dictionary word exactly once and nothing else. |
| `OneLetter.Game.PossibleWords` | one_letter.py:40-57 | Before the first move it returns every dictionary word exactly once. Afterwards it returns exactly `Moves`: the candidates in the generator's order, filtered by the fast-path check. |
| `OneLetter.Game.MovesAt` | one_letter.py:47-55 | One round of the index loop yields, in the generator's order, exactly the deletion at the index and the substitution and the insertion for each letter a to z, keeping only those that pass the fast-path check. |
| `OneLetter.Game.TryMove` | one_letter.py:49-50 | One candidate is yielded exactly when it passes the fast-path check: an unused dictionary word. The checks at lines 53-54 and 56-57 are the same. |
| `OneLetter.Game.TakeWord` | one_letter.py:59-64 | Returns whether the word is acceptable under the given alignment. If it is, the word becomes current and joins `used`. Otherwise both fields are unchanged. The invariant is preserved. |
| `OneLetter.Game.GetWord` | one_letter.py:66-68 | Returns None exactly when the generator offers nothing. Otherwise it returns one of the offered words. |
| `Scenarios.CatPosition` | one_letter.py:18-57 | After "cat", the moves "cot", "at", "coat" and "cats" are accepted under their natural alignments, but "cats" is never generated. |
| `Scenarios.GeneratedMoveRefused` | one_letter.py:28-57 | From "eel" the generator offers "ell", and the game refuses "ell" under a well-formed alignment. |

## Left out

- `lines_as_set` and the file read in `__init__` (one_letter.py:6-8, 14): file I/O. The
  constructor takes the word list as a parameter instead.
- `play` (one_letter.py:70-91): the terminal loop with its prompts and hint display. Its
  "no more moves" test is `MoveSet(State()) == {}`, which `GetWord` and `YieldsMoveSet` cover.
- The random choice in `get_word` (one_letter.py:68): `GetWord` picks nondeterministically
  among the generated words. It states only that the pick is one of them.
- `difflib.SequenceMatcher` (one_letter.py:1, 13, 28-29): foreign library code. Its opcodes are
  an input, assumed only to be well-formed. Junk heuristics, the choice of longest matching
  block, and the matcher object reused across calls are not modelled. The model therefore does
  not prove which alignment the game actually sees for a given pair.
- Scenarios.GeneratedMoveRefused: does not prove that difflib returns the rejecting alignment
  for "eel"/"ell", because difflib is not part of this model. It proves only that this
  alignment is well-formed and rejected.
- Set iteration order in `yield from self.wordlist` (one_letter.py:43): Python's order is
  unspecified. The first-move output is stated as an enumeration of the set (every word, each
  once), not a fixed order.
- Duplicate moves are kept, as in the code (deleting either of two equal adjacent letters gives
  the same word). The generator is modelled as a sequence, not a set.
- Laziness of the generator: `PossibleWords` builds the whole list. The order and contents are
  the same as the generator's.
- Trailing insertion: the code never builds an insertion after the last letter. The model keeps
  this behaviour and proves the gap (`TrailingAppendNotGenerated`) instead of adding the extra
  pass.
