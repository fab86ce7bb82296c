# Wordle solver: a verified model of the elimination engine

This project models the constraint-elimination Wordle solver of the
`wordle-solver` repository, in the two forms its code takes:

- `wordguesser.py` keeps the candidates and the guesses so far in sets and opens with "salet";
- `guesser.py` keeps them in lists and opens with "crane".

`generate_hints`, `LetterData` and `build_letters_data` have the same bodies in both files. They are modelled
once, and the rows below cite `wordguesser.py` for them.

The modules follow the stages of one round:

- **Words**: five-letter lower-case words and the letter counts (`str.count`, `in`, `set(word)`) taken of them.
- **Hints**: `generate_hints`, two passes over the guess that mark Correct / Present / Absent (Python's
  `True` / `False` / `None`). The passes are methods with loops and are proved equal to an independent
  reference definition `Expected`. The count bounds, the meaning of each mark and the test suite's vectors
  for the solution "aabbb" are proved about that definition.
- **Letters**: the `LetterData` record and the letter table. The table is a class `LetterTable` whose map
  field `build_letters_data` updates in place, one hint at a time. Its result is tied to a function
  `Folded` of the old table, and the lemmas state what a round adds: known and impossible positions,
  a frozen count, `min_count`.
- **Eliminator**: `eliminate`'s two inner loops as methods. Their combined verdict is the predicate
  `Keep`. The set version returns exactly the surviving words, and the list version the surviving words
  in their order. It is proved that the solution survives the first round, whatever the guess.
- **Selector**: `choose_word`. The similarity sum plus the repeated-letter penalty, and the argmin that
  `min(comparison, key=comparison.get)` takes over dictionary insertion order. For guesses without
  repeats, the list score equals the set score.
- **Game**: the rounds a `guess_word` generator yields, and the ways it ends. `WellPlayed` states what
  every trace satisfies:
  - round k is numbered k and holds the oracle's answer;
  - nothing follows a solved round;
  - no guess repeats, and later guesses come from the word list;
  - every guess survives elimination by the table after each earlier round.

  `Playing`, the state the main loop keeps, bounds the candidates from both sides. From above, they are
  words of the list that survived every round and were not guessed (`Open`). From below, they hold every
  `Pending` word (`Covers`): a word of the list that no round guessed, the hint source never refused, and
  every round survived. `Stuck` says what an error stop means. `NoPossibleWordsLeft` comes only when no word
  of the list is `Eligible` after the trace. `NoCandidates` comes only when the hint source refuses every
  eligible word at the next index.
- **Soundness**: the elimination over a whole game. Under a `Truthful` hint source, which answers every word
  with `generate_hints` against one solution, every record of the table agrees with that solution. So the
  solution survives the elimination after every round of a well-played trace, and when it is on the word
  list, neither error stop can happen.
- **WordGuesser** / **Guesser**: `guess_word` of each file as a method with the main loop. The loop body
  and the refusal loop are split into helper methods.

The hint source is the parameter `oracle: (string, nat) -> HintResult`, which returns hints or
`Rejected` (Python's `None`). `SequenceMatcher(None, a, b).ratio()` is the parameter
`sim: (string, string) -> real`. The generator's yields are collected into a trace. An error that Python
raises ends the trace with a `Stop` value that names its cause. `guess_word` in `wordguesser.py` takes the
`solution` it passes on to its hint source. The model keeps it as a ghost parameter. It only names the
solution in the soundness postcondition; the hint source is still `oracle`. `guesser.py` scrapes its hints
and has no such argument, and its model takes the same ghost parameter for the same postcondition.

## Model

| member | source | states |
|---|---|---|
| Words.CountBelow | wordguesser.py:99 | the count of a letter in a prefix is at most the prefix's length |
| Words.Occurrences | wordguesser.py:99 | `word.count(letter)` is at most `len(word)` |
| Words.OccurrencesPositive | wordguesser.py:108-111 | `word.count(c) > 0` exactly when `c in word` |
| Words.LetterSet | wordguesser.py:133 | `set(word)` holds the letter of every position of the word |
| Words.LetterSetSize | wordguesser.py:133 | `set(word)` has at most `len(word)` letters, and at least one for a non-empty word |
| Hints.Blanked | wordguesser.py:36-39 | the solution copy with every in-place match blanked keeps the solution's length |
| Hints.Expected | wordguesser.py:34 | the reference hints have one entry per guess position (the keys 0..4) |
| Hints.ReplaceFirst | wordguesser.py:45 | `word.replace(letter, ".", 1)`: the result has the same length and differs only at the first copy of the letter, which becomes the new character |
| Hints.BlankOneCopy | wordguesser.py:45 | blanking the first copy of a letter only turns a position into '.', lowers that letter's count by one and keeps every other letter's count |
| Hints.MarkCorrect | wordguesser.py:33-39 | pass 1 yields the blanked copy and hints that are Correct exactly at the in-place matches and Absent (`None`) elsewhere |
| Hints.HintAt | wordguesser.py:42-43 | the condition pass 2 tests at position i, on the copy blanked so far, gives exactly the reference hint there |
| Hints.MarkPresent | wordguesser.py:41-45 | pass 2, from pass 1's hints and copy, yields exactly the reference hints |
| Hints.GenerateHints | wordguesser.py:29-47 | generate_hints returns the reference hints, five of them; position i is Correct exactly when the guess matches the solution there; a guess equal to the solution is all Correct |
| Hints.CorrectExactlyAtMatches | wordguesser.py:36-45 | the reference hints are Correct exactly at matching positions, so Present never replaces Correct; all Correct when guess equals solution |
| Hints.MatchedPlusUnmatched | wordguesser.py:36-39 | every solution copy of a letter is either matched in place or left in the blanked copy |
| Hints.MatchedPlusMisplaced | wordguesser.py:36-45 | below any position, every copy of a letter in the guess either matches in place or is misplaced |
| Hints.MisplacedMonotone | wordguesser.py:41-45 | the misplaced copies counted left to right never decrease |
| Hints.TallyOfExpected | wordguesser.py:36-45 | below any position the Correct marks of a letter are its in-place matches and the Present marks are the smaller of its misplaced copies and its unmatched solution copies |
| Hints.TallyAtMostCount | wordguesser.py:36-45 | a letter's Correct plus Present marks never outnumber its copies in the guess |
| Hints.MarksBoundedByCounts | wordguesser.py:36-45 | for every letter, Correct plus Present marks are at most its count in the solution and at most its count in the guess |
| Hints.AbsentMeansAllCounted | wordguesser.py:41-45 | when a copy of a letter stays Absent, the letter's Correct plus Present marks equal its count in the solution |
| Hints.PresentMeansUnmatched | wordguesser.py:42-44 | a Present mark means the solution holds an unmatched copy of that letter |
| Hints.SolutionAabbb | test.py:17-42 | against "aabbb": "aaabb" gives T,T,None,T,T; "bbaaa" gives F,F,F,F,None; "later" gives None,T,None,None,None |
| Letters.FreshTable | wordguesser.py:162 | the fresh table has a record for exactly the 26 lower-case letters, each the default `LetterData()` |
| Letters.PositionsMembers | wordguesser.py:65-77 | the positions a round records for a letter and hint kind are exactly those where the guess has the letter and that hint |
| Letters.PositionsSize | wordguesser.py:79-81 | there are as many such positions as marks of that kind for the letter |
| Letters.Folded | wordguesser.py:60-81 | folding a round into the table keeps its set of letters |
| Letters.ReplayKnown | wordguesser.py:69-70 | a round adds to a letter's known positions exactly the positions where it is Correct |
| Letters.ReplayImpossible | wordguesser.py:72-73 | a round adds to a letter's impossible positions exactly the positions where it is Present |
| Letters.ReplayFrozen | wordguesser.py:76-77 | the count is frozen afterwards exactly when it was before or a copy of the letter was Absent |
| Letters.ReplayMinCount | wordguesser.py:63-81 | min_count afterwards: unchanged for a letter not in the guess, else all known positions (earlier rounds included) plus this round's Present marks |
| Letters.ReplayAbsentLetter | wordguesser.py:65-66 | a letter that does not occur in the guess keeps its record |
| Letters.TallyPositive | wordguesser.py:65-77 | a letter has a mark of a kind exactly when some position of the guess holds it with that hint |
| Letters.LetterTable.constructor | wordguesser.py:162 | the new table is the fresh table |
| Letters.LetterTable.BuildLettersData | wordguesser.py:60-81 | build_letters_data leaves the table equal to `Folded` of the old table, one record per letter folded through the round |
| Letters.LetterTable.ApplyHint | wordguesser.py:65-81 | one loop iteration changes only the record of the guess's letter at i, by one step, and counts one more yellow for a Present hint |
| Letters.FoldOnlyGrows | wordguesser.py:69-77 | a position is known (impossible) afterwards exactly when it was before or the round marks the letter Correct (Present) there; a frozen count stays frozen; a letter not in the guess keeps its record |
| Letters.FoldTightens | wordguesser.py:69-77 | known and impossible positions only grow and a frozen count never unfreezes |
| Letters.FoldMinCount | wordguesser.py:79-81 | for a letter of the guess, min_count equals its known positions plus this round's Present marks, and the count is frozen exactly when it was or a copy was Absent |
| Letters.FreshFoldMinCount | wordguesser.py:79-81 | from a fresh table, min_count is the letter's Correct plus Present marks |
| Eliminator.Survivors | wordguesser.py:84-115 | the surviving words are a subset of the input |
| Eliminator.PassesPositions | wordguesser.py:90-101 | the position loop accepts exactly when no position breaks the green check (on the guess's letter), the impossible-position check or the frozen-count check |
| Eliminator.PassesYellows | wordguesser.py:105-113 | the yellow loop accepts exactly when every letter with an impossible position occurs in the word at least min_count times |
| Eliminator.Checks | wordguesser.py:90-113 | the yellow loop runs only after the position loop passed; the word is kept exactly when it satisfies `Keep` |
| Eliminator.EliminateSet | wordguesser.py:84-115 | eliminate returns exactly the words of the input that satisfy `Keep` |
| Eliminator.FreshTableKeepsAll | wordguesser.py:87-115 | with a fresh table every word is kept |
| Eliminator.FreshTableKeepsSet | wordguesser.py:84-115 | with a fresh table eliminate returns its input |
| Eliminator.SolutionSurvivesFirstRound | wordguesser.py:84-115 | the solution survives elimination by a fresh table folded with the hints generate_hints gives for any guess |
| Eliminator.VersusPosition | wordguesser.py:90-101 | the solution passes every position check of such a table |
| Eliminator.VersusYellow | wordguesser.py:105-113 | the solution passes every yellow check of such a table |
| Eliminator.Kept | guesser.py:77-108 | the surviving sublist is no longer than the input |
| Eliminator.KeptMembers | guesser.py:77-108 | a word is in the surviving sublist exactly when it is in the input and satisfies `Keep` |
| Eliminator.RemoveFirst | guesser.py:86 | `list.remove` shortens the list by one |
| Eliminator.RemoveFirstAfter | guesser.py:86 | removing a word that follows a prefix without it drops exactly that copy |
| Eliminator.RemoveFirstNoRepeats | guesser.py:185 | on a list without repeats, `remove(x)` drops exactly `x` and leaves no repeats |
| Eliminator.KeptNoRepeats | guesser.py:77-108 | the surviving sublist of a list without repeats has none |
| Eliminator.EliminateList | guesser.py:77-108 | eliminate (list) returns the words of the input that satisfy `Keep`, in their order |
| Eliminator.ListStep | guesser.py:82-106 | after each word the copy is the survivors so far followed by the words not yet visited |
| Eliminator.FreshTableKeepsList | guesser.py:77-108 | with a fresh table eliminate returns the list unchanged |
| Selector.PenaltyRange | wordguesser.py:133 | the penalty `len(word) - len(set(word))` of a five-letter word is 0 to 4, and 0 exactly when no letter repeats |
| Selector.DistinctIffFullLetterSet | wordguesser.py:133 | a word has as many distinct letters as positions exactly when no letter repeats |
| Selector.FirstLeast | wordguesser.py:135 | `min` over keys in insertion order returns the first key of least score |
| Selector.SumRemove | wordguesser.py:128-131 | the similarity sum over a set does not depend on which guess is added first |
| Selector.SumAdd | wordguesser.py:128-131 | a new guess adds its similarity to the sum |
| Selector.AddSimilarities | wordguesser.py:128-131 | the inner loop adds the word's similarity to every guess to its entry, creates the entry only when there are guesses, and leaves other entries alone |
| Selector.ChooseWordSet | wordguesser.py:118-135 | no choice exactly for no candidates; otherwise a candidate, and without `randomize` one of least score |
| Selector.SumListIsSumSet | guesser.py:120-122 | for guesses without repeats, the list sum is the set sum |
| Selector.ScoresAgree | guesser.py:119-124 | for guesses without repeats, the list score equals the set score |
| Selector.AddSimilaritiesList | guesser.py:120-122 | the inner loop adds the similarities in list order to the word's entry and leaves other entries alone |
| Selector.ChooseWordList | guesser.py:111-126 | no choice exactly for an empty list; otherwise a member, and without `randomize` the first one of least score |
| Game.LettersAfter | wordguesser.py:172 | the table after any number of rounds has a record for exactly the 26 letters |
| Game.LettersAfterAppend | wordguesser.py:169-186 | a later round does not change the table after the earlier ones |
| Game.LettersAfterGrows | wordguesser.py:172 | across rounds, known and impossible positions only grow and frozen counts stay frozen |
| Game.SurvivesRoundsAppend | wordguesser.py:173 | surviving the earlier rounds does not depend on later ones |
| Game.SurvivesRoundsExtend | wordguesser.py:173 | passing the next round's elimination extends survival by one round |
| Game.SurvivesLatest | wordguesser.py:173 | a survivor of the latest elimination has survived every round so far |
| Game.ConsistentAppend | wordguesser.py:173-177 | a new guess that survived every earlier round keeps the trace consistent |
| Game.RoundAppend | wordguesser.py:168-186 | a new round, numbered next, with the oracle's answer and a fresh guess, after an unsolved round keeps the trace numbered, unsolved before its end and free of repeats |
| Game.GuessedMembers | wordguesser.py:161 | the guessed words are exactly the guesses of the rounds |
| Game.GuessedAppend | wordguesser.py:184 | `guesses.add(guess)`: one more round adds exactly its guess |
| Game.LettersAfterStep | wordguesser.py:172 | the table after round n + 1 is the table after round n with round n folded in |
| Game.TableAfterRound | wordguesser.py:172 | the table folded with the last round is the table after it, also seen from a longer trace |
| Game.Advance | wordguesser.py:168-186 | one round of the main loop keeps the trace well played and the candidates open |
| Game.EligibleCandidates | wordguesser.py:170-173 | while a round is pending, every word eligible after it is a candidate other than the last guess and passes the elimination by that round's hints |
| Game.RoundEnds | wordguesser.py:173-183 | when elimination leaves no candidate but the last guess, no word is eligible; when the hint source refused every survivor, it refuses every eligible word at the next index |
| Game.CoversAfter | wordguesser.py:170-183 | the candidates after a round, which drop only words that fail the elimination or are refused at the next index, hold every word still pending after it |
| Game.PlayingAfter | wordguesser.py:169-186 | folding, eliminating and appending the chosen round restores the loop's state for the next index, candidates bounded from above and below |
| Soundness.FoldAgrees | wordguesser.py:60-81 | folding the true hints of a guess into a record that agrees with the solution keeps it agreeing, when the guess holds the known positions and, for a frozen count, the exact count |
| Soundness.SurvivorHoldsKnown | wordguesser.py:90-95 | a word that survived the first n rounds holds every known position of the table after them |
| Soundness.SurvivorMeetsFrozen | wordguesser.py:98-99 | a word that survived a round has exactly the frozen count of each of its letters |
| Soundness.TableAgrees | wordguesser.py:171-173 | under true hints, the table after any number of rounds of a consistent trace agrees with the solution, letter by letter |
| Soundness.PassesWhenAgreeing | wordguesser.py:84-115 | the solution passes the elimination by every table that agrees with it |
| Soundness.SolutionSurvives | wordguesser.py:168-186 | under a truthful hint source every round of a well-played trace is answered and the solution survives the elimination after each round |
| Soundness.SolutionEligible | wordguesser.py:168-183 | after such a trace, unsolved at its last round, a solution on the word list is eligible and the hint source accepts it at the next index |
| Soundness.NeverStuck | wordguesser.py:175-181 | an error stop whose meaning `Stuck` states cannot follow a truthful hint source whose solution is on the word list |
| Soundness.Finished | wordguesser.py:166-186 | when a pass of the main loop stops at index i, what the pass states about round i holds of the whole trace, whose last round it is: 1 to 7 rounds; solved exactly when the last hints are all Correct; the round cap only with 7 rounds; a refused opening exactly when round 0 is refused; a missing opening word only with one round and the opening word not in the list, and always when the opening word is not in the list and round 0 is answered but unsolved; an elimination stop after at most 6 rounds, the last unsolved |
| Game.Opened | wordguesser.py:159-166 | after the opening round every word of the list is a candidate and the table is fresh, as the main loop's state requires |
| WordGuesser.GuessWord | wordguesser.py:156-186 | the trace starts with "salet" and has 1 to 7 rounds and is well played; it ends solved exactly when the last hints are all Correct, by the round cap only after index 6, on a refused opening exactly when round 0 is refused, and on a missing opening word only after round 0 with "salet" not in the list, and always when "salet" is not in the list and round 0 is answered but unsolved; an error stop comes after at most 6 rounds, the last unsolved, and means what `Stuck` states; under a truthful hint source with the solution on the list, neither elimination stop happens |
| WordGuesser.Opening | wordguesser.py:159-166 | the state after the first yield: round 0 is "salet" with the oracle's answer and a fresh table, and `guesses` is {"salet"} |
| WordGuesser.Turn | wordguesser.py:168-186 | a loop pass stops exactly on the loop condition or an error, leaving the trace well played; it stops on a missing opening word exactly when the loop goes on (`Continues`) and the last guess is not a candidate, which at index 0 means "salet" is not in the list; the table is folded with the last hints exactly when the loop goes on with a candidate and is unchanged otherwise; NoPossibleWordsLeft exactly when then no other candidate passes, NoCandidates exactly when some passes and every survivor is refused at index i + 1 (`AllRefused`); an error stop means what `Stuck` states, and neither elimination stop can follow a truthful hint source with the solution on the list; otherwise it appends round i + 1, adds its guess to `guesses`, and the new candidates and guess are as `PlayRound` chooses them (`Chose`) |
| WordGuesser.NextRound | wordguesser.py:169-186 | the table is folded with the last hints; fails with NoPossibleWordsLeft exactly when no other candidate passes and with NoCandidates exactly when some passes and every survivor is refused at index i + 1; a failure changes nothing else reported and means what `Stuck` states; otherwise the trace grows by one round numbered i + 1 whose guess and candidates are as `PlayRound` chooses them (`Chose`) |
| WordGuesser.PlayRound | wordguesser.py:171-183 | drops the last guess, folds its hints, eliminates; fails with NoPossibleWordsLeft exactly when no other candidate passes, and with NoCandidates exactly when some passes and every survivor was refused (`AllRefused`); the new candidates are survivors, and every survivor left out was refused at this index; otherwise the next guess is a survivor of least score that the oracle accepts, and every survivor no longer a candidate was chosen before it and scores at most as much (`TriedFirst`) |
| Guesser.GuessesAppend | guesser.py:198 | `guesses.append(guess)`: the list of guesses follows the trace |
| Guesser.ListScoreIsSetScore | guesser.py:191 | on a trace without repeated guesses the list of guesses scores every word as the set of guesses does |
| Guesser.GuessWordList | guesser.py:170-200 | the trace starts with "crane" and has the same guarantees as the set version, against the words of the list: the stop on a missing opening word in both directions and soundness under a truthful hint source included |
| Guesser.OpeningList | guesser.py:173-180 | the state after the first yield: round 0 is "crane" and `guesses` is ["crane"] |
| Guesser.TurnList | guesser.py:182-200 | the same exact stop conditions as WordGuesser.Turn: a missing opening word exactly when the loop goes on and the last guess is not in the candidate list, which at index 0 means "crane" is not in the list; the table folded exactly when going on with a candidate; NoPossibleWordsLeft and NoCandidates exactly as there; an error stop means what `Stuck` states, and neither elimination stop can follow a truthful hint source with the solution on the list; otherwise it appends round i + 1 and its guess, and the new list and guess are as `PlayRoundList` chooses them (`ChoseList`) |
| Guesser.NextRoundList | guesser.py:183-200 | the table is folded with the last hints; NoPossibleWordsLeft exactly when no other candidate passes, NoCandidates exactly when some passes and every survivor is refused; a failure means what `Stuck` states; otherwise the new list keeps no repeats and the new list and guess are as `PlayRoundList` chooses them (`ChoseList`) |
| Guesser.CandidatesAreWords | guesser.py:176 | the candidates are words of the word list |
| Guesser.PlayingAfterList | guesser.py:185-200 | `Game.PlayingAfter` for candidates kept in lists |
| Guesser.PlayRoundList | guesser.py:185-197 | `remove`s the last guess, folds, eliminates; fails with NoPossibleWordsLeft exactly when no other candidate passes, and with NoCandidates exactly when some passes and every survivor was refused; the new list is exactly the survivors other than the last guess, in list order, without the words the refusal loop tried (`Sift`); the tried words, in order, were each refused at this index and each the first of least list score of the list left at its turn (`TriedInOrder`), and on success each scores at most as much as the accepted guess (`Tried`); otherwise the next guess is the first survivor of least list score in the new list (`FirstOfLeast`), and the oracle accepts it |
| Guesser.PlayRoundListBrief | guesser.py:185-197 | Guesser.PlayRoundList's guarantees with success summed up by `ChoseList`: the new list is the sifted list of some run of tries, each refused and first of least score at its turn, and the accepted guess is the first of least score of the new list |
| Guesser.ChooseAcceptedList | guesser.py:191-197 | the refusal loop: it removes each refused guess and chooses again; it ends with NoCandidates and an empty list exactly when every survivor was refused, and otherwise with an accepted guess that is the first of least list score in what is left; the list left is the survivors without the tried words; the tried words, in the order tried, were each refused and each the first of least score of the list left at its turn (`TriedInOrder`), and each scores at most as much as the accepted guess |
| Guesser.TurnListBrief | guesser.py:182-200 | `TurnList` with its promises restated, on a stop, for the whole trace (as Soundness.Finished states them), and otherwise the next loop state, the opening word in the list |
| Guesser.ChosenFirstOfLeast | guesser.py:191 | the word `choose_word` picks from the list is the first of least list score (`FirstOfLeast`) and no word of the list scores less |
| Guesser.TriedMore | guesser.py:194-197 | after one more refusal, the tried words including the refused one still score at most as much as the next choice, because the choice is made from what is left |
| Guesser.TriedStep | guesser.py:194-197 | a refused word that is the first of least score of the list left extends a run of tries in order |
| Guesser.FirstOfLeastUnique | guesser.py:191 | a list has at most one first word of least score: the choice is determined |
| Guesser.TriesAgree | guesser.py:194-197 | two runs of tries in order over the same list agree on the prefix they both cover |
| Guesser.RefusalsDetermined | guesser.py:191-197 | two runs of tries in order that both end at an accepted first word of least score are the same run with the same accepted word: the refusal loop's outcome is determined by the list, the table and the oracle |
| Guesser.Sift | guesser.py:185-197 | the survivors of the elimination other than the last guess, without a set of refused words, in list order; never longer than the list |
| Guesser.SiftMembers | guesser.py:185-197 | a word is in that list exactly when it is a candidate other than the last guess, passes the elimination and was not refused |
| Guesser.SiftAppend | guesser.py:187 | sifting a concatenation sifts each part |
| Guesser.SiftSkips | guesser.py:195 | refusing a word that is not in the list changes nothing |
| Guesser.SiftAround | guesser.py:187 | sifting a list split around one word sifts the two sides and keeps the word exactly when it passes and was not refused |
| Guesser.SiftRemovedGuess | guesser.py:185 | `possible_words.remove(guess)` does not change the sifted list, since the last guess is sifted out anyway |
| Guesser.KeptIsSift | guesser.py:185-187 | the list version of `eliminate`, on a list without the last guess whose words `Fits` the guess and the table, returns the sifted list with nothing refused |
| Guesser.SiftAroundKept | guesser.py:195 | a word that occurs once, passes and was not refused splits the sifted list around it, and refusing it removes exactly that word |
| Guesser.SiftRefuse | guesser.py:195 | `possible_words.remove(guess)` on the sifted list of a refused guess gives the sifted list with that guess refused as well |
| Guesser.NonePassIffNoneSifted | guesser.py:189-190 | no other candidate passes the elimination exactly when the sifted list is empty, the `IndexError` case |
| Guesser.SiftedAfterRefusals | guesser.py:194-197 | a sifted list whose tried words were all refused holds only survivors and leaves out only refused ones, as `Game.Sifted` states |

Some definitions carry no contract of their own. The members in the table state what they mean:

- `Letters.Step` and `Letters.Replay` (wordguesser.py:65-81) are one iteration and the first n iterations
  of `build_letters_data` for one letter. See Letters.ReplayKnown, ReplayImpossible, ReplayFrozen,
  ReplayMinCount and LetterTable.ApplyHint.
- `Letters.Get` (wordguesser.py:74) and `Selector.GetScore` (wordguesser.py:130) are `dict.get(key, 0)`.
  See LetterTable.ApplyHint and Selector.AddSimilarities.
- `Eliminator.Fits`, `Violates`, `MissesYellow`, `Keep` and `Passes` (wordguesser.py:90-113) are the checks
  of `eliminate`. See Eliminator.PassesPositions, PassesYellows, Checks and EliminateSet.
- `Selector.Penalty` (wordguesser.py:133) is the repeated-letter penalty. See Selector.PenaltyRange.
- `Selector.SumSimilarity` and `Score` (wordguesser.py:126-133) are the score that `choose_word` builds
  in `comparison`. See Selector.SumAdd, SumRemove and ChooseWordSet.
- `Selector.SumSimilarityList` and `ScoreList` (guesser.py:119-124) are the same in list order. See
  Selector.SumListIsSumSet, ScoresAgree and ChooseWordList.
- `Hints.AllCorrect` (wordguesser.py:168) is the loop condition `set(hints.values()) == {True}`. See
  Hints.GenerateHints and the GuessWord rows.
- `Letters.Default` (wordguesser.py:50-57) is `LetterData()`. See Letters.FreshTable.
- `Hints.Tally` and `Letters.Positions` (wordguesser.py:65-81) count a letter's marks of one kind and
  collect their positions. See Hints.TallyOfExpected, Letters.PositionsMembers, PositionsSize and TallyPositive.
- The constants `Words.WordLength` (wordguesser.py:17) and `FirstGuess` of each version (wordguesser.py:19,
  guesser.py:174) are `WORD_LENGTH` and the opening word. See Hints.GenerateHints and the GuessWord rows.
- `WordGuesser.TriedFirst`, `Guesser.Tried` and `Guesser.FirstOfLeast` (wordguesser.py:180-183,
  guesser.py:194-197) state how the refusal loop chooses. See WordGuesser.PlayRound, Guesser.PlayRoundList
  and ChooseAcceptedList.
- `Game.Continues` (wordguesser.py:168, guesser.py:182) is the loop condition together with the round cap; see the
  Turn rows. `Game.AllRefused` (wordguesser.py:177-183) says every survivor is refused at an index; see the
  PlayRound, NextRound and Turn rows.
- `WordGuesser.Chose` and `Guesser.ChoseList` (wordguesser.py:171-183, guesser.py:185-197) gather what one
  round promises on success; `Guesser.TriedInOrder` (guesser.py:191-197) is the run of refused choices in
  order. See the PlayRound, NextRound and Turn rows and Guesser.RefusalsDetermined.
- `Game.Eligible`, `EligibleWords`, `AcceptedNext`, `Stuck`, `Pending`, `Covers`, `NonePass` and `Sifted`
  state the meaning of the loop state and of the error stops. See the Game and Soundness rows.

## Left out

- Scraping hints from the web page (`scrape_hints`, Playwright), `colorize` and its terminal colours, the
  CLI wrappers and loading `words.txt`: I/O. The hint source is the parameter `oracle`, a pure function of the
  guess and the round index.
- The word lists are assumed to hold five-letter lower-case words, and the list version's without
  repeats. `guesser.py` reads `WORDLIST` unfiltered, and `list.remove` on a list with repeats drops only one copy.
- `SequenceMatcher.ratio` is the parameter `sim`, with exact `real` arithmetic. Python sums floats in
  iteration order, so rounding may differ and rank candidates differently.
- `random.choice` is an arbitrary choice (`:|`). The solver's loops always pass `randomize=False`.
- Tie-breaking follows the code: `min` returns the first key of least score in dictionary insertion order
  (set iteration order, modelled as arbitrary, for the set version). It is not the lexicographically least word.
- `min_count` follows the code: cumulative known positions plus only this round's Present marks. A
  description that counts every Present hint seen would differ.
- The Python errors are `Stop` values rather than exceptions: `set(None.values())` on a refused opening,
  `remove` of a missing opening word, `IndexError`, and `min` of an empty dictionary. Nothing after them is modelled.
- The generator is the trace of its yields plus a stop reason. Laziness is not modelled: a consumer that
  stops early, such as the callers' check at index 5, is not modelled.
- Hints.GenerateHints: requires a guess without '.', the character the code uses to blank solution
  letters. Every word of the list satisfies this.
- Hints.GenerateHints: requires a five-letter guess and solution. The code builds keys 0..4 whatever the
  lengths; other lengths are not modelled.
- WordGuesser.GuessWord, Guesser.GuessWordList: `Stuck` states only one direction for each elimination stop. A candidate that the hint
  source was never asked about at an earlier index may still be refused there, so it is not `Eligible`.
  The exact condition is stated on the candidates of the last round, in the PlayRound, NextRound and Turn rows.
- Selector.ChooseWordSet: states that the choice has the least score, not which least-score candidate is
  returned. Set iteration order is not modelled.
