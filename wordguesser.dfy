/**
 * `guess_word` of the set-based solver: the opening guess "salet", then up to
 * six more rounds of fold-hints, eliminate, choose. The generator's yields
 * are collected into a trace; a raised error ends it with a Stop reason.
 * The hint source `get_hints(guess, i, solution=...)` is the parameter
 * `oracle`, and SequenceMatcher's ratio is `sim`.
 */
module WordGuesser {
  import opened Words
  import opened Hints
  import opened Letters
  import opened Eliminator
  import opened Selector
  import opened Game
  import opened Soundness

  /** FIRST_GUESS */
  const FirstGuess: string := "salet"

  /**
   * guess_word. The trace starts with the opening round and has at most
   * seven rounds; it is well played (round k is numbered k and carries the
   * oracle's answer, no round follows one whose hints are all Correct, later
   * guesses come from the word list, no word is guessed twice, and each guess
   * survives the elimination by the table after every earlier round). The
   * stop reason says why the generator ended.
   */
  method GuessWord(wordList: set<string>, oracle: (string, nat) -> HintResult, sim: (string, string) -> real,
                   ghost solution: string)
    returns (trace: seq<Round>, stop: Stop)
    requires forall w :: w in wordList ==> IsWord(w)
    requires WellFormedOracle(oracle)
    ensures 1 <= |trace| <= 7 && trace[0].guess == FirstGuess
    ensures WellPlayed(trace, oracle, wordList)
    ensures stop == Solved <==> trace[|trace| - 1].result.Hints? && AllCorrect(trace[|trace| - 1].result.hints)
    ensures stop == OutOfGuesses ==> |trace| == 7
    ensures stop == OpeningRejected <==> trace[0].result.Rejected?
    ensures stop == OpeningNotInList ==> |trace| == 1 && FirstGuess !in wordList
    ensures FirstGuess !in wordList && trace[0].result.Hints? && !AllCorrect(trace[0].result.hints) ==>
              stop == OpeningNotInList
    ensures stop == NoPossibleWordsLeft || stop == NoCandidates ==>
              |trace| <= 6 && trace[|trace| - 1].result.Hints? && !AllCorrect(trace[|trace| - 1].result.hints)
    ensures Stuck(trace, oracle, wordList, stop)
    ensures Truthful(oracle, solution) && solution in wordList ==>
              stop != NoPossibleWordsLeft && stop != NoCandidates
  {
    var i: nat := 0;
    var guess := FirstGuess;
    var guesses := {guess};
    var table := new LetterTable();
    var possible := wordList;
    var result := oracle(guess, i);
    trace := [Round(i, guess, result)];
    Opening(trace, table.letters, wordList, oracle);

    while true
      invariant Playing(trace, table.letters, possible, guess, result, i, oracle, wordList)
      invariant i <= 6 && trace[0].guess == FirstGuess
      invariant i > 0 ==> FirstGuess in wordList
      invariant i == 0 && guess in wordList ==> guess in possible
      invariant guesses == Guessed(trace)
      decreases 6 - i
    {
      var outcome;
      ghost var checked, answer := guess, result;
      trace, possible, guess, result, guesses, outcome :=
        Turn(table, trace, possible, guess, result, guesses, i, wordList, oracle, sim, solution);
      if outcome.Some? {
        Finished(trace, FirstGuess, i, checked, answer, outcome, wordList, oracle);
        stop := outcome.value;
        break;
      }
      i := i + 1;
    }
  }

  /** The state after the opening round. */
  lemma Opening(trace: seq<Round>, letters: map<char, LetterData>, wordList: set<string>, oracle: (string, nat) -> HintResult)
    requires trace == [Round(0, FirstGuess, oracle(FirstGuess, 0))] && letters == FreshTable()
    ensures Playing(trace, letters, wordList, FirstGuess, oracle(FirstGuess, 0), 0, oracle, wordList)
    ensures Guessed(trace) == {FirstGuess}
  {
    assert IsWord(FirstGuess);
    Opened(trace, letters, FirstGuess, oracle, wordList);
    GuessedAppend([], trace[0]);
    assert [] + [trace[0]] == trace;
  }

  /**
   * One pass of the main loop: the checks that end the generator (the loop
   * condition, and the errors Python raises), then the next round.
   */
  method Turn(table: LetterTable, trace: seq<Round>, possible: set<string>, guess: string, result: HintResult,
              guesses: set<string>, i: nat, wordList: set<string>,
              oracle: (string, nat) -> HintResult, sim: (string, string) -> real,
              ghost solution: string)
    returns (trace': seq<Round>, possible': set<string>, guess': string, result': HintResult,
             guesses': set<string>, stop: Option<Stop>)
    requires forall w :: w in wordList ==> IsWord(w)
    requires WellFormedOracle(oracle)
    requires Playing(trace, table.letters, possible, guess, result, i, oracle, wordList)
    requires i <= 6 && (i == 0 && guess in wordList ==> guess in possible)
    requires guesses == Guessed(trace)
    modifies table
    ensures stop.Some? ==> trace' == trace && |trace| == i + 1 && trace[i] == Round(i, guess, result)
                           && WellPlayed(trace, oracle, wordList)
    ensures stop == Some(Solved) <==> result.Hints? && AllCorrect(result.hints)
    ensures stop == Some(OutOfGuesses) ==> i == 6
    ensures stop == Some(OpeningRejected) <==> result.Rejected?
    ensures stop == Some(OpeningNotInList) ==> i == 0 && guess !in wordList
    ensures i == 0 && Continues(result, i) && guess !in wordList ==> stop == Some(OpeningNotInList)
    ensures stop == Some(NoPossibleWordsLeft) || stop == Some(NoCandidates) ==>
              i < 6 && result.Hints? && !AllCorrect(result.hints)
    ensures stop.Some? ==> Stuck(trace, oracle, wordList, stop.value)
    ensures stop.Some? && Truthful(oracle, solution) && solution in wordList ==>
              stop.value != NoPossibleWordsLeft && stop.value != NoCandidates
    ensures stop == Some(OpeningNotInList) <==> Continues(result, i) && guess !in possible
    ensures Continues(result, i) && guess in possible ==> table.letters == Folded(old(table.letters), guess, result.hints)
    ensures !(Continues(result, i) && guess in possible) ==> table.letters == old(table.letters)
    ensures stop == Some(NoPossibleWordsLeft) <==>
              Continues(result, i) && guess in possible && NonePass(possible, guess, table.letters)
    ensures stop == Some(NoCandidates) <==>
              && Continues(result, i) && guess in possible
              && !NonePass(possible, guess, table.letters) && AllRefused(possible, guess, table.letters, oracle, i + 1)
    ensures stop.None? ==> Chose(possible, guess, table.letters, possible', guess', guesses, oracle, i + 1, sim)
    ensures stop.None? ==> && i < 6
                           && Playing(trace', table.letters, possible', guess', result', i + 1, oracle, wordList)
                           && trace' == trace + [Round(i + 1, guess', result')]
                           && guesses' == Guessed(trace')
  {
    trace', possible', guess', result', guesses' := trace, possible, guess, result, guesses;
    if result.Rejected? {
      stop := Some(OpeningRejected);
    } else if AllCorrect(result.hints) {
      stop := Some(Solved);
    } else if i >= 6 {
      stop := Some(OutOfGuesses);
    } else if guess !in possible {
      stop := Some(OpeningNotInList);
    } else {
      trace', possible', guess', result', guesses', stop :=
        NextRound(table, trace, possible, guess, result, guesses, i, wordList, oracle, sim);
    }
    if stop.Some? {
      StuckAt(trace, oracle, wordList, stop.value);
      NeverStuck(trace, oracle, wordList, stop.value, solution);
    }
  }

  /**
   * One pass of the main loop after the checks: play the round and append it
   * to the trace. On failure nothing the caller reports changes.
   */
  method NextRound(table: LetterTable, trace: seq<Round>, possible: set<string>, guess: string, result: HintResult,
                   guesses: set<string>, i: nat, wordList: set<string>,
                   oracle: (string, nat) -> HintResult, sim: (string, string) -> real)
    returns (trace': seq<Round>, possible': set<string>, guess': string, result': HintResult,
             guesses': set<string>, failure: Option<Stop>)
    requires forall w :: w in wordList ==> IsWord(w)
    requires WellFormedOracle(oracle)
    requires Playing(trace, table.letters, possible, guess, result, i, oracle, wordList)
    requires result.Hints? && !AllCorrect(result.hints) && guess in possible
    requires guesses == Guessed(trace)
    modifies table
    ensures failure == None || failure == Some(NoPossibleWordsLeft) || failure == Some(NoCandidates)
    ensures failure.Some? ==> trace' == trace && guess' == guess && result' == result
    ensures failure == Some(NoPossibleWordsLeft) ==> Stuck(trace, oracle, wordList, NoPossibleWordsLeft)
    ensures failure == Some(NoCandidates) ==> Stuck(trace, oracle, wordList, NoCandidates)
    ensures table.letters == Folded(old(table.letters), guess, result.hints)
    ensures failure == Some(NoPossibleWordsLeft) <==> NonePass(possible, guess, table.letters)
    ensures failure == Some(NoCandidates) <==>
              !NonePass(possible, guess, table.letters) && AllRefused(possible, guess, table.letters, oracle, i + 1)
    ensures failure.None? ==> Chose(possible, guess, table.letters, possible', guess', guesses, oracle, i + 1, sim)
    ensures failure.None? ==> && Playing(trace', table.letters, possible', guess', result', i + 1, oracle, wordList)
                              && trace' == trace + [Round(i + 1, guess', result')]
                              && guesses' == Guessed(trace')
  {
    ghost var before := table.letters;
    var next, answer;
    assert Answered(trace[i]);
    possible', next, answer, failure := PlayRound(table, possible, guess, result.hints, guesses, i + 1, oracle, sim);
    if failure.Some? {
      RoundEnds(trace, before, possible, guess, result, i, oracle, wordList, table.letters, possible',
                failure == Some(NoPossibleWordsLeft), failure == Some(NoCandidates));
      return trace, possible', guess, result, guesses, failure;
    }
    var round := Round(i + 1, next, answer);
    PlayingAfter(trace, before, possible, guess, result, i, oracle, wordList, round, possible', table.letters);
    GuessedAppend(trace, round);
    trace', guess', result', guesses' := trace + [round], next, answer, guesses + {next};
  }

  /**
   * The refusal loop drops a survivor only after choosing it, and it chooses
   * in order of score: every survivor of the elimination that is no longer a
   * candidate scores at most as much as the guess finally accepted.
   */
  ghost predicate TriedFirst(possible: set<string>, guess: string, letters: map<char, LetterData>,
                             remaining: set<string>, next: string, guesses: set<string>,
                             sim: (string, string) -> real) {
    forall w :: w in possible && w != guess && Passes(w, guess, letters) && w !in remaining ==>
                  Score(w, guesses, sim) <= Score(next, guesses, sim)
  }

  /**
   * What a round that goes on promises: the new candidates are the survivors
   * without some refused at `index`, each of those scoring at most as much as
   * the next guess, which is a candidate of least score that the hint source
   * accepts at `index`.
   */
  ghost predicate Chose(possible: set<string>, guess: string, folded: map<char, LetterData>,
                        remaining: set<string>, next: string, guesses: set<string>,
                        oracle: (string, nat) -> HintResult, index: nat, sim: (string, string) -> real) {
    && Sifted(possible, guess, folded, remaining, oracle, index)
    && next in remaining && oracle(next, index).Hints?
    && (forall v :: v in remaining ==> Score(next, guesses, sim) <= Score(v, guesses, sim))
    && TriedFirst(possible, guess, folded, remaining, next, guesses, sim)
  }

  /**
   * The body of the main loop up to the next yield: drop the last guess from
   * the candidates, fold its hints into the table, eliminate, and choose the
   * next guess, choosing again (without the refused word) while the hint
   * source refuses it. Fails when elimination leaves nothing or every
   * remaining candidate is refused.
   */
  method PlayRound(table: LetterTable, possible: set<string>, guess: string, hints: seq<Hint>, guesses: set<string>,
                   i: nat, oracle: (string, nat) -> HintResult, sim: (string, string) -> real)
    returns (remaining: set<string>, next: string, result: HintResult, failure: Option<Stop>)
    requires IsWord(guess) && |hints| == WordLength && guess in possible
    requires forall w :: w in possible ==> IsWord(w)
    requires CoversAlphabet(table.letters)
    modifies table
    ensures table.letters == Folded(old(table.letters), guess, hints)
    ensures CoversAlphabet(table.letters)
    ensures failure == None || failure == Some(NoPossibleWordsLeft) || failure == Some(NoCandidates)
    ensures failure == Some(NoPossibleWordsLeft) <==> NonePass(possible, guess, table.letters)
    ensures failure == Some(NoCandidates) ==> remaining == {}
    ensures failure == Some(NoCandidates) <==>
              !NonePass(possible, guess, table.letters) && AllRefused(possible, guess, table.letters, oracle, i)
    ensures Sifted(possible, guess, table.letters, remaining, oracle, i)
    ensures failure.None? ==> && next in remaining
                              && result == oracle(next, i) && result.Hints?
                              && (forall v :: v in remaining ==> Score(next, guesses, sim) <= Score(v, guesses, sim))
                              && TriedFirst(possible, guess, table.letters, remaining, next, guesses, sim)
  {
    remaining := possible - {guess};
    table.BuildLettersData(guess, hints);
    remaining := EliminateSet(remaining, guess, table.letters);
    ghost var survivors := remaining;
    assert forall w :: w in survivors <==> w in possible && w != guess && Passes(w, guess, table.letters);
    if remaining == {} {
      return remaining, guess, Rejected, Some(NoPossibleWordsLeft);
    }

    var choice := ChooseWordSet(guesses, remaining, false, sim);
    next := choice.value;
    result := oracle(next, i);
    while result.Rejected?
      invariant next in remaining && remaining <= survivors
      invariant forall w :: w in survivors && w !in remaining ==> oracle(w, i).Rejected?
      invariant table.letters == Folded(old(table.letters), guess, hints)
      invariant result == oracle(next, i)
      invariant forall v :: v in remaining ==> Score(next, guesses, sim) <= Score(v, guesses, sim)
      invariant forall w :: w in survivors && w !in remaining ==> Score(w, guesses, sim) <= Score(next, guesses, sim)
      decreases |remaining|
    {
      remaining := remaining - {next};
      choice := ChooseWordSet(guesses, remaining, false, sim);
      if choice.None? {
        return remaining, next, result, Some(NoCandidates);
      }
      next := choice.value;
      result := oracle(next, i);
    }
    failure := None;
  }
}
