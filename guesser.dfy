/**
 * `guess_word` of the list-based solver: the opening guess "crane", then up
 * to six more rounds of fold-hints, eliminate, choose, where the candidates
 * and the guesses so far are lists. The hint source (the scraped web page) is
 * the parameter `oracle`, and SequenceMatcher's ratio is `sim`.
 */
module Guesser {
  import opened Words
  import opened Hints
  import opened Letters
  import opened Eliminator
  import opened Selector
  import opened Game
  import opened Soundness

  /** The opening guess. */
  const FirstGuess: string := "crane"

  /** The words of a list, as a set. */
  function Elements(s: seq<string>): set<string> {
    set w | w in s
  }

  /** The guesses of a trace in order: the list `guesses`. */
  function Guesses(rounds: seq<Round>): seq<string> {
    seq(|rounds|, k requires 0 <= k < |rounds| => rounds[k].guess)
  }

  /** `guesses.append(guess)` follows the trace. */
  lemma GuessesAppend(rounds: seq<Round>, r: Round)
    ensures Guesses(rounds + [r]) == Guesses(rounds) + [r.guess]
    ensures Guesses(rounds + [r])[|rounds|] == r.guess
  {
    assert (rounds + [r])[|rounds|] == r;
  }

  /**
   * On a trace without repeated guesses the list of guesses scores every
   * word exactly as the set of guesses does, so both solvers rank the
   * candidates alike.
   */
  lemma ListScoreIsSetScore(rounds: seq<Round>, word: string, sim: (string, string) -> real)
    requires FreshGuesses(rounds)
    ensures NoRepeats(Guesses(rounds))
    ensures ScoreList(word, Guesses(rounds), sim) == Score(word, Guessed(rounds), sim)
  {
    var gs := Guesses(rounds);
    GuessedMembers(rounds);
    assert (set g | g in gs) == Guessed(rounds) by {
      forall g | g in Guessed(rounds)
        ensures g in gs
      {
        var k :| 0 <= k < |rounds| && rounds[k].guess == g;
        assert gs[k] == g;
      }
    }
    ScoresAgree(word, gs, sim);
  }

  /**
   * guess_word. The same promises as the set version: the trace starts with
   * the opening round, has at most seven rounds and is well played against
   * the words of the list; the stop reason says why the generator ended.
   */
  method GuessWordList(wordList: seq<string>, oracle: (string, nat) -> HintResult, sim: (string, string) -> real,
                       ghost solution: string)
    returns (trace: seq<Round>, stop: Stop)
    requires forall w :: w in wordList ==> IsWord(w)
    requires NoRepeats(wordList)
    requires WellFormedOracle(oracle)
    ensures 1 <= |trace| <= 7 && trace[0].guess == FirstGuess
    ensures WellPlayed(trace, oracle, Elements(wordList))
    ensures stop == Solved <==> trace[|trace| - 1].result.Hints? && AllCorrect(trace[|trace| - 1].result.hints)
    ensures stop == OutOfGuesses ==> |trace| == 7
    ensures stop == OpeningRejected <==> trace[0].result.Rejected?
    ensures stop == OpeningNotInList ==> |trace| == 1 && FirstGuess !in wordList
    ensures FirstGuess !in wordList && trace[0].result.Hints? && !AllCorrect(trace[0].result.hints) ==>
              stop == OpeningNotInList
    ensures stop == NoPossibleWordsLeft || stop == NoCandidates ==>
              |trace| <= 6 && trace[|trace| - 1].result.Hints? && !AllCorrect(trace[|trace| - 1].result.hints)
    ensures Stuck(trace, oracle, Elements(wordList), stop)
    ensures Truthful(oracle, solution) && solution in wordList ==>
              stop != NoPossibleWordsLeft && stop != NoCandidates
  {
    var i: nat := 0;
    var guess := FirstGuess;
    var table := new LetterTable();
    var possible := wordList;
    var result := oracle(guess, i);
    var guesses := [guess];
    trace := [Round(i, guess, result)];
    OpeningList(trace, table.letters, wordList, oracle);

    while true
      invariant Playing(trace, table.letters, Elements(possible), guess, result, i, oracle, Elements(wordList))
      invariant NoRepeats(possible)
      invariant i <= 6 && trace[0].guess == FirstGuess
      invariant i > 0 ==> FirstGuess in wordList
      invariant i == 0 && guess in wordList ==> guess in possible
      invariant guesses == Guesses(trace)
      decreases 6 - i
    {
      var outcome;
      trace, possible, guess, result, guesses, outcome :=
        TurnListBrief(table, trace, possible, guess, result, guesses, i, wordList, oracle, sim, solution);
      if outcome.Some? {
        stop := outcome.value;
        break;
      }
      i := i + 1;
    }
  }

  /** The state after the opening round. */
  lemma OpeningList(trace: seq<Round>, letters: map<char, LetterData>, wordList: seq<string>,
                    oracle: (string, nat) -> HintResult)
    requires trace == [Round(0, FirstGuess, oracle(FirstGuess, 0))] && letters == FreshTable()
    ensures Playing(trace, letters, Elements(wordList), FirstGuess, oracle(FirstGuess, 0), 0, oracle, Elements(wordList))
    ensures Guesses(trace) == [FirstGuess]
  {
    assert IsWord(FirstGuess);
    Opened(trace, letters, FirstGuess, oracle, Elements(wordList));
    GuessesAppend([], trace[0]);
    assert [] + [trace[0]] == trace;
  }

  /**
   * One pass of the main loop: the checks that end the generator (the loop
   * condition, and the errors Python raises), then the next round.
   */
  method TurnList(table: LetterTable, trace: seq<Round>, possible: seq<string>, guess: string, result: HintResult,
                  guesses: seq<string>, i: nat, wordList: seq<string>,
                  oracle: (string, nat) -> HintResult, sim: (string, string) -> real,
                  ghost solution: string)
    returns (trace': seq<Round>, possible': seq<string>, guess': string, result': HintResult,
             guesses': seq<string>, stop: Option<Stop>)
    requires forall w :: w in wordList ==> IsWord(w)
    requires WellFormedOracle(oracle)
    requires Playing(trace, table.letters, Elements(possible), guess, result, i, oracle, Elements(wordList))
    requires NoRepeats(possible)
    requires i <= 6 && (i == 0 && guess in wordList ==> guess in possible)
    requires guesses == Guesses(trace)
    modifies table
    ensures stop.Some? ==> trace' == trace && |trace| == i + 1 && trace[i] == Round(i, guess, result)
                           && WellPlayed(trace, oracle, Elements(wordList))
    ensures stop == Some(Solved) <==> result.Hints? && AllCorrect(result.hints)
    ensures stop == Some(OutOfGuesses) ==> i == 6
    ensures stop == Some(OpeningRejected) <==> result.Rejected?
    ensures stop == Some(OpeningNotInList) ==> i == 0 && guess !in wordList
    ensures i == 0 && Continues(result, i) && guess !in Elements(wordList) ==> stop == Some(OpeningNotInList)
    ensures stop == Some(NoPossibleWordsLeft) || stop == Some(NoCandidates) ==>
              i < 6 && result.Hints? && !AllCorrect(result.hints)
    ensures stop.Some? ==> Stuck(trace, oracle, Elements(wordList), stop.value)
    ensures stop.Some? && Truthful(oracle, solution) && solution in wordList ==>
              stop.value != NoPossibleWordsLeft && stop.value != NoCandidates
    ensures stop == Some(OpeningNotInList) <==> Continues(result, i) && guess !in possible
    ensures Continues(result, i) && guess in possible ==> table.letters == Folded(old(table.letters), guess, result.hints)
    ensures !(Continues(result, i) && guess in possible) ==> table.letters == old(table.letters)
    ensures stop == Some(NoPossibleWordsLeft) <==>
              Continues(result, i) && guess in possible && NonePass(Elements(possible), guess, table.letters)
    ensures stop == Some(NoCandidates) <==>
              && Continues(result, i) && guess in possible
              && !NonePass(Elements(possible), guess, table.letters)
              && AllRefused(Elements(possible), guess, table.letters, oracle, i + 1)
    ensures stop.None? ==> ChoseList(possible, guess, table.letters, possible', guess', guesses, oracle, i + 1, sim)
    ensures stop.None? ==> && i < 6
                           && Playing(trace', table.letters, Elements(possible'), guess', result', i + 1, oracle, Elements(wordList))
                           && NoRepeats(possible')
                           && trace' == trace + [Round(i + 1, guess', result')]
                           && guesses' == Guesses(trace')
  {
    trace', possible', guess', result', guesses' := trace, possible, guess, result, guesses;
    if result.Rejected? {
      stop := Some(OpeningRejected);
    } else if AllCorrect(result.hints) {
      stop := Some(Solved);
    } else if i >= 6 {
      stop := Some(OutOfGuesses);
    } else if guess !in possible {
      stop := Some(OpeningNotInList);
    } else {
      trace', possible', guess', result', guesses', stop :=
        NextRoundList(table, trace, possible, guess, result, guesses, i, wordList, oracle, sim);
    }
    if stop.Some? {
      StuckAt(trace, oracle, Elements(wordList), stop.value);
      NeverStuck(trace, oracle, Elements(wordList), stop.value, solution);
    }
  }

  /**
   * TurnList with what it promises restated for the whole trace when the
   * generator ends, and the next state otherwise, which is all the main loop
   * needs.
   */
  method TurnListBrief(table: LetterTable, trace: seq<Round>, possible: seq<string>, guess: string, result: HintResult,
                       guesses: seq<string>, i: nat, wordList: seq<string>,
                       oracle: (string, nat) -> HintResult, sim: (string, string) -> real,
                       ghost solution: string)
    returns (trace': seq<Round>, possible': seq<string>, guess': string, result': HintResult,
             guesses': seq<string>, stop: Option<Stop>)
    requires forall w :: w in wordList ==> IsWord(w)
    requires WellFormedOracle(oracle)
    requires Playing(trace, table.letters, Elements(possible), guess, result, i, oracle, Elements(wordList))
    requires NoRepeats(possible)
    requires i <= 6 && trace[0].guess == FirstGuess
    requires i > 0 ==> FirstGuess in wordList
    requires i == 0 && guess in wordList ==> guess in possible
    requires guesses == Guesses(trace)
    modifies table
    ensures stop.Some? ==> && trace' == trace && 1 <= |trace| <= 7
                           && WellPlayed(trace, oracle, Elements(wordList))
                           && (stop.value == Solved <==> trace[|trace| - 1].result.Hints? && AllCorrect(trace[|trace| - 1].result.hints))
                           && (stop.value == OutOfGuesses ==> |trace| == 7)
                           && (stop.value == OpeningRejected <==> trace[0].result.Rejected?)
                           && (stop.value == OpeningNotInList ==> |trace| == 1 && FirstGuess !in wordList)
                           && (FirstGuess !in wordList && trace[0].result.Hints? && !AllCorrect(trace[0].result.hints) ==>
                                 stop.value == OpeningNotInList)
                           && (stop.value == NoPossibleWordsLeft || stop.value == NoCandidates ==>
                                 |trace| <= 6 && trace[|trace| - 1].result.Hints? && !AllCorrect(trace[|trace| - 1].result.hints))
                           && Stuck(trace, oracle, Elements(wordList), stop.value)
                           && (Truthful(oracle, solution) && solution in wordList ==>
                                 stop.value != NoPossibleWordsLeft && stop.value != NoCandidates)
    ensures stop.None? ==> && i < 6
                           && Playing(trace', table.letters, Elements(possible'), guess', result', i + 1, oracle, Elements(wordList))
                           && NoRepeats(possible')
                           && trace'[0].guess == FirstGuess && FirstGuess in wordList
                           && guesses' == Guesses(trace')
  {
    trace', possible', guess', result', guesses', stop :=
      TurnList(table, trace, possible, guess, result, guesses, i, wordList, oracle, sim, solution);
    if stop.Some? {
      Finished(trace, FirstGuess, i, guess, result, stop, Elements(wordList), oracle);
    } else if i == 0 {
      assert guess in Elements(wordList);
    }
  }

  /**
   * One pass of the main loop after the checks: play the round and append it
   * to the trace. On failure nothing the caller reports changes.
   */
  method NextRoundList(table: LetterTable, trace: seq<Round>, possible: seq<string>, guess: string, result: HintResult,
                       guesses: seq<string>, i: nat, wordList: seq<string>,
                       oracle: (string, nat) -> HintResult, sim: (string, string) -> real)
    returns (trace': seq<Round>, possible': seq<string>, guess': string, result': HintResult,
             guesses': seq<string>, failure: Option<Stop>)
    requires forall w :: w in wordList ==> IsWord(w)
    requires WellFormedOracle(oracle)
    requires Playing(trace, table.letters, Elements(possible), guess, result, i, oracle, Elements(wordList))
    requires NoRepeats(possible)
    requires result.Hints? && !AllCorrect(result.hints) && guess in possible
    requires guesses == Guesses(trace)
    modifies table
    ensures failure == None || failure == Some(NoPossibleWordsLeft) || failure == Some(NoCandidates)
    ensures failure.Some? ==> trace' == trace && guess' == guess && result' == result
    ensures failure == Some(NoPossibleWordsLeft) ==> Stuck(trace, oracle, Elements(wordList), NoPossibleWordsLeft)
    ensures failure == Some(NoCandidates) ==> Stuck(trace, oracle, Elements(wordList), NoCandidates)
    ensures table.letters == Folded(old(table.letters), guess, result.hints)
    ensures failure == Some(NoPossibleWordsLeft) <==> NonePass(Elements(possible), guess, table.letters)
    ensures failure == Some(NoCandidates) <==>
              && !NonePass(Elements(possible), guess, table.letters)
              && AllRefused(Elements(possible), guess, table.letters, oracle, i + 1)
    ensures failure.None? ==> ChoseList(possible, guess, table.letters, possible', guess', guesses, oracle, i + 1, sim)
    ensures failure.None? ==> && Playing(trace', table.letters, Elements(possible'), guess', result', i + 1, oracle, Elements(wordList))
                              && NoRepeats(possible')
                              && trace' == trace + [Round(i + 1, guess', result')]
                              && guesses' == Guesses(trace')
  {
    ghost var before := table.letters;
    CandidatesAreWords(trace, table.letters, possible, guess, result, i, oracle, wordList);
    var next, answer;
    assert Answered(trace[i]);
    possible', next, answer, failure := PlayRoundListBrief(table, possible, guess, result.hints, guesses, i + 1, oracle, sim);
    if failure.Some? {
      RoundEnds(trace, before, Elements(possible), guess, result, i, oracle, Elements(wordList), table.letters,
                Elements(possible'), failure == Some(NoPossibleWordsLeft), failure == Some(NoCandidates));
      return trace, possible', guess, result, guesses, failure;
    }
    var round := Round(i + 1, next, answer);
    PlayingAfterList(trace, before, possible, guess, result, i, oracle, wordList, round, possible', table.letters);
    GuessesAppend(trace, round);
    trace', guess', result', guesses' := trace + [round], next, answer, guesses + [next];
  }

  /** The candidates are words of the list. */
  lemma CandidatesAreWords(rounds: seq<Round>, letters: map<char, LetterData>, possible: seq<string>,
                           guess: string, result: HintResult, i: nat,
                           oracle: (string, nat) -> HintResult, wordList: seq<string>)
    requires forall w :: w in wordList ==> IsWord(w)
    requires Playing(rounds, letters, Elements(possible), guess, result, i, oracle, Elements(wordList))
    ensures forall w :: w in possible ==> w in wordList && IsWord(w)
  {
    assert Open(Elements(possible), rounds, Elements(wordList));
    forall w | w in possible
      ensures w in wordList
    {
      assert w in Elements(possible);
    }
  }

  /** Game.PlayingAfter, for candidates kept in lists. */
  lemma PlayingAfterList(rounds: seq<Round>, letters: map<char, LetterData>, possible: seq<string>,
                         guess: string, result: HintResult, i: nat,
                         oracle: (string, nat) -> HintResult, wordList: seq<string>,
                         r: Round, after: seq<string>, folded: map<char, LetterData>)
    requires forall w :: w in wordList ==> IsWord(w)
    requires WellFormedOracle(oracle)
    requires Playing(rounds, letters, Elements(possible), guess, result, i, oracle, Elements(wordList))
    requires result.Hints? && !AllCorrect(result.hints) && guess in possible
    requires folded == Folded(letters, guess, result.hints)
    requires Sifted(Elements(possible), guess, folded, Elements(after), oracle, i + 1)
    requires r.guess in after && r.index == i + 1 && r.result == oracle(r.guess, r.index) && r.result.Hints?
    ensures Playing(rounds + [r], folded, Elements(after), r.guess, r.result, i + 1, oracle, Elements(wordList))
  {
    PlayingAfter(rounds, letters, Elements(possible), guess, result, i, oracle, Elements(wordList),
                 r, Elements(after), folded);
  }

  /**
   * The candidates of `s` in list order after one round: words other than
   * the last guess that pass the elimination by `letters` and were not
   * refused, that is not in `refused`.
   */
  function Sift(s: seq<string>, guess: string, letters: map<char, LetterData>, refused: set<string>): (r: seq<string>)
    ensures |r| <= |s|
  {
    if s == [] then []
    else
      var w := s[|s| - 1];
      Sift(s[..|s| - 1], guess, letters, refused)
        + (if w != guess && Passes(w, guess, letters) && w !in refused then [w] else [])
  }

  /** A word is in the sifted list exactly when it is in the list and is kept. */
  lemma {:induction false} SiftMembers(s: seq<string>, guess: string, letters: map<char, LetterData>,
                                       refused: set<string>)
    ensures forall w :: w in Sift(s, guess, letters, refused) <==>
                          w in s && w != guess && Passes(w, guess, letters) && w !in refused
  {
    if s != [] {
      SiftMembers(s[..|s| - 1], guess, letters, refused);
      assert s == s[..|s| - 1] + [s[|s| - 1]];
    }
  }

  /** Sifting a concatenation sifts each part. */
  lemma {:induction false} SiftAppend(a: seq<string>, b: seq<string>, guess: string,
                                      letters: map<char, LetterData>, refused: set<string>)
    ensures Sift(a + b, guess, letters, refused) == Sift(a, guess, letters, refused) + Sift(b, guess, letters, refused)
  {
    if b == [] {
      assert a + b == a;
    } else {
      var front := b[..|b| - 1];
      assert (a + b)[..|a + b| - 1] == a + front;
      assert (a + b)[|a + b| - 1] == b[|b| - 1];
      SiftAppend(a, front, guess, letters, refused);
    }
  }

  /** Sifting a list without `x` does not depend on whether `x` counts as refused. */
  lemma {:induction false} SiftSkips(s: seq<string>, x: string, guess: string,
                                     letters: map<char, LetterData>, refused: set<string>)
    requires x !in s
    ensures Sift(s, guess, letters, refused + {x}) == Sift(s, guess, letters, refused)
  {
    if s != [] {
      assert s == s[..|s| - 1] + [s[|s| - 1]];
      SiftSkips(s[..|s| - 1], x, guess, letters, refused);
    }
  }

  /** A list without repeats is the part before `x`, `x`, and the part after, neither holding `x`. */
  lemma Around(s: seq<string>, x: string) returns (a: seq<string>, b: seq<string>)
    requires NoRepeats(s) && x in s
    ensures s == a + [x] + b && x !in a && x !in b
  {
    var k :| 0 <= k < |s| && s[k] == x;
    a, b := s[..k], s[k + 1..];
    assert s == a + [x] + b;
    forall j | 0 <= j < |a| ensures a[j] != x { assert a[j] == s[j]; }
    forall j | 0 <= j < |b| ensures b[j] != x { assert b[j] == s[k + 1 + j]; }
  }

  /** Sifting the list split around `x`. */
  lemma SiftAround(a: seq<string>, x: string, b: seq<string>, guess: string,
                   letters: map<char, LetterData>, refused: set<string>)
    ensures Sift(a + [x] + b, guess, letters, refused)
         == Sift(a, guess, letters, refused)
            + (if x != guess && Passes(x, guess, letters) && x !in refused then [x] else [])
            + Sift(b, guess, letters, refused)
  {
    SiftAppend(a + [x], b, guess, letters, refused);
    SiftAppend(a, [x], guess, letters, refused);
    assert [x][..0] == [];
  }

  /** `remove(guess)` before elimination changes nothing the sifting keeps. */
  lemma SiftRemovedGuess(possible: seq<string>, guess: string, letters: map<char, LetterData>)
    requires NoRepeats(possible) && guess in possible
    ensures Sift(RemoveFirst(possible, guess), guess, letters, {}) == Sift(possible, guess, letters, {})
  {
    var a, b := Around(possible, guess);
    RemoveFirstAfter(a, guess, b);
    SiftAround(a, guess, b, guess, letters, {});
    SiftAppend(a, b, guess, letters, {});
  }

  /** On a list that holds no copy of the guess, eliminate keeps what the sifting keeps. */
  lemma {:induction false} KeptIsSift(s: seq<string>, guess: string, letters: map<char, LetterData>)
    requires forall k :: 0 <= k < |s| ==> Fits(s[k], guess, letters)
    requires guess !in s
    ensures Kept(s, guess, letters) == Sift(s, guess, letters, {})
  {
    if s != [] {
      var front := s[..|s| - 1];
      assert forall k :: 0 <= k < |front| ==> front[k] == s[k];
      assert guess !in front by { assert s == front + [s[|s| - 1]]; }
      KeptIsSift(front, guess, letters);
    }
  }

  /** Sifting around a kept `x`, with `x` refused or not. */
  lemma SiftAroundKept(a: seq<string>, x: string, b: seq<string>, guess: string,
                       letters: map<char, LetterData>, refused: set<string>)
    requires x !in a && x !in b
    requires x != guess && Passes(x, guess, letters) && x !in refused
    ensures Sift(a + [x] + b, guess, letters, refused)
         == Sift(a, guess, letters, refused) + [x] + Sift(b, guess, letters, refused)
    ensures Sift(a + [x] + b, guess, letters, refused + {x})
         == Sift(a, guess, letters, refused) + Sift(b, guess, letters, refused)
  {
    SiftAround(a, x, b, guess, letters, refused);
    SiftAround(a, x, b, guess, letters, refused + {x});
    SiftSkips(a, x, guess, letters, refused);
    SiftSkips(b, x, guess, letters, refused);
  }

  /** `remove(next)` of a sifted word is sifting with `next` refused too. */
  lemma SiftRefuse(s: seq<string>, next: string, guess: string, letters: map<char, LetterData>,
                   refused: set<string>)
    requires NoRepeats(s) && next in Sift(s, guess, letters, refused)
    ensures RemoveFirst(Sift(s, guess, letters, refused), next) == Sift(s, guess, letters, refused + {next})
  {
    SiftMembers(s, guess, letters, refused);
    var a, b := Around(s, next);
    SiftMembers(a, guess, letters, refused);
    SiftAroundKept(a, next, b, guess, letters, refused);
    RemoveFirstAfter(Sift(a, guess, letters, refused), next, Sift(b, guess, letters, refused));
  }

  /** `word` is the first word of `s` of least list score, as `min` over `comparison` returns it. */
  predicate FirstOfLeast(word: string, s: seq<string>, guesses: seq<string>, sim: (string, string) -> real) {
    exists k :: 0 <= k < |s| && s[k] == word
      && (forall j :: 0 <= j < |s| ==> ScoreList(word, guesses, sim) <= ScoreList(s[j], guesses, sim))
      && (forall j :: 0 <= j < k ==> ScoreList(word, guesses, sim) < ScoreList(s[j], guesses, sim))
  }

  /**
   * The words the refusal loop chose and removed: each was refused by the hint
   * source at this round index and, when a guess was finally accepted, scores
   * at most as much as it.
   */
  ghost predicate Tried(refused: set<string>, next: string, oracle: (string, nat) -> HintResult, i: nat,
                        accepted: bool, guesses: seq<string>, sim: (string, string) -> real) {
    forall w :: w in refused ==>
                  oracle(w, i).Rejected? && (accepted ==> ScoreList(w, guesses, sim) <= ScoreList(next, guesses, sim))
  }

  /**
   * The words the refusal loop tried, in the order it tried them: each was the
   * first word of least score in the sifted list without the words tried
   * before it, and the hint source refused it at round index `i`.
   */
  ghost predicate TriedInOrder(tries: seq<string>, possible: seq<string>, guess: string, letters: map<char, LetterData>,
                               oracle: (string, nat) -> HintResult, i: nat, guesses: seq<string>,
                               sim: (string, string) -> real) {
    forall k :: 0 <= k < |tries| ==>
                  && oracle(tries[k], i).Rejected?
                  && FirstOfLeast(tries[k], Sift(possible, guess, letters, Elements(tries[..k])), guesses, sim)
  }

  /** The word ChooseWordList picks is the first of least score, so no word of the list scores less. */
  lemma ChosenFirstOfLeast(word: string, s: seq<string>, guesses: seq<string>, sim: (string, string) -> real)
    requires exists k :: 0 <= k < |s| && s[k] == word
               && (forall j :: 0 <= j < |s| ==> ScoreList(s[k], guesses, sim) <= ScoreList(s[j], guesses, sim))
               && (forall j :: 0 <= j < k ==> ScoreList(s[k], guesses, sim) < ScoreList(s[j], guesses, sim))
    ensures FirstOfLeast(word, s, guesses, sim)
    ensures forall v :: v in s ==> ScoreList(word, guesses, sim) <= ScoreList(v, guesses, sim)
  {
  }

  /** A refused word that scores at most as much as the next choice joins the tried words. */
  lemma TriedMore(refused: set<string>, prev: string, next: string, oracle: (string, nat) -> HintResult, i: nat,
                  guesses: seq<string>, sim: (string, string) -> real)
    requires Tried(refused, prev, oracle, i, true, guesses, sim) && oracle(prev, i).Rejected?
    requires ScoreList(prev, guesses, sim) <= ScoreList(next, guesses, sim)
    ensures Tried(refused + {prev}, next, oracle, i, true, guesses, sim)
  {
  }

  /** At most one word of a list is its first word of least score. */
  lemma FirstOfLeastUnique(a: string, b: string, s: seq<string>, guesses: seq<string>, sim: (string, string) -> real)
    requires FirstOfLeast(a, s, guesses, sim) && FirstOfLeast(b, s, guesses, sim)
    ensures a == b
  {
    var ka :| 0 <= ka < |s| && s[ka] == a
              && (forall j :: 0 <= j < |s| ==> ScoreList(a, guesses, sim) <= ScoreList(s[j], guesses, sim))
              && (forall j :: 0 <= j < ka ==> ScoreList(a, guesses, sim) < ScoreList(s[j], guesses, sim));
    var kb :| 0 <= kb < |s| && s[kb] == b
              && (forall j :: 0 <= j < |s| ==> ScoreList(b, guesses, sim) <= ScoreList(s[j], guesses, sim))
              && (forall j :: 0 <= j < kb ==> ScoreList(b, guesses, sim) < ScoreList(s[j], guesses, sim));
  }

  /** One more refused word, tried as the loop tries it. */
  lemma TriedStep(tries: seq<string>, next: string, possible: seq<string>, guess: string,
                  letters: map<char, LetterData>, oracle: (string, nat) -> HintResult, i: nat,
                  guesses: seq<string>, sim: (string, string) -> real)
    requires TriedInOrder(tries, possible, guess, letters, oracle, i, guesses, sim)
    requires oracle(next, i).Rejected?
    requires FirstOfLeast(next, Sift(possible, guess, letters, Elements(tries)), guesses, sim)
    ensures TriedInOrder(tries + [next], possible, guess, letters, oracle, i, guesses, sim)
    ensures Elements(tries + [next]) == Elements(tries) + {next}
  {
    var longer := tries + [next];
    assert longer[..|tries|] == tries;
    forall k | 0 <= k < |tries|
      ensures longer[k] == tries[k] && longer[..k] == tries[..k]
    {
    }
  }

  /** Two runs of the refusal loop agree on their first `n` tries. */
  lemma {:induction false} TriesAgree(t1: seq<string>, t2: seq<string>, n: nat, possible: seq<string>, guess: string,
                                      letters: map<char, LetterData>, oracle: (string, nat) -> HintResult, i: nat,
                                      guesses: seq<string>, sim: (string, string) -> real)
    requires n <= |t1| && n <= |t2|
    requires TriedInOrder(t1, possible, guess, letters, oracle, i, guesses, sim)
    requires TriedInOrder(t2, possible, guess, letters, oracle, i, guesses, sim)
    ensures t1[..n] == t2[..n]
  {
    if n > 0 {
      TriesAgree(t1, t2, n - 1, possible, guess, letters, oracle, i, guesses, sim);
      FirstOfLeastUnique(t1[n - 1], t2[n - 1], Sift(possible, guess, letters, Elements(t1[..n - 1])), guesses, sim);
      assert t1[..n] == t1[..n - 1] + [t1[n - 1]];
      assert t2[..n] == t2[..n - 1] + [t2[n - 1]];
    }
  }

  /**
   * The refusal loop's outcome is determined by its inputs: two runs that
   * tried words in order and then accepted the first word of least score
   * left tried the same words and accepted the same word.
   */
  lemma RefusalsDetermined(t1: seq<string>, n1: string, t2: seq<string>, n2: string, possible: seq<string>,
                           guess: string, letters: map<char, LetterData>, oracle: (string, nat) -> HintResult,
                           i: nat, guesses: seq<string>, sim: (string, string) -> real)
    requires TriedInOrder(t1, possible, guess, letters, oracle, i, guesses, sim)
    requires TriedInOrder(t2, possible, guess, letters, oracle, i, guesses, sim)
    requires FirstOfLeast(n1, Sift(possible, guess, letters, Elements(t1)), guesses, sim) && oracle(n1, i).Hints?
    requires FirstOfLeast(n2, Sift(possible, guess, letters, Elements(t2)), guesses, sim) && oracle(n2, i).Hints?
    ensures t1 == t2 && n1 == n2
  {
    if |t1| < |t2| {
      TriesAgree(t1, t2, |t1|, possible, guess, letters, oracle, i, guesses, sim);
      assert t1 == t1[..|t1|];
      FirstOfLeastUnique(n1, t2[|t1|], Sift(possible, guess, letters, Elements(t1)), guesses, sim);
    } else if |t2| < |t1| {
      TriesAgree(t1, t2, |t2|, possible, guess, letters, oracle, i, guesses, sim);
      assert t2 == t2[..|t2|];
      FirstOfLeastUnique(n2, t1[|t2|], Sift(possible, guess, letters, Elements(t2)), guesses, sim);
    } else {
      TriesAgree(t1, t2, |t1|, possible, guess, letters, oracle, i, guesses, sim);
      assert t1 == t1[..|t1|] && t2 == t2[..|t2|];
      FirstOfLeastUnique(n1, n2, Sift(possible, guess, letters, Elements(t1)), guesses, sim);
    }
  }

  /**
   * What a round of the list version that goes on promises: the new list is
   * the sifted list without the words the refusal loop tried in order, and the
   * next guess is its first word of least score, accepted at `index`.
   */
  ghost predicate ChoseList(possible: seq<string>, guess: string, folded: map<char, LetterData>,
                            remaining: seq<string>, next: string, guesses: seq<string>,
                            oracle: (string, nat) -> HintResult, index: nat, sim: (string, string) -> real) {
    && Sifted(Elements(possible), guess, folded, Elements(remaining), oracle, index)
    && oracle(next, index).Hints?
    && FirstOfLeast(next, remaining, guesses, sim)
    && exists tries :: && remaining == Sift(possible, guess, folded, Elements(tries))
                       && TriedInOrder(tries, possible, guess, folded, oracle, index, guesses, sim)
  }

  /**
   * PlayRoundList with what it promises on success gathered in ChoseList and
   * its ghost results hidden, which is all the main loop needs.
   */
  method PlayRoundListBrief(table: LetterTable, possible: seq<string>, guess: string, hints: seq<Hint>,
                            guesses: seq<string>, i: nat, oracle: (string, nat) -> HintResult,
                            sim: (string, string) -> real)
    returns (remaining: seq<string>, next: string, result: HintResult, failure: Option<Stop>)
    requires IsWord(guess) && |hints| == WordLength && guess in possible
    requires forall w :: w in possible ==> IsWord(w)
    requires NoRepeats(possible)
    requires CoversAlphabet(table.letters)
    modifies table
    ensures table.letters == Folded(old(table.letters), guess, hints)
    ensures CoversAlphabet(table.letters)
    ensures failure == None || failure == Some(NoPossibleWordsLeft) || failure == Some(NoCandidates)
    ensures failure == Some(NoPossibleWordsLeft) <==> NonePass(Elements(possible), guess, table.letters)
    ensures failure == Some(NoCandidates) ==> Elements(remaining) == {}
    ensures failure == Some(NoCandidates) <==>
              && !NonePass(Elements(possible), guess, table.letters)
              && AllRefused(Elements(possible), guess, table.letters, oracle, i)
    ensures NoRepeats(remaining)
    ensures Sifted(Elements(possible), guess, table.letters, Elements(remaining), oracle, i)
    ensures failure.None? ==> && next in remaining && result == oracle(next, i) && result.Hints?
                              && ChoseList(possible, guess, table.letters, remaining, next, guesses, oracle, i, sim)
  {
    ghost var refused, tries;
    remaining, next, result, failure, refused, tries := PlayRoundList(table, possible, guess, hints, guesses, i, oracle, sim);
  }

  /**
   * The body of the main loop up to the next yield: `remove` the last guess
   * from the candidates, fold its hints into the table, eliminate, and choose
   * the next guess, choosing again (after removing the refused word) while
   * the hint source refuses it. Fails when elimination leaves nothing or
   * every remaining candidate is refused. The chosen word has the least score
   * among the candidates left.
   */
  method PlayRoundList(table: LetterTable, possible: seq<string>, guess: string, hints: seq<Hint>,
                       guesses: seq<string>, i: nat, oracle: (string, nat) -> HintResult,
                       sim: (string, string) -> real)
    returns (remaining: seq<string>, next: string, result: HintResult, failure: Option<Stop>,
             ghost refused: set<string>, ghost tries: seq<string>)
    requires IsWord(guess) && |hints| == WordLength && guess in possible
    requires forall w :: w in possible ==> IsWord(w)
    requires NoRepeats(possible)
    requires CoversAlphabet(table.letters)
    modifies table
    ensures table.letters == Folded(old(table.letters), guess, hints)
    ensures CoversAlphabet(table.letters)
    ensures failure == None || failure == Some(NoPossibleWordsLeft) || failure == Some(NoCandidates)
    ensures failure == Some(NoPossibleWordsLeft) <==> NonePass(Elements(possible), guess, table.letters)
    ensures failure == Some(NoCandidates) ==> Elements(remaining) == {}
    ensures failure == Some(NoCandidates) <==>
              && !NonePass(Elements(possible), guess, table.letters)
              && AllRefused(Elements(possible), guess, table.letters, oracle, i)
    ensures NoRepeats(remaining)
    ensures Sifted(Elements(possible), guess, table.letters, Elements(remaining), oracle, i)
    ensures remaining == Sift(possible, guess, table.letters, refused)
    ensures Tried(refused, next, oracle, i, failure.None?, guesses, sim)
    ensures refused == Elements(tries) && TriedInOrder(tries, possible, guess, table.letters, oracle, i, guesses, sim)
    ensures failure.None? ==> && next in remaining
                              && result == oracle(next, i) && result.Hints?
                              && (forall v :: v in remaining ==> ScoreList(next, guesses, sim) <= ScoreList(v, guesses, sim))
                              && FirstOfLeast(next, remaining, guesses, sim)
  {
    remaining := RemoveFirst(possible, guess);
    RemoveFirstNoRepeats(possible, guess);
    table.BuildLettersData(guess, hints);
    forall k | 0 <= k < |remaining|
      ensures Fits(remaining[k], guess, table.letters)
    {
      assert remaining[k] in remaining;
    }
    ghost var unguessed := remaining;
    remaining := EliminateList(remaining, guess, table.letters);
    KeptNoRepeats(unguessed, guess, table.letters);
    KeptIsSift(unguessed, guess, table.letters);
    SiftRemovedGuess(possible, guess, table.letters);
    NonePassIffNoneSifted(possible, guess, table.letters);
    if remaining == [] {
      SiftedAfterRefusals(possible, guess, table.letters, {}, remaining, guess, oracle, i, false, guesses, sim);
      return remaining, guess, Rejected, Some(NoPossibleWordsLeft), {}, [];
    }
    remaining, next, result, failure, refused, tries :=
      ChooseAcceptedList(possible, guess, table.letters, remaining, guesses, i, oracle, sim);
    SiftedAfterRefusals(possible, guess, table.letters, refused, remaining, next, oracle, i, failure.None?, guesses, sim);
  }

  /** Elimination leaves no candidate exactly when the sifted list is empty. */
  lemma NonePassIffNoneSifted(possible: seq<string>, guess: string, letters: map<char, LetterData>)
    ensures NonePass(Elements(possible), guess, letters) <==> Sift(possible, guess, letters, {}) == []
  {
    SiftMembers(possible, guess, letters, {});
    var sifted := Sift(possible, guess, letters, {});
    if sifted != [] {
      assert sifted[0] in sifted;
    }
  }

  /** The sifted list without the tried words is what `Game.Sifted` asks of the new candidates. */
  lemma SiftedAfterRefusals(possible: seq<string>, guess: string, letters: map<char, LetterData>,
                            refused: set<string>, remaining: seq<string>, next: string,
                            oracle: (string, nat) -> HintResult, i: nat, accepted: bool,
                            guesses: seq<string>, sim: (string, string) -> real)
    requires remaining == Sift(possible, guess, letters, refused)
    requires Tried(refused, next, oracle, i, accepted, guesses, sim)
    ensures Sifted(Elements(possible), guess, letters, Elements(remaining), oracle, i)
  {
    SiftMembers(possible, guess, letters, refused);
  }

  /**
   * The refusal loop of the list version: choose the first word of least
   * score, and while the hint source refuses it, `remove` it and choose
   * again. The candidates stay the sifted list, with the refused words
   * dropped in order.
   */
  method ChooseAcceptedList(possible: seq<string>, guess: string, letters: map<char, LetterData>,
                            candidates: seq<string>, guesses: seq<string>, i: nat,
                            oracle: (string, nat) -> HintResult, sim: (string, string) -> real)
    returns (remaining: seq<string>, next: string, result: HintResult, failure: Option<Stop>,
             ghost refused: set<string>, ghost tries: seq<string>)
    requires NoRepeats(possible) && NoRepeats(candidates) && candidates != []
    requires candidates == Sift(possible, guess, letters, {})
    ensures failure == None || failure == Some(NoCandidates)
    ensures failure == Some(NoCandidates) ==> remaining == []
    ensures NoRepeats(remaining)
    ensures remaining == Sift(possible, guess, letters, refused)
    ensures Tried(refused, next, oracle, i, failure.None?, guesses, sim)
    ensures refused == Elements(tries) && TriedInOrder(tries, possible, guess, letters, oracle, i, guesses, sim)
    ensures failure.None? ==> && next in remaining
                              && result == oracle(next, i) && result.Hints?
                              && (forall v :: v in remaining ==> ScoreList(next, guesses, sim) <= ScoreList(v, guesses, sim))
                              && FirstOfLeast(next, remaining, guesses, sim)
  {
    remaining, refused, tries := candidates, {}, [];
    var choice := ChooseWordList(guesses, remaining, false, sim);
    next := choice.value;
    result := oracle(next, i);
    ChosenFirstOfLeast(next, remaining, guesses, sim);
    while result.Rejected?
      invariant next in remaining && NoRepeats(remaining)
      invariant result == oracle(next, i)
      invariant forall v :: v in remaining ==> ScoreList(next, guesses, sim) <= ScoreList(v, guesses, sim)
      invariant FirstOfLeast(next, remaining, guesses, sim)
      invariant remaining == Sift(possible, guess, letters, refused)
      invariant Tried(refused, next, oracle, i, true, guesses, sim)
      invariant refused == Elements(tries) && TriedInOrder(tries, possible, guess, letters, oracle, i, guesses, sim)
      decreases |remaining|
    {
      RemoveFirstNoRepeats(remaining, next);
      SiftRefuse(possible, next, guess, letters, refused);
      TriedStep(tries, next, possible, guess, letters, oracle, i, guesses, sim);
      ghost var prev, before := next, refused;
      remaining := RemoveFirst(remaining, next);
      refused, tries := refused + {next}, tries + [next];
      choice := ChooseWordList(guesses, remaining, false, sim);
      if choice.None? {
        return remaining, next, result, Some(NoCandidates), refused, tries;
      }
      next := choice.value;
      result := oracle(next, i);
      ChosenFirstOfLeast(next, remaining, guesses, sim);
      TriedMore(before, prev, next, oracle, i, guesses, sim);
    }
    failure := None;
  }
}
