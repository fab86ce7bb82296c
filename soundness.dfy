/**
 * What the elimination promises about the solution. When the hint source
 * answers every word with the hints `generate_hints` gives against one
 * solution, every letter record agrees with that solution, so the solution
 * passes `eliminate` after every round of a well-played trace; when it is on
 * the word list, neither error stop of `guess_word` can happen.
 */
module Soundness {
  import opened Words
  import opened Hints
  import opened Letters
  import opened Eliminator
  import opened Game
  import opened Selector

  /** The hint source answers every word with generate_hints against `solution`. */
  ghost predicate Truthful(oracle: (string, nat) -> HintResult, solution: string) {
    && IsWord(solution)
    && forall g, i :: IsWord(g) ==> oracle(g, i) == Hints(Expected(g, solution))
  }

  /**
   * A record for letter `c` agrees with `solution`: known positions hold `c`,
   * impossible positions do not and then `c` occurs elsewhere, the minimum
   * count is met, and a frozen count is exact.
   */
  predicate Agrees(rec: LetterData, c: char, solution: string)
    requires IsWord(solution)
  {
    && (forall p :: p in rec.knownPositions ==> p < WordLength && solution[p] == c)
    && (forall p :: p in rec.impossiblePositions ==> p < WordLength && solution[p] != c)
    && (rec.impossiblePositions != {} ==> c in solution)
    && rec.minCount <= Occurrences(solution, c)
    && (rec.countFrozen ==> rec.minCount == Occurrences(solution, c))
  }

  /** `word` holds `c` at every known position of the record. */
  predicate HoldsKnown(rec: LetterData, c: char, word: string) {
    forall p :: p in rec.knownPositions ==> p < |word| && word[p] == c
  }

  /** The first n rounds were answered with generate_hints against `solution`. */
  ghost predicate AnsweredBy(rounds: seq<Round>, solution: string, n: nat)
    requires IsWord(solution) && n <= |rounds|
  {
    forall k :: 0 <= k < n ==> IsWord(rounds[k].guess) && rounds[k].result == Hints(Expected(rounds[k].guess, solution))
  }

  /**
   * Folding the true hints of a guess into a record that agrees with the
   * solution keeps it agreeing, provided the guess holds the record's known
   * positions and, when the count is frozen, has exactly that many copies.
   */
  lemma {:induction false} FoldAgrees(rec: LetterData, c: char, guess: string, solution: string)
    requires IsWord(guess) && IsWord(solution) && IsLetter(c)
    requires Agrees(rec, c, solution) && HoldsKnown(rec, c, guess)
    requires rec.countFrozen && c in guess ==> Occurrences(guess, c) == rec.minCount
    ensures Agrees(Replay(rec, c, guess, Expected(guess, solution), |guess|), c, solution)
  {
    var hints := Expected(guess, solution);
    var after := Replay(rec, c, guess, hints, |guess|);
    assert '.' !in guess by { assert !IsLetter('.'); }
    ReplayKnown(rec, c, guess, hints, |guess|);
    ReplayImpossible(rec, c, guess, hints, |guess|);
    ReplayFrozen(rec, c, guess, hints, |guess|);
    ReplayMinCount(rec, c, guess, hints, |guess|);
    PositionsMembers(guess, hints, c, Correct, |guess|);
    PositionsMembers(guess, hints, c, Present, |guess|);
    CorrectExactlyAtMatches(guess, solution);
    OccurrencesPositive(guess, c);
    OccurrencesPositive(solution, c);
    if after.impossiblePositions != {} && rec.impossiblePositions == {} {
      var j :| j in after.impossiblePositions;
      PresentMeansUnmatched(guess, solution, j);
    }
    if c in guess {
      var correct := Positions(guess, hints, c, Correct, |guess|);
      assert rec.knownPositions + correct == correct;
      PositionsSize(guess, hints, c, Correct, |guess|);
      MarksBoundedByCounts(guess, solution, c);
      TallyPositive(guess, hints, c, Absent, |guess|);
      if Tally(guess, hints, c, Absent, |guess|) > 0 {
        var j :| 0 <= j < |guess| && guess[j] == c && hints[j] == Absent;
        AbsentMeansAllCounted(guess, solution, j);
      } else if rec.countFrozen {
        TallyOfExpected(guess, solution, c, |guess|);
        MatchedPlusUnmatched(guess, solution, c, |guess|);
        MatchedPlusMisplaced(guess, solution, c, |guess|);
      }
    } else {
      assert CountBelow(guess, c, |guess|) == 0;
      ReplayAbsentLetter(rec, c, guess, hints, |guess|);
    }
  }

  /** A word that survived round j passes the elimination by the table after it. */
  lemma SurvivesAt(word: string, rounds: seq<Round>, n: nat, j: nat)
    requires n <= |rounds| && forall k :: 0 <= k < n ==> Answered(rounds[k])
    requires SurvivesRounds(word, rounds, n) && j < n
    ensures Passes(word, rounds[j].guess, LettersAfter(rounds, j + 1))
  {
  }

  /** A word that survived the first n rounds holds every known position of the table after them. */
  lemma {:induction false} SurvivorHoldsKnown(rounds: seq<Round>, word: string, n: nat, c: char)
    requires n <= |rounds| && forall k :: 0 <= k < n ==> Answered(rounds[k])
    requires IsWord(word) && IsLetter(c) && SurvivesRounds(word, rounds, n)
    ensures HoldsKnown(LettersAfter(rounds, n)[c], c, word)
  {
    if n > 0 {
      assert SurvivesRounds(word, rounds, n - 1);
      SurvivorHoldsKnown(rounds, word, n - 1, c);
      var before := LettersAfter(rounds, n - 1);
      var r := rounds[n - 1];
      var table := LettersAfter(rounds, n);
      assert table == Folded(before, r.guess, r.result.hints);
      FoldOnlyGrows(before, r.guess, r.result.hints, c);
      SurvivesAt(word, rounds, n, n - 1);
      forall p | p in table[c].knownPositions
        ensures p < |word| && word[p] == c
      {
        if p !in before[c].knownPositions {
          assert !Violates(word, r.guess, table, p);
        }
      }
    }
  }

  /** A word that survived the first n rounds has exactly the frozen count of each of its letters. */
  lemma SurvivorMeetsFrozen(rounds: seq<Round>, word: string, n: nat, c: char)
    requires 1 <= n <= |rounds| && forall k :: 0 <= k < n ==> Answered(rounds[k])
    requires IsWord(word) && IsLetter(c) && SurvivesRounds(word, rounds, n)
    requires c in word && LettersAfter(rounds, n)[c].countFrozen
    ensures Occurrences(word, c) == LettersAfter(rounds, n)[c].minCount
  {
    SurvivesAt(word, rounds, n, n - 1);
    var i :| 0 <= i < |word| && word[i] == c;
    assert !Violates(word, rounds[n - 1].guess, LettersAfter(rounds, n), i);
  }

  /**
   * The table after the first n rounds of a consistent trace answered against
   * `solution` agrees with it, letter by letter.
   */
  lemma {:induction false} TableAgrees(rounds: seq<Round>, solution: string, n: nat, c: char)
    requires IsWord(solution) && n <= |rounds| && AnsweredBy(rounds, solution, n) && IsLetter(c)
    requires forall k :: 0 <= k < n ==> Answered(rounds[k])
    requires forall k :: 1 <= k < n ==> SurvivesRounds(rounds[k].guess, rounds, k)
    ensures Agrees(LettersAfter(rounds, n)[c], c, solution)
  {
    if n > 0 {
      TableAgrees(rounds, solution, n - 1, c);
      var before := LettersAfter(rounds, n - 1);
      var r := rounds[n - 1];
      assert r.result.hints == Expected(r.guess, solution);
      assert LettersAfter(rounds, n)[c] == Replay(before[c], c, r.guess, r.result.hints, |r.guess|);
      if n - 1 >= 1 {
        SurvivorHoldsKnown(rounds, r.guess, n - 1, c);
        if before[c].countFrozen && c in r.guess {
          SurvivorMeetsFrozen(rounds, r.guess, n - 1, c);
        }
      }
      FoldAgrees(before[c], c, r.guess, solution);
    }
  }

  /** The solution passes the elimination by every table that agrees with it. */
  lemma PassesWhenAgreeing(solution: string, guess: string, table: map<char, LetterData>)
    requires IsWord(solution) && IsWord(guess) && CoversAlphabet(table)
    requires forall c :: IsLetter(c) ==> Agrees(table[c], c, solution)
    ensures Passes(solution, guess, table)
  {
    forall i | 0 <= i < |solution| ensures !Violates(solution, guess, table, i) {
      assert Agrees(table[guess[i]], guess[i], solution);
      assert Agrees(table[solution[i]], solution[i], solution);
    }
    forall c | c in table ensures !MissesYellow(solution, table, c) {
      assert Agrees(table[c], c, solution);
    }
  }

  /**
   * Soundness of the elimination over a whole game: under a truthful hint
   * source every round of a well-played trace is answered, and the solution
   * survives the elimination after each of them.
   */
  lemma SolutionSurvives(rounds: seq<Round>, oracle: (string, nat) -> HintResult, words: set<string>,
                         solution: string)
    requires WellPlayed(rounds, oracle, words) && Truthful(oracle, solution)
    ensures forall k :: 0 <= k < |rounds| ==> Answered(rounds[k])
    ensures SurvivesRounds(solution, rounds, |rounds|)
  {
    assert AnsweredBy(rounds, solution, |rounds|);
    assert forall k :: 0 <= k < |rounds| ==> Answered(rounds[k]);
    forall k | 1 <= k < |rounds| ensures SurvivesRounds(rounds[k].guess, rounds, k) {
      assert Consistent(rounds);
    }
    forall j | 0 <= j < |rounds|
      ensures Passes(solution, rounds[j].guess, LettersAfter(rounds, j + 1))
    {
      var table := LettersAfter(rounds, j + 1);
      forall c | IsLetter(c) ensures Agrees(table[c], c, solution) {
        TableAgrees(rounds, solution, j + 1, c);
      }
      PassesWhenAgreeing(solution, rounds[j].guess, table);
    }
  }

  /**
   * After a well-played trace whose last hints are not all Correct, a truthful
   * hint source's solution on the word list is still eligible and is accepted
   * at the next index.
   */
  lemma SolutionEligible(rounds: seq<Round>, oracle: (string, nat) -> HintResult, words: set<string>,
                         solution: string)
    requires WellPlayed(rounds, oracle, words) && Truthful(oracle, solution) && solution in words
    requires !AllCorrect(rounds[|rounds| - 1].result.hints)
    ensures Eligible(solution, rounds, oracle, words) && oracle(solution, |rounds|).Hints?
    ensures solution in AcceptedNext(rounds, oracle, words)
  {
    SolutionSurvives(rounds, oracle, words, solution);
    forall k | 0 <= k < |rounds| ensures rounds[k].guess != solution {
      CorrectExactlyAtMatches(rounds[k].guess, solution);
    }
  }

  /**
   * A trace that ends in an error stop with the meaning Game.Stuck gives it
   * cannot come from a hint source truthful to a solution on the word list.
   */
  lemma NeverStuck(rounds: seq<Round>, oracle: (string, nat) -> HintResult, words: set<string>, stop: Stop,
                   solution: string)
    requires WellPlayed(rounds, oracle, words)
    requires stop == NoPossibleWordsLeft || stop == NoCandidates ==>
               rounds[|rounds| - 1].result.Hints? && !AllCorrect(rounds[|rounds| - 1].result.hints)
    requires Stuck(rounds, oracle, words, stop)
    ensures Truthful(oracle, solution) && solution in words ==> stop != NoPossibleWordsLeft && stop != NoCandidates
  {
    if Truthful(oracle, solution) && solution in words && (stop == NoPossibleWordsLeft || stop == NoCandidates) {
      SolutionEligible(rounds, oracle, words, solution);
    }
  }

  /**
   * What a pass of the main loop reports when it stops `guess_word`, restated
   * about the whole trace, whose last round is the one the pass checked.
   */
  lemma Finished(trace: seq<Round>, first: string, i: nat, guess: string, result: HintResult, outcome: Option<Stop>,
                 words: set<string>, oracle: (string, nat) -> HintResult)
    requires outcome.Some? && i <= 6 && |trace| == i + 1 && trace[0].guess == first
    requires trace[i] == Round(i, guess, result) && WellPlayed(trace, oracle, words)
    requires outcome == Some(Solved) <==> result.Hints? && AllCorrect(result.hints)
    requires outcome == Some(OutOfGuesses) ==> i == 6
    requires outcome == Some(OpeningRejected) <==> result.Rejected?
    requires outcome == Some(OpeningNotInList) ==> i == 0 && guess !in words
    requires i == 0 && Continues(result, i) && guess !in words ==> outcome == Some(OpeningNotInList)
    requires i > 0 ==> first in words
    requires outcome == Some(NoPossibleWordsLeft) || outcome == Some(NoCandidates) ==>
               i < 6 && result.Hints? && !AllCorrect(result.hints)
    ensures 1 <= |trace| <= 7
    ensures outcome.value == Solved <==> trace[|trace| - 1].result.Hints? && AllCorrect(trace[|trace| - 1].result.hints)
    ensures outcome.value == OutOfGuesses ==> |trace| == 7
    ensures outcome.value == OpeningRejected <==> trace[0].result.Rejected?
    ensures outcome.value == OpeningNotInList ==> |trace| == 1 && first !in words
    ensures first !in words && trace[0].result.Hints? && !AllCorrect(trace[0].result.hints) ==>
              outcome.value == OpeningNotInList
    ensures outcome.value == NoPossibleWordsLeft || outcome.value == NoCandidates ==>
              |trace| <= 6 && trace[|trace| - 1].result.Hints? && !AllCorrect(trace[|trace| - 1].result.hints)
  {
    if i > 0 {
      assert Answered(trace[0]);
    }
  }
}
