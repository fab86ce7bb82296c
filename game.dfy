/**
 * What the `guess_word` generators of both solvers yield and how they end.
 */
module Game {
  import opened Words
  import opened Hints
  import opened Letters
  import opened Eliminator

  /** The hint source's answer: hints for the guess, or `None` for a word the game refuses. */
  datatype HintResult = Rejected | Hints(hints: seq<Hint>)

  /** One yielded triple `(i, guess, hints)`. */
  datatype Round = Round(index: nat, guess: string, result: HintResult)

  /**
   * How the generator ends: it returns once the hints are all Correct, or after
   * round 6; otherwise Python raises an error, one alternative per cause.
   */
  datatype Stop =
    | Solved
    | OutOfGuesses
    | OpeningRejected     // the first hints are None: `hints.values()` fails
    | OpeningNotInList    // the opening word is not a candidate: `remove` fails
    | NoPossibleWordsLeft // eliminate left nothing: IndexError
    | NoCandidates        // every remaining candidate was refused: `choose_word` fails

  /** The hint source always answers with five hints or a refusal. */
  ghost predicate WellFormedOracle(oracle: (string, nat) -> HintResult) {
    forall g, i :: oracle(g, i).Hints? ==> |oracle(g, i).hints| == WordLength
  }

  /** A round whose hints can be folded into the table. */
  predicate Answered(r: Round) {
    IsWord(r.guess) && r.result.Hints? && |r.result.hints| == WordLength
  }

  /** The letter table after the first `n` rounds, each folded in by build_letters_data. */
  function LettersAfter(rounds: seq<Round>, n: nat): (letters: map<char, LetterData>)
    requires n <= |rounds| && forall k :: 0 <= k < n ==> Answered(rounds[k])
    ensures CoversAlphabet(letters)
  {
    if n == 0 then FreshTable()
    else
      assert Answered(rounds[n - 1]);
      Folded(LettersAfter(rounds, n - 1), rounds[n - 1].guess, rounds[n - 1].result.hints)
  }

  /** A later round does not change the table after the earlier ones. */
  lemma {:induction false} LettersAfterAppend(rounds: seq<Round>, r: Round, n: nat)
    requires n <= |rounds| && forall k :: 0 <= k < n ==> Answered(rounds[k])
    ensures LettersAfter(rounds + [r], n) == LettersAfter(rounds, n)
  {
    if n > 0 {
      LettersAfterAppend(rounds, r, n - 1);
      assert (rounds + [r])[n - 1] == rounds[n - 1];
    }
  }

  /**
   * The table only tightens from round to round: known and impossible
   * positions are never forgotten, and a frozen count stays frozen.
   */
  lemma {:induction false} LettersAfterGrows(rounds: seq<Round>, m: nat, n: nat, c: char)
    requires m <= n <= |rounds| && forall k :: 0 <= k < n ==> Answered(rounds[k])
    requires IsLetter(c)
    ensures LettersAfter(rounds, m)[c].knownPositions <= LettersAfter(rounds, n)[c].knownPositions
    ensures LettersAfter(rounds, m)[c].impossiblePositions <= LettersAfter(rounds, n)[c].impossiblePositions
    ensures LettersAfter(rounds, m)[c].countFrozen ==> LettersAfter(rounds, n)[c].countFrozen
  {
    if m < n {
      LettersAfterGrows(rounds, m, n - 1, c);
      var before := LettersAfter(rounds, n - 1);
      var r := rounds[n - 1];
      assert Answered(r);
      assert LettersAfter(rounds, n) == Folded(before, r.guess, r.result.hints);
      FoldTightens(before, r.guess, r.result.hints, c);
    }
  }

  /** `word` survives the elimination after each of the first `n` rounds. */
  ghost predicate SurvivesRounds(word: string, rounds: seq<Round>, n: nat)
    requires n <= |rounds| && forall k :: 0 <= k < n ==> Answered(rounds[k])
  {
    forall j {:trigger LettersAfter(rounds, j + 1)} :: 0 <= j < n ==> Passes(word, rounds[j].guess, LettersAfter(rounds, j + 1))
  }

  /** Every guess survives the elimination after each round before it. */
  ghost predicate Consistent(rounds: seq<Round>)
    requires forall k :: 0 <= k < |rounds| - 1 ==> Answered(rounds[k])
  {
    forall k {:trigger SurvivesRounds(rounds[k].guess, rounds, k)} :: 0 <= k < |rounds| ==> SurvivesRounds(rounds[k].guess, rounds, k)
  }

  /** Surviving the earlier rounds does not depend on the rounds after them. */
  lemma SurvivesRoundsAppend(word: string, rounds: seq<Round>, r: Round, n: nat)
    requires n <= |rounds| && forall k :: 0 <= k < n ==> Answered(rounds[k])
    ensures SurvivesRounds(word, rounds + [r], n) <==> SurvivesRounds(word, rounds, n)
  {
    forall m | 1 <= m <= n
      ensures LettersAfter(rounds + [r], m) == LettersAfter(rounds, m)
    {
      LettersAfterAppend(rounds, r, m);
    }
  }

  /** Surviving one more round. */
  lemma SurvivesRoundsExtend(word: string, rounds: seq<Round>, n: nat)
    requires n < |rounds| && forall k :: 0 <= k <= n ==> Answered(rounds[k])
    requires SurvivesRounds(word, rounds, n)
    requires Passes(word, rounds[n].guess, LettersAfter(rounds, n + 1))
    ensures SurvivesRounds(word, rounds, n + 1)
  {
  }

  /** A word that passes the last round's elimination survives all rounds, also seen from a longer trace. */
  lemma SurvivesLatest(word: string, rounds: seq<Round>, r: Round)
    requires |rounds| > 0 && forall k :: 0 <= k < |rounds| ==> Answered(rounds[k])
    requires SurvivesRounds(word, rounds, |rounds| - 1)
    requires Passes(word, rounds[|rounds| - 1].guess, LettersAfter(rounds, |rounds|))
    ensures SurvivesRounds(word, rounds, |rounds|)
    ensures SurvivesRounds(word, rounds + [r], |rounds|)
  {
    SurvivesRoundsExtend(word, rounds, |rounds| - 1);
    SurvivesRoundsAppend(word, rounds, r, |rounds|);
  }

  /** A new round whose guess survives all the earlier ones keeps the trace consistent. */
  lemma ConsistentAppend(rounds: seq<Round>, r: Round)
    requires forall k :: 0 <= k < |rounds| ==> Answered(rounds[k])
    requires Consistent(rounds)
    requires SurvivesRounds(r.guess, rounds, |rounds|)
    ensures Consistent(rounds + [r])
  {
    var t := rounds + [r];
    forall k | 0 <= k < |t|
      ensures SurvivesRounds(t[k].guess, t, k)
    {
      SurvivesRoundsAppend(t[k].guess, rounds, r, k);
    }
  }

  /** Round k is numbered k and carries the oracle's answer for its guess. */
  ghost predicate Numbered(rounds: seq<Round>, oracle: (string, nat) -> HintResult) {
    forall k :: 0 <= k < |rounds| ==> rounds[k].index == k && rounds[k].result == oracle(rounds[k].guess, k)
  }

  /** Each round before the last was answered with hints that are not all Correct. */
  predicate Unsolved(rounds: seq<Round>) {
    forall k :: 0 <= k < |rounds| - 1 ==> Answered(rounds[k]) && !AllCorrect(rounds[k].result.hints)
  }

  /** No word is guessed twice. */
  predicate FreshGuesses(rounds: seq<Round>) {
    forall j, k :: 0 <= j < k < |rounds| ==> rounds[j].guess != rounds[k].guess
  }

  /**
   * Every guess is a word, and every guess after the opening one comes from
   * the word list and was answered with hints.
   */
  predicate FromList(rounds: seq<Round>, words: set<string>) {
    && (forall k :: 0 <= k < |rounds| ==> IsWord(rounds[k].guess))
    && (forall k :: 1 <= k < |rounds| ==> rounds[k].result.Hints? && rounds[k].guess in words)
  }

  /** The next round extends these three properties. */
  lemma RoundAppend(rounds: seq<Round>, oracle: (string, nat) -> HintResult, r: Round)
    requires |rounds| > 0 && Numbered(rounds, oracle) && Unsolved(rounds) && FreshGuesses(rounds)
    requires r.index == |rounds| && r.result == oracle(r.guess, r.index)
    requires Answered(rounds[|rounds| - 1]) && !AllCorrect(rounds[|rounds| - 1].result.hints)
    requires forall k :: 0 <= k < |rounds| ==> rounds[k].guess != r.guess
    ensures Numbered(rounds + [r], oracle) && Unsolved(rounds + [r]) && FreshGuesses(rounds + [r])
  {
  }

  /** The words guessed so far, `guesses` of the set version, added round by round. */
  function Guessed(rounds: seq<Round>): set<string> {
    if rounds == [] then {} else Guessed(rounds[..|rounds| - 1]) + {rounds[|rounds| - 1].guess}
  }

  /** The guessed words are exactly the guesses of the rounds. */
  lemma {:induction false} GuessedMembers(rounds: seq<Round>)
    ensures forall g :: g in Guessed(rounds) <==> exists k :: 0 <= k < |rounds| && rounds[k].guess == g
  {
    if rounds != [] {
      var front := rounds[..|rounds| - 1];
      GuessedMembers(front);
      forall g ensures g in Guessed(front) <==> exists k :: 0 <= k < |front| && rounds[k].guess == g {
        if g in Guessed(front) {
          var k :| 0 <= k < |front| && front[k].guess == g;
          assert rounds[k].guess == g;
        }
      }
    }
  }

  /** One more round adds its guess. */
  lemma GuessedAppend(rounds: seq<Round>, r: Round)
    ensures Guessed(rounds + [r]) == Guessed(rounds) + {r.guess}
  {
    assert (rounds + [r])[..|rounds|] == rounds;
  }

  /** The table after one more answered round. */
  lemma LettersAfterStep(rounds: seq<Round>, n: nat)
    requires n < |rounds| && forall k :: 0 <= k <= n ==> Answered(rounds[k])
    ensures LettersAfter(rounds, n + 1) == Folded(LettersAfter(rounds, n), rounds[n].guess, rounds[n].result.hints)
  {
  }

  /** The table after the last round of `rounds`, seen from a longer trace. */
  lemma TableAfterRound(rounds: seq<Round>, r: Round, before: map<char, LetterData>)
    requires |rounds| > 0 && forall k :: 0 <= k < |rounds| ==> Answered(rounds[k])
    requires Answered(rounds[|rounds| - 1]) && before == LettersAfter(rounds, |rounds| - 1)
    ensures Folded(before, rounds[|rounds| - 1].guess, rounds[|rounds| - 1].result.hints) == LettersAfter(rounds + [r], |rounds|)
  {
    LettersAfterAppend(rounds, r, |rounds|);
  }

  /**
   * What the yielded rounds satisfy: numbered with the oracle's answers, only
   * the last may be solved, no repeated guess, later guesses drawn from the
   * word list, and each guess consistent with every earlier round.
   */
  ghost predicate WellPlayed(rounds: seq<Round>, oracle: (string, nat) -> HintResult, words: set<string>) {
    && |rounds| >= 1
    && Numbered(rounds, oracle) && Unsolved(rounds) && FreshGuesses(rounds)
    && FromList(rounds, words) && Consistent(rounds)
  }

  /**
   * The candidates while the last round of `rounds` is pending: words of the
   * list, none guessed before, each surviving the elimination after every
   * round already folded in.
   */
  ghost predicate Open(possible: set<string>, rounds: seq<Round>, words: set<string>)
    requires |rounds| > 0 && forall k :: 0 <= k < |rounds| - 1 ==> Answered(rounds[k])
  {
    && possible <= words
    && (forall k :: 0 <= k < |rounds| - 1 ==> rounds[k].guess !in possible)
    && (forall w :: w in possible ==> SurvivesRounds(w, rounds, |rounds| - 1))
  }

  /** No round before round n guessed `word`. */
  ghost predicate Unguessed(word: string, rounds: seq<Round>, n: nat)
    requires n <= |rounds|
  {
    forall k :: 0 <= k < n ==> rounds[k].guess != word
  }

  /** The hint source accepted `word` at every round index from 1 to m. */
  ghost predicate Unrefused(word: string, oracle: (string, nat) -> HintResult, m: nat) {
    forall j :: 1 <= j <= m ==> oracle(word, j).Hints?
  }

  /**
   * `word` could still be the solution while the last round of `rounds` is
   * pending: it is on the list, no earlier round guessed it, the hint source
   * never refused it, and it survived every round already folded in.
   */
  ghost predicate Pending(word: string, rounds: seq<Round>, oracle: (string, nat) -> HintResult, words: set<string>)
    requires |rounds| > 0 && forall k :: 0 <= k < |rounds| - 1 ==> Answered(rounds[k])
  {
    && word in words && Unguessed(word, rounds, |rounds| - 1) && Unrefused(word, oracle, |rounds| - 1)
    && SurvivesRounds(word, rounds, |rounds| - 1)
  }

  /** The candidates hold every pending word. */
  ghost predicate Covers(possible: set<string>, rounds: seq<Round>, oracle: (string, nat) -> HintResult, words: set<string>)
    requires |rounds| > 0 && forall k :: 0 <= k < |rounds| - 1 ==> Answered(rounds[k])
  {
    forall w {:trigger Pending(w, rounds, oracle, words)} :: Pending(w, rounds, oracle, words) ==> w in possible
  }

  /**
   * `word` could follow the rounds of a trace: every round was answered, and
   * the word is on the list, guessed in no round, refused at no index after
   * the opening one up to the last round's, and survives the elimination after
   * every round.
   */
  ghost predicate Eligible(word: string, rounds: seq<Round>, oracle: (string, nat) -> HintResult, words: set<string>) {
    && |rounds| > 0
    && (forall k :: 0 <= k < |rounds| ==> Answered(rounds[k]))
    && word in words && Unguessed(word, rounds, |rounds|) && Unrefused(word, oracle, |rounds| - 1)
    && SurvivesRounds(word, rounds, |rounds|)
  }

  /** One round of the main loop keeps the trace well played and the candidates open. */
  lemma {:induction false} Advance(rounds: seq<Round>, r: Round, before: set<string>, after: set<string>,
                oracle: (string, nat) -> HintResult, words: set<string>)
    requires forall w :: w in words ==> IsWord(w)
    requires WellPlayed(rounds, oracle, words) && Open(before, rounds, words)
    requires Answered(rounds[|rounds| - 1]) && !AllCorrect(rounds[|rounds| - 1].result.hints)
    requires Sifted(before, rounds[|rounds| - 1].guess, LettersAfter(rounds, |rounds|), after, oracle, |rounds|)
    requires r.guess in after && r.index == |rounds| && r.result == oracle(r.guess, r.index) && r.result.Hints?
    ensures WellPlayed(rounds + [r], oracle, words) && Open(after, rounds + [r], words)
  {
    forall w | w in after
      ensures SurvivesRounds(w, rounds, |rounds|) && SurvivesRounds(w, rounds + [r], |rounds|)
    {
      SurvivesLatest(w, rounds, r);
    }
    RoundAppend(rounds, oracle, r);
    ConsistentAppend(rounds, r);
  }

  /**
   * The state of the generator just after yielding round i: the trace so far
   * is well played, the table holds the hints of every round but the last, and
   * the candidates are open; after the opening round the last guess is one of
   * the candidates.
   */
  ghost predicate Playing(rounds: seq<Round>, letters: map<char, LetterData>, possible: set<string>,
                          guess: string, result: HintResult, i: nat,
                          oracle: (string, nat) -> HintResult, words: set<string>) {
    && |rounds| == i + 1
    && rounds[i] == Round(i, guess, result)
    && WellPlayed(rounds, oracle, words)
    && letters == LettersAfter(rounds, i)
    && CoversAlphabet(letters)
    && Open(possible, rounds, words)
    && Covers(possible, rounds, oracle, words)
    && (i >= 1 ==> guess in possible)
  }

  /** After the opening round every word of the list is a candidate and the table is fresh. */
  lemma Opened(rounds: seq<Round>, letters: map<char, LetterData>, first: string,
               oracle: (string, nat) -> HintResult, words: set<string>)
    requires IsWord(first) && rounds == [Round(0, first, oracle(first, 0))] && letters == FreshTable()
    ensures Playing(rounds, letters, words, first, oracle(first, 0), 0, oracle, words)
  {
  }

  /**
   * While round i is pending, a word eligible after it is a candidate other
   * than the last guess and passes the elimination by that round's hints.
   */
  lemma EligibleCandidates(rounds: seq<Round>, letters: map<char, LetterData>, possible: set<string>,
                           guess: string, result: HintResult, i: nat,
                           oracle: (string, nat) -> HintResult, words: set<string>, folded: map<char, LetterData>)
    requires Playing(rounds, letters, possible, guess, result, i, oracle, words)
    requires Answered(rounds[i]) && folded == Folded(letters, guess, result.hints)
    ensures forall w :: Eligible(w, rounds, oracle, words) ==> w in possible && w != guess && Passes(w, guess, folded)
  {
    LettersAfterStep(rounds, i);
    forall w | Eligible(w, rounds, oracle, words)
      ensures w in possible && w != guess && Passes(w, guess, folded)
    {
      assert Passes(w, rounds[i].guess, LettersAfter(rounds, i + 1));
      assert rounds[i].guess != w;
      assert Pending(w, rounds, oracle, words);
    }
  }

  /** The words eligible after the rounds of a trace. */
  ghost function EligibleWords(rounds: seq<Round>, oracle: (string, nat) -> HintResult, words: set<string>): set<string> {
    set w | w in words && Eligible(w, rounds, oracle, words)
  }

  /** The eligible words that the hint source accepts at the next round index. */
  ghost function AcceptedNext(rounds: seq<Round>, oracle: (string, nat) -> HintResult, words: set<string>): set<string> {
    set w | w in EligibleWords(rounds, oracle, words) && oracle(w, |rounds|).Hints?
  }

  /**
   * What an error stop after the rounds of a trace means: NoPossibleWordsLeft
   * only when no word is eligible, NoCandidates only when the hint source
   * refuses every eligible word at the next index.
   */
  ghost predicate Stuck(rounds: seq<Round>, oracle: (string, nat) -> HintResult, words: set<string>, stop: Stop) {
    && (stop == NoPossibleWordsLeft ==> EligibleWords(rounds, oracle, words) == {})
    && (stop == NoCandidates ==> AcceptedNext(rounds, oracle, words) == {})
  }

  /**
   * The main loop goes on after round i with this answer: the hints are not
   * all Correct and fewer than 7 rounds were played (a refused answer stops
   * it, since Python fails evaluating the condition).
   */
  predicate Continues(result: HintResult, i: nat) {
    result.Hints? && !AllCorrect(result.hints) && i < 6
  }

  /** The hint source refuses, at `index`, every candidate other than the last guess that survives the elimination. */
  ghost predicate AllRefused(possible: set<string>, guess: string, folded: map<char, LetterData>,
                             oracle: (string, nat) -> HintResult, index: nat) {
    forall w :: w in possible && w != guess && Passes(w, guess, folded) ==> oracle(w, index).Rejected?
  }

  /** No candidate other than the last guess survives the elimination. */
  ghost predicate NonePass(possible: set<string>, guess: string, folded: map<char, LetterData>) {
    forall w :: w in possible && w != guess ==> !Passes(w, guess, folded)
  }

  /**
   * The candidates `after` a round: survivors of the elimination other than
   * the last guess, and every survivor left out was refused by the hint
   * source at round index `index`.
   */
  ghost predicate Sifted(possible: set<string>, guess: string, folded: map<char, LetterData>, after: set<string>,
                         oracle: (string, nat) -> HintResult, index: nat) {
    && (forall w :: w in after ==> w in possible && w != guess && Passes(w, guess, folded))
    && (forall w :: (w in possible && w != guess && Passes(w, guess, folded) && w !in after)
                      ==> oracle(w, index).Rejected?)
  }

  /** Stuck for whichever stop occurred, from Stuck for each error stop. */
  lemma StuckAt(rounds: seq<Round>, oracle: (string, nat) -> HintResult, words: set<string>, stop: Stop)
    requires stop == NoPossibleWordsLeft ==> Stuck(rounds, oracle, words, NoPossibleWordsLeft)
    requires stop == NoCandidates ==> Stuck(rounds, oracle, words, NoCandidates)
    ensures Stuck(rounds, oracle, words, stop)
  {
  }

  /**
   * Why round i + 1 fails: elimination left no candidate other than the last
   * guess (`noneLeft`), or the hint source refused every survivor
   * (`noneAccepted`).
   */
  lemma RoundEnds(rounds: seq<Round>, letters: map<char, LetterData>, possible: set<string>,
                  guess: string, result: HintResult, i: nat,
                  oracle: (string, nat) -> HintResult, words: set<string>,
                  folded: map<char, LetterData>, after: set<string>, noneLeft: bool, noneAccepted: bool)
    requires Playing(rounds, letters, possible, guess, result, i, oracle, words)
    requires Answered(rounds[i]) && folded == Folded(letters, guess, result.hints)
    requires noneLeft <==> NonePass(possible, guess, folded)
    requires noneAccepted ==> after == {}
    requires Sifted(possible, guess, folded, after, oracle, i + 1)
    ensures noneLeft ==> Stuck(rounds, oracle, words, NoPossibleWordsLeft)
    ensures noneAccepted ==> Stuck(rounds, oracle, words, NoCandidates)
  {
    EligibleCandidates(rounds, letters, possible, guess, result, i, oracle, words, folded);
  }

  /**
   * After round i, the new candidates cover the words eligible for round
   * i + 1, provided the round dropped only words that fail the elimination
   * or that the hint source refused at index i + 1.
   */
  lemma CoversAfter(rounds: seq<Round>, letters: map<char, LetterData>, possible: set<string>,
                    guess: string, result: HintResult, i: nat,
                    oracle: (string, nat) -> HintResult, words: set<string>,
                    r: Round, after: set<string>, folded: map<char, LetterData>)
    requires Playing(rounds, letters, possible, guess, result, i, oracle, words)
    requires Answered(rounds[i]) && folded == Folded(letters, guess, result.hints)
    requires Sifted(possible, guess, folded, after, oracle, i + 1)
    ensures Covers(after, rounds + [r], oracle, words)
  {
    var t := rounds + [r];
    LettersAfterStep(rounds, i);
    forall w | Pending(w, t, oracle, words)
      ensures w in after
    {
      SurvivesRoundsAppend(w, rounds, r, i + 1);
      assert Passes(w, rounds[i].guess, LettersAfter(rounds, i + 1));
      assert t[i] == rounds[i];
      assert Unguessed(w, rounds, i) by {
        forall k | 0 <= k < i ensures rounds[k].guess != w {
          assert t[k] == rounds[k];
        }
      }
      assert Pending(w, rounds, oracle, words);
      assert oracle(w, i + 1).Hints?;
    }
  }

  /**
   * Playing one more round: fold the last hints, keep the words that pass, and
   * append the chosen guess with its answer.
   */
  lemma PlayingAfter(rounds: seq<Round>, letters: map<char, LetterData>, possible: set<string>,
                     guess: string, result: HintResult, i: nat,
                     oracle: (string, nat) -> HintResult, words: set<string>,
                     r: Round, after: set<string>, folded: map<char, LetterData>)
    requires forall w :: w in words ==> IsWord(w)
    requires WellFormedOracle(oracle)
    requires Playing(rounds, letters, possible, guess, result, i, oracle, words)
    requires result.Hints? && !AllCorrect(result.hints) && guess in possible
    requires folded == Folded(letters, guess, result.hints)
    requires Sifted(possible, guess, folded, after, oracle, i + 1)
    requires r.guess in after && r.index == i + 1 && r.result == oracle(r.guess, r.index) && r.result.Hints?
    ensures Playing(rounds + [r], folded, after, r.guess, r.result, i + 1, oracle, words)
  {
    assert Answered(rounds[i]);
    LettersAfterStep(rounds, i);
    Advance(rounds, r, possible, after, oracle, words);
    TableAfterRound(rounds, r, letters);
    CoversAfter(rounds, letters, possible, guess, result, i, oracle, words, r, after, folded);
    assert (rounds + [r])[i + 1] == r;
  }
}
