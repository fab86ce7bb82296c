/**
 * `choose_word`: the next guess is a candidate that differs most from the
 * guesses so far. A candidate's score is its similarity to every earlier
 * guess plus a penalty for repeated letters; the lowest score wins.
 * `SequenceMatcher(None, a, b).ratio()` is the parameter `sim`.
 */
module Selector {
  import opened Words

  datatype Option<T> = None | Some(value: T)

  /** `len(word) - len(set(word))`: how many letters repeat an earlier one. */
  function Penalty(word: string): int {
    |word| - |LetterSet(word)|
  }

  /** A word of five letters has a penalty of 0 to 4, and 0 exactly when no letter repeats. */
  lemma PenaltyRange(word: string)
    requires IsWord(word)
    ensures 0 <= Penalty(word) <= WordLength - 1
    ensures Penalty(word) == 0 <==> NoRepeats(word)
  {
    LetterSetSize(word);
    DistinctIffFullLetterSet(word);
  }

  /** A word has as many distinct letters as positions exactly when no letter repeats. */
  lemma {:induction false} DistinctIffFullLetterSet(w: string)
    ensures |LetterSet(w)| == |w| <==> NoRepeats(w)
  {
    if |w| > 0 {
      var rest := w[1..];
      DistinctIffFullLetterSet(rest);
      LetterSetSize(rest);
      assert w == [w[0]] + rest;
      assert LetterSet(w) == {w[0]} + LetterSet(rest);
      assert NoRepeats(w) <==> w[0] !in rest && NoRepeats(rest) by {
        if NoRepeats(w) {
          forall j, k | 0 <= j < k < |rest| ensures rest[j] != rest[k] {
            assert rest[j] == w[j + 1] && rest[k] == w[k + 1];
          }
          forall k | 0 <= k < |rest| ensures rest[k] != w[0] {
            assert rest[k] == w[k + 1];
          }
        }
        if w[0] !in rest && NoRepeats(rest) {
          forall j, k | 0 <= j < k < |w| ensures w[j] != w[k] {
            assert w[k] == rest[k - 1];
            if j > 0 {
              assert w[j] == rest[j - 1];
            }
          }
        }
      }
    }
  }

  /**
   * `min(comparison, key=comparison.get)` over a dictionary whose keys were
   * inserted in the order `order`: the position of the first key of least score.
   */
  method FirstLeast(order: seq<string>, scores: map<string, real>) returns (best: nat)
    requires order != [] && forall k :: 0 <= k < |order| ==> order[k] in scores
    ensures best < |order|
    ensures forall j :: 0 <= j < |order| ==> scores[order[best]] <= scores[order[j]]
    ensures forall j :: 0 <= j < best ==> scores[order[best]] < scores[order[j]]
  {
    best := 0;
    for k := 1 to |order|
      invariant best < k
      invariant forall j :: 0 <= j < k ==> scores[order[best]] <= scores[order[j]]
      invariant forall j :: 0 <= j < best ==> scores[order[best]] < scores[order[j]]
    {
      if scores[order[k]] < scores[order[best]] {
        best := k;
      }
    }
  }

  // ---------------------------------------------------------------------------
  // Set version (wordguesser.py).
  // ---------------------------------------------------------------------------

  /**
   * Total similarity of `word` to a set of guesses. The set is summed in an
   * arbitrary order; for exact reals the order does not matter (SumRemove).
   */
  ghost function SumSimilarity(word: string, guesses: set<string>, sim: (string, string) -> real): real
    decreases |guesses|
  {
    if guesses == {} then 0.0
    else
      var g :| g in guesses;
      sim(word, g) + SumSimilarity(word, guesses - {g}, sim)
  }

  /** Any guess can be summed first. */
  lemma {:induction false} SumRemove(word: string, guesses: set<string>, g: string, sim: (string, string) -> real)
    requires g in guesses
    ensures SumSimilarity(word, guesses, sim) == sim(word, g) + SumSimilarity(word, guesses - {g}, sim)
    decreases |guesses|
  {
    var h :| h in guesses && SumSimilarity(word, guesses, sim) == sim(word, h) + SumSimilarity(word, guesses - {h}, sim);
    if h != g {
      SumRemove(word, guesses - {h}, g, sim);
      SumRemove(word, guesses - {g}, h, sim);
      assert guesses - {h} - {g} == guesses - {g} - {h};
    }
  }

  /** Adding a new guess adds its similarity. */
  lemma SumAdd(word: string, guesses: set<string>, g: string, sim: (string, string) -> real)
    requires g !in guesses
    ensures SumSimilarity(word, guesses + {g}, sim) == SumSimilarity(word, guesses, sim) + sim(word, g)
  {
    SumRemove(word, guesses + {g}, g, sim);
    assert guesses + {g} - {g} == guesses;
  }

  /** The score `comparison[word]` of a candidate. */
  ghost function Score(word: string, guesses: set<string>, sim: (string, string) -> real): real {
    SumSimilarity(word, guesses, sim) + Penalty(word) as real
  }

  /** `comparison.get(word, 0)` */
  function GetScore(comparison: map<string, real>, word: string): real {
    if word in comparison then comparison[word] else 0.0
  }

  /**
   * The inner loop of choose_word (set version): the similarity of `word` to
   * each guess is added to its entry, which `get` starts at 0 unless it is
   * present. With no guesses the dictionary is unchanged.
   */
  method AddSimilarities(comparison: map<string, real>, word: string, guesses: set<string>,
                         sim: (string, string) -> real)
    returns (updated: map<string, real>)
    ensures forall w :: w in updated <==> w in comparison || (w == word && guesses != {})
    ensures forall w :: w in comparison && w != word ==> updated[w] == comparison[w]
    ensures GetScore(updated, word) == GetScore(comparison, word) + SumSimilarity(word, guesses, sim)
  {
    updated := comparison;
    var rest := guesses;
    ghost var visited: set<string> := {};
    while rest != {}
      invariant rest <= guesses
      invariant forall g :: g in visited <==> g in guesses && g !in rest
      invariant forall w :: w in updated <==> w in comparison || (w == word && visited != {})
      invariant forall w :: w in comparison && w != word ==> updated[w] == comparison[w]
      invariant GetScore(updated, word) == GetScore(comparison, word) + SumSimilarity(word, visited, sim)
      decreases |rest|
    {
      var guess :| guess in rest;
      rest := rest - {guess};
      updated := updated[word := GetScore(updated, word) + sim(word, guess)];
      SumAdd(word, visited, guess, sim);
      visited := visited + {guess};
    }
    assert visited == guesses;
  }

  /**
   * choose_word (set version). With `randomize`, any candidate; otherwise the
   * candidates are scored into a dictionary in the set's iteration order and
   * `min` returns the first one of least score in that order. An empty set of
   * candidates has no choice (Python raises an error).
   */
  method ChooseWordSet(guesses: set<string>, possible: set<string>, randomize: bool, sim: (string, string) -> real)
    returns (choice: Option<string>)
    ensures choice.None? <==> possible == {}
    ensures choice.Some? ==> choice.value in possible
    ensures !randomize && choice.Some? ==>
              forall v :: v in possible ==> Score(choice.value, guesses, sim) <= Score(v, guesses, sim)
  {
    if randomize {
      if possible == {} {
        return None;
      }
      var word :| word in possible;
      return Some(word);
    }

    var comparison: map<string, real> := map[];
    var order: seq<string> := [];
    var pending := possible;
    while pending != {}
      invariant pending <= possible
      invariant forall w :: w in comparison <==> w in possible && w !in pending
      invariant forall w :: w in comparison ==> comparison[w] == Score(w, guesses, sim)
      invariant forall k :: 0 <= k < |order| ==> order[k] in comparison
      invariant forall w :: w in comparison ==> w in order
      decreases |pending|
    {
      var word :| word in pending;
      pending := pending - {word};
      comparison := AddSimilarities(comparison, word, guesses, sim);
      comparison := comparison[word := GetScore(comparison, word) + Penalty(word) as real];
      order := order + [word];
    }
    assert comparison.Keys == possible;

    if order == [] {
      assert forall w :: w in possible ==> w in order;
      return None;
    }
    var best := FirstLeast(order, comparison);
    return Some(order[best]);
  }

  // ---------------------------------------------------------------------------
  // List version (guesser.py).
  // ---------------------------------------------------------------------------

  /** Total similarity of `word` to a list of guesses, summed left to right. */
  function SumSimilarityList(word: string, guesses: seq<string>, sim: (string, string) -> real): real {
    if guesses == [] then 0.0
    else SumSimilarityList(word, guesses[..|guesses| - 1], sim) + sim(word, guesses[|guesses| - 1])
  }

  /** For guesses without repeats, the list sum is the set sum of the same guesses. */
  lemma {:induction false} SumListIsSumSet(word: string, guesses: seq<string>, sim: (string, string) -> real)
    requires NoRepeats(guesses)
    ensures SumSimilarityList(word, guesses, sim) == SumSimilarity(word, (set g | g in guesses), sim)
  {
    if guesses != [] {
      var front := guesses[..|guesses| - 1];
      var last := guesses[|guesses| - 1];
      assert NoRepeats(front);
      SumListIsSumSet(word, front, sim);
      assert guesses == front + [last];
      assert last !in front;
      var all, rest := set g | g in guesses, set g | g in front;
      forall g
        ensures g in all - {last} <==> g in rest
      {
        assert g in guesses <==> g in front || g == last;
      }
      assert all - {last} == rest;
      SumRemove(word, all, last, sim);
    }
  }

  /** The list score is the set score, when the guesses have no repeats. */
  lemma ScoresAgree(word: string, guesses: seq<string>, sim: (string, string) -> real)
    requires NoRepeats(guesses)
    ensures ScoreList(word, guesses, sim) == Score(word, (set g | g in guesses), sim)
  {
    SumListIsSumSet(word, guesses, sim);
  }

  function ScoreList(word: string, guesses: seq<string>, sim: (string, string) -> real): real {
    SumSimilarityList(word, guesses, sim) + Penalty(word) as real
  }

  /**
   * The inner loop of choose_word (list version): the similarity of `word` to
   * each guess, in list order, is added to its entry. With no guesses the
   * dictionary is unchanged.
   */
  method AddSimilaritiesList(comparable: map<string, real>, word: string, guesses: seq<string>,
                             sim: (string, string) -> real)
    returns (updated: map<string, real>)
    ensures forall w :: w in updated <==> w in comparable || (w == word && guesses != [])
    ensures forall w :: w in comparable && w != word ==> updated[w] == comparable[w]
    ensures GetScore(updated, word) == GetScore(comparable, word) + SumSimilarityList(word, guesses, sim)
  {
    updated := comparable;
    for m := 0 to |guesses|
      invariant forall w :: w in updated <==> w in comparable || (w == word && m > 0)
      invariant forall w :: w in comparable && w != word ==> updated[w] == comparable[w]
      invariant GetScore(updated, word) == GetScore(comparable, word) + SumSimilarityList(word, guesses[..m], sim)
    {
      assert guesses[..m + 1][..m] == guesses[..m];
      updated := updated[word := GetScore(updated, word) + sim(word, guesses[m])];
    }
    assert guesses[..|guesses|] == guesses;
  }

  /**
   * choose_word (list version). With `randomize`, any candidate; otherwise
   * the candidate of least score that comes first in the list.
   */
  method ChooseWordList(guesses: seq<string>, possible: seq<string>, randomize: bool, sim: (string, string) -> real)
    returns (choice: Option<string>)
    requires NoRepeats(possible)
    ensures choice.None? <==> possible == []
    ensures choice.Some? ==> choice.value in possible
    ensures !randomize && choice.Some? ==>
              exists k :: 0 <= k < |possible| && possible[k] == choice.value
                && (forall j :: 0 <= j < |possible| ==> ScoreList(possible[k], guesses, sim) <= ScoreList(possible[j], guesses, sim))
                && (forall j :: 0 <= j < k ==> ScoreList(possible[k], guesses, sim) < ScoreList(possible[j], guesses, sim))
  {
    if randomize {
      if possible == [] {
        return None;
      }
      var k :| 0 <= k < |possible|;
      return Some(possible[k]);
    }

    var comparable: map<string, real> := map[];
    for n := 0 to |possible|
      invariant forall w :: w in comparable <==> w in possible[..n]
      invariant forall j :: 0 <= j < n ==> comparable[possible[j]] == ScoreList(possible[j], guesses, sim)
    {
      var word := possible[n];
      assert word !in possible[..n];
      assert forall w :: w in possible[..n + 1] <==> w in possible[..n] || w == word by {
        assert possible[..n + 1] == possible[..n] + [word];
      }
      comparable := AddSimilaritiesList(comparable, word, guesses, sim);
      comparable := comparable[word := GetScore(comparable, word) + Penalty(word) as real];
    }

    if possible == [] {
      return None;
    }
    var best := FirstLeast(possible, comparable);
    return Some(possible[best]);
  }
}
