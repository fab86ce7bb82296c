/**
 * `eliminate`: dropping every candidate word that contradicts the per-letter
 * table, in the set version (wordguesser.py) and the list version (guesser.py).
 */
module Eliminator {
  import opened Words
  import opened Hints
  import opened Letters

  /**
   * The lookups the code makes for a word are defined: the guess is at least
   * as long as the word, and every letter it looks up has a record.
   */
  predicate Fits(word: string, guess: string, letters: map<char, LetterData>) {
    && |word| <= |guess|
    && (forall i :: 0 <= i < |word| ==> guess[i] in letters)
    && (forall i :: 0 <= i < |word| ==> word[i] in letters)
  }

  /**
   * Position i of `word` is rejected: the guess's letter at i is known there
   * but the word differs; or the word's letter is known not to be at i; or
   * the word's letter has a frozen count that the word does not have exactly.
   * The green check consults the record of the GUESS's letter only.
   */
  predicate Violates(word: string, guess: string, letters: map<char, LetterData>, i: nat)
    requires Fits(word, guess, letters) && i < |word|
  {
    || (i in letters[guess[i]].knownPositions && word[i] != guess[i])
    || i in letters[word[i]].impossiblePositions
    || (letters[word[i]].countFrozen && Occurrences(word, word[i]) != letters[word[i]].minCount)
  }

  /**
   * A letter with some impossible position (a yellow seen) is missing from
   * `word`, or occurs fewer than min_count times.
   */
  predicate MissesYellow(word: string, letters: map<char, LetterData>, c: char)
    requires c in letters
  {
    letters[c].impossiblePositions != {} && (c !in word || Occurrences(word, c) < letters[c].minCount)
  }

  /** `word` survives `eliminate`. */
  predicate Keep(word: string, guess: string, letters: map<char, LetterData>)
    requires Fits(word, guess, letters)
  {
    && (forall i :: 0 <= i < |word| ==> !Violates(word, guess, letters, i))
    && (forall c {:trigger MissesYellow(word, letters, c)} :: c in letters ==> !MissesYellow(word, letters, c))
  }

  /** The lookups are defined and `word` survives. */
  predicate Passes(word: string, guess: string, letters: map<char, LetterData>) {
    Fits(word, guess, letters) && Keep(word, guess, letters)
  }

  /** The words of a set that survive. */
  function Survivors(possible: set<string>, guess: string, letters: map<char, LetterData>): (r: set<string>)
    requires forall w :: w in possible ==> Fits(w, guess, letters)
    ensures r <= possible
  {
    set w | w in possible && Keep(w, guess, letters)
  }

  /**
   * The first inner loop of eliminate: walk the word's positions and stop at
   * the first one that is rejected.
   */
  method PassesPositions(word: string, guess: string, letters: map<char, LetterData>) returns (ok: bool)
    requires Fits(word, guess, letters)
    ensures ok <==> forall j :: 0 <= j < |word| ==> !Violates(word, guess, letters, j)
  {
    ok := true;
    for i := 0 to |word|
      invariant ok <==> forall j :: 0 <= j < i ==> !Violates(word, guess, letters, j)
    {
      var letter := word[i];
      if i in letters[guess[i]].knownPositions && word[i] != guess[i] {
        ok := false;
        assert Violates(word, guess, letters, i);
        break;
      } else if i in letters[letter].impossiblePositions {
        ok := false;
        assert Violates(word, guess, letters, i);
        break;
      } else if letters[letter].countFrozen {
        if Occurrences(word, letter) != letters[letter].minCount {
          ok := false;
          assert Violates(word, guess, letters, i);
          break;
        }
      }
    }
  }

  /**
   * The second inner loop of eliminate: walk the letters of the table and stop
   * at the first one with a yellow that the word lacks or has too few of.
   */
  method PassesYellows(word: string, letters: map<char, LetterData>) returns (ok: bool)
    ensures ok <==> forall c :: c in letters ==> !MissesYellow(word, letters, c)
  {
    ok := true;
    var keys := letters.Keys;
    while keys != {}
      invariant keys <= letters.Keys
      invariant ok <==> forall c :: c in letters && c !in keys ==> !MissesYellow(word, letters, c)
      decreases |keys|
    {
      var letter :| letter in keys;
      keys := keys - {letter};
      if letters[letter].impossiblePositions == {} {
        continue;
      } else if letter !in word {
        ok := false;
        break;
      } else if Occurrences(word, letter) < letters[letter].minCount {
        ok := false;
        break;
      }
    }
  }

  /**
   * The body of eliminate's outer loop for one word: the position checks,
   * then, only for a word that passed them, the yellow checks.
   */
  method Checks(word: string, guess: string, letters: map<char, LetterData>) returns (ok: bool)
    requires Fits(word, guess, letters)
    ensures ok <==> Keep(word, guess, letters)
  {
    ok := PassesPositions(word, guess, letters);
    if ok {
      ok := PassesYellows(word, letters);
    }
  }

  /**
   * eliminate (set version): a copy of the set loses each word that fails a
   * position check or, if it passed those, a yellow check.
   */
  method EliminateSet(possible: set<string>, guess: string, letters: map<char, LetterData>)
    returns (retained: set<string>)
    requires forall w :: w in possible ==> Fits(w, guess, letters)
    ensures retained == Survivors(possible, guess, letters)
  {
    retained := possible;
    var pending := possible;

    while pending != {}
      invariant pending <= possible && retained <= possible
      invariant forall w :: w in possible ==> (w in retained <==> w in pending || Keep(w, guess, letters))
      decreases |pending|
    {
      var word :| word in pending;
      pending := pending - {word};

      var ok := Checks(word, guess, letters);
      if !ok {
        retained := retained - {word};
      }
    }
  }

  /** The words of a list that survive, in their order. */
  function Kept(possible: seq<string>, guess: string, letters: map<char, LetterData>): (r: seq<string>)
    requires forall k :: 0 <= k < |possible| ==> Fits(possible[k], guess, letters)
    ensures |r| <= |possible|
  {
    if possible == [] then []
    else
      var rest := Kept(possible[..|possible| - 1], guess, letters);
      var w := possible[|possible| - 1];
      if Keep(w, guess, letters) then rest + [w] else rest
  }

  /** The survivors of a list are exactly the words of the list that survive. */
  lemma {:induction false} KeptMembers(possible: seq<string>, guess: string, letters: map<char, LetterData>)
    requires forall k :: 0 <= k < |possible| ==> Fits(possible[k], guess, letters)
    ensures forall w :: w in Kept(possible, guess, letters) <==> w in possible && Keep(w, guess, letters)
  {
    if possible != [] {
      var front, last := possible[..|possible| - 1], possible[|possible| - 1];
      KeptMembers(front, guess, letters);
      assert possible == front + [last];
    }
  }

  /** `list.remove(x)`: the first copy of `x` is dropped. */
  function RemoveFirst(s: seq<string>, x: string): (r: seq<string>)
    requires x in s
    ensures |r| == |s| - 1
  {
    if s[0] == x then s[1..] else [s[0]] + RemoveFirst(s[1..], x)
  }

  /** Removing `x` from `a + [x] + b` where `a` lacks `x` leaves `a + b`. */
  lemma {:induction false} RemoveFirstAfter(a: seq<string>, x: string, b: seq<string>)
    requires x !in a
    ensures RemoveFirst(a + [x] + b, x) == a + b
  {
    var s := a + [x] + b;
    if a == [] {
      assert s == [x] + b;
    } else {
      assert s[0] == a[0] != x;
      assert s[1..] == a[1..] + [x] + b;
      RemoveFirstAfter(a[1..], x, b);
      assert RemoveFirst(s, x) == [a[0]] + (a[1..] + b);
      assert a == [a[0]] + a[1..];
    }
  }

  /** For a list without repeats, `remove(x)` drops exactly `x` and keeps the list free of repeats. */
  lemma {:induction false} RemoveFirstNoRepeats(s: seq<string>, x: string)
    requires x in s && NoRepeats(s)
    ensures NoRepeats(RemoveFirst(s, x))
    ensures forall w :: w in RemoveFirst(s, x) <==> w in s && w != x
  {
    var t := s[1..];
    assert s == [s[0]] + t;
    forall j | 0 <= j < |t|
      ensures t[j] != s[0]
    {
      assert t[j] == s[j + 1];
    }
    assert NoRepeats(t);
    if s[0] != x {
      RemoveFirstNoRepeats(t, x);
      ConsNoRepeats(s[0], RemoveFirst(t, x));
    }
  }

  /** The survivors of a list without repeats have no repeats. */
  lemma {:induction false} KeptNoRepeats(possible: seq<string>, guess: string, letters: map<char, LetterData>)
    requires forall k :: 0 <= k < |possible| ==> Fits(possible[k], guess, letters)
    requires NoRepeats(possible)
    ensures NoRepeats(Kept(possible, guess, letters))
  {
    if possible != [] {
      var front := possible[..|possible| - 1];
      var last := possible[|possible| - 1];
      assert NoRepeats(front);
      KeptNoRepeats(front, guess, letters);
      KeptMembers(front, guess, letters);
      assert possible == front + [last];
      assert last !in front;
    }
  }

  /**
   * eliminate (list version): the same checks; `retained_words.remove(word)`
   * drops the first copy of the word, which for a list without repeats keeps
   * the surviving words in their order.
   */
  method EliminateList(possible: seq<string>, guess: string, letters: map<char, LetterData>)
    returns (retained: seq<string>)
    requires forall k :: 0 <= k < |possible| ==> Fits(possible[k], guess, letters)
    requires NoRepeats(possible)
    ensures retained == Kept(possible, guess, letters)
  {
    retained := possible;

    for k := 0 to |possible|
      invariant retained == Kept(possible[..k], guess, letters) + possible[k..]
    {
      var word := possible[k];
      ListStep(possible, guess, letters, k, retained);
      var ok := Checks(word, guess, letters);
      if !ok {
        retained := RemoveFirst(retained, word);
      }
    }
    assert possible[..|possible|] == possible;
  }

  /**
   * The list after k words have been processed, and one more: a kept word
   * stays where it is, a dropped one is the first copy `remove` finds.
   */
  lemma ListStep(possible: seq<string>, guess: string, letters: map<char, LetterData>, k: nat, retained: seq<string>)
    requires forall j :: 0 <= j < |possible| ==> Fits(possible[j], guess, letters)
    requires NoRepeats(possible) && k < |possible|
    requires retained == Kept(possible[..k], guess, letters) + possible[k..]
    ensures possible[k] in retained
    ensures Keep(possible[k], guess, letters) ==>
              retained == Kept(possible[..k + 1], guess, letters) + possible[k + 1..]
    ensures !Keep(possible[k], guess, letters) ==>
              RemoveFirst(retained, possible[k]) == Kept(possible[..k + 1], guess, letters) + possible[k + 1..]
  {
    if Keep(possible[k], guess, letters) {
      ListStepKept(possible, guess, letters, k);
    } else {
      ListStepDropped(possible, guess, letters, k);
    }
  }

  /** A kept word: the list after k + 1 words is the list after k. */
  lemma ListStepKept(possible: seq<string>, guess: string, letters: map<char, LetterData>, k: nat)
    requires forall j :: 0 <= j < |possible| ==> Fits(possible[j], guess, letters)
    requires k < |possible| && Keep(possible[k], guess, letters)
    ensures Kept(possible[..k], guess, letters) + possible[k..] == Kept(possible[..k + 1], guess, letters) + possible[k + 1..]
  {
    var kept, w, rest := Kept(possible[..k], guess, letters), possible[k], possible[k + 1..];
    KeptStep(possible, guess, letters, k);
    assert possible[k..] == [w] + rest;
    assert kept + ([w] + rest) == (kept + [w]) + rest;
  }

  /** A dropped word: `remove` finds it right after the survivors so far. */
  lemma ListStepDropped(possible: seq<string>, guess: string, letters: map<char, LetterData>, k: nat)
    requires forall j :: 0 <= j < |possible| ==> Fits(possible[j], guess, letters)
    requires NoRepeats(possible) && k < |possible| && !Keep(possible[k], guess, letters)
    ensures possible[k] in Kept(possible[..k], guess, letters) + possible[k..]
    ensures RemoveFirst(Kept(possible[..k], guess, letters) + possible[k..], possible[k])
            == Kept(possible[..k + 1], guess, letters) + possible[k + 1..]
  {
    var kept, w, rest := Kept(possible[..k], guess, letters), possible[k], possible[k + 1..];
    KeptStep(possible, guess, letters, k);
    KeptFresh(possible, guess, letters, k);
    assert possible[k..] == [w] + rest;
    assert kept + ([w] + rest) == kept + [w] + rest;
    RemoveFirstAfter(kept, w, rest);
  }

  /** One more word: the survivors so far, and the word if it is kept. */
  lemma KeptStep(possible: seq<string>, guess: string, letters: map<char, LetterData>, k: nat)
    requires forall j :: 0 <= j < |possible| ==> Fits(possible[j], guess, letters)
    requires k < |possible|
    ensures Kept(possible[..k + 1], guess, letters)
         == Kept(possible[..k], guess, letters) + (if Keep(possible[k], guess, letters) then [possible[k]] else [])
  {
    assert possible[..k + 1][..k] == possible[..k];
  }

  /** In a list without repeats, the next word is new to the survivors so far. */
  lemma KeptFresh(possible: seq<string>, guess: string, letters: map<char, LetterData>, k: nat)
    requires forall j :: 0 <= j < |possible| ==> Fits(possible[j], guess, letters)
    requires NoRepeats(possible) && k < |possible|
    ensures possible[k] !in Kept(possible[..k], guess, letters)
  {
    KeptMembers(possible[..k], guess, letters);
  }

  // ---------------------------------------------------------------------------
  // What elimination promises.
  // ---------------------------------------------------------------------------

  /** Before any hint, every word fits the table and survives. */
  lemma FreshTableKeepsAll(word: string, guess: string)
    requires IsWord(word) && IsWord(guess)
    ensures Fits(word, guess, FreshTable())
    ensures Keep(word, guess, FreshTable())
  {
  }

  /** With a fresh table, eliminate (set version) returns every word it was given. */
  lemma FreshTableKeepsSet(possible: set<string>, guess: string)
    requires IsWord(guess) && forall w :: w in possible ==> IsWord(w)
    ensures forall w :: w in possible ==> Fits(w, guess, FreshTable())
    ensures Survivors(possible, guess, FreshTable()) == possible
  {
    forall w | w in possible
      ensures Fits(w, guess, FreshTable()) && Keep(w, guess, FreshTable())
    {
      FreshTableKeepsAll(w, guess);
    }
  }

  /** With a fresh table, eliminate (list version) returns the list unchanged. */
  lemma {:induction false} FreshTableKeepsList(possible: seq<string>, guess: string)
    requires IsWord(guess) && forall k :: 0 <= k < |possible| ==> IsWord(possible[k])
    ensures forall k :: 0 <= k < |possible| ==> Fits(possible[k], guess, FreshTable())
    ensures Kept(possible, guess, FreshTable()) == possible
  {
    forall k | 0 <= k < |possible|
      ensures Fits(possible[k], guess, FreshTable()) && Keep(possible[k], guess, FreshTable())
    {
      FreshTableKeepsAll(possible[k], guess);
    }
    if possible != [] {
      var front := possible[..|possible| - 1];
      FreshTableKeepsList(front, guess);
      assert possible == front + [possible[|possible| - 1]];
    }
  }

  /**
   * One round is sound: the solution survives elimination by a table built
   * from a fresh one with the hints that generate_hints gives for any guess.
   */
  lemma SolutionSurvivesFirstRound(guess: string, solution: string)
    requires IsWord(guess) && IsWord(solution)
    ensures Fits(solution, guess, Folded(FreshTable(), guess, Expected(guess, solution)))
    ensures Keep(solution, guess, Folded(FreshTable(), guess, Expected(guess, solution)))
  {
    var hints := Expected(guess, solution);
    var letters := Folded(FreshTable(), guess, hints);
    assert '.' !in guess by {
      assert !IsLetter('.');
    }
    forall i | 0 <= i < |solution|
      ensures !Violates(solution, guess, letters, i)
    {
      VersusPosition(guess, solution, i);
    }
    forall c | c in letters
      ensures !MissesYellow(solution, letters, c)
    {
      VersusYellow(guess, solution, c);
    }
  }

  /** The position checks pass for the solution. */
  lemma VersusPosition(guess: string, solution: string, i: nat)
    requires IsWord(guess) && IsWord(solution) && '.' !in guess && i < WordLength
    ensures Fits(solution, guess, Folded(FreshTable(), guess, Expected(guess, solution)))
    ensures !Violates(solution, guess, Folded(FreshTable(), guess, Expected(guess, solution)), i)
  {
    var hints := Expected(guess, solution);
    var letters := Folded(FreshTable(), guess, hints);
    FoldOnlyGrows(FreshTable(), guess, hints, guess[i]);
    var c := solution[i];
    FoldOnlyGrows(FreshTable(), guess, hints, c);
    if letters[c].countFrozen {
      OccurrencesPositive(guess, c);
      assert c in guess;
      FoldMinCount(FreshTable(), guess, hints, c);
      var j :| 0 <= j < WordLength && guess[j] == c && hints[j] == Absent;
      AbsentMeansAllCounted(guess, solution, j);
      FreshFoldMinCount(guess, hints, c);
    }
  }

  /** The yellow checks pass for the solution. */
  lemma VersusYellow(guess: string, solution: string, c: char)
    requires IsWord(guess) && IsWord(solution) && '.' !in guess
    requires c in Folded(FreshTable(), guess, Expected(guess, solution))
    ensures !MissesYellow(solution, Folded(FreshTable(), guess, Expected(guess, solution)), c)
  {
    var hints := Expected(guess, solution);
    var letters := Folded(FreshTable(), guess, hints);
    FoldOnlyGrows(FreshTable(), guess, hints, c);
    if letters[c].impossiblePositions != {} {
      var j :| j in letters[c].impossiblePositions;
      assert j < WordLength && guess[j] == c && hints[j] == Present;
      PresentMeansUnmatched(guess, solution, j);
      OccurrencesPositive(guess, c);
      FreshFoldMinCount(guess, hints, c);
      MarksBoundedByCounts(guess, solution, c);
    }
  }
}
