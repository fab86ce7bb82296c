/**
 * The per-letter constraint table: the `LetterData` record of each letter and
 * `build_letters_data`, which folds one round (guess, hints) into the table in
 * place. The table is the dictionary `{letter: LetterData() for letter in
 * string.ascii_lowercase}`; each letter owns its own record.
 */
module Letters {
  import opened Words
  import opened Hints

  /**
   * known_positions: where the letter was Correct; impossible_positions: where
   * it was Present; min_count: the least number of copies a candidate needs;
   * count_frozen: an Absent copy was seen, so min_count is the exact count.
   */
  datatype LetterData = LetterData(
    knownPositions: set<nat>,
    impossiblePositions: set<nat>,
    minCount: nat,
    countFrozen: bool)

  /** `LetterData()`: the record before any hint. */
  const Default := LetterData({}, {}, 0, false)

  /** The table has a record for every lower-case letter and for nothing else. */
  predicate CoversAlphabet(letters: map<char, LetterData>) {
    forall c {:trigger c in letters} :: c in letters <==> IsLetter(c)
  }

  /** A fresh table: the default record for each of the 26 letters. */
  function FreshTable(): (letters: map<char, LetterData>)
    ensures CoversAlphabet(letters)
    ensures forall c :: c in letters ==> letters[c] == Default
  {
    map c | 'a' <= c <= 'z' && IsLetter(c) :: Default
  }

  /** Positions below `n` where the guess has `c` and the hint is `kind`. */
  function Positions(guess: string, hints: seq<Hint>, c: char, kind: Hint, n: nat): set<nat>
    requires n <= |guess| && n <= |hints|
  {
    if n == 0 then {}
    else if guess[n - 1] == c && hints[n - 1] == kind then Positions(guess, hints, c, kind, n - 1) + {n - 1}
    else Positions(guess, hints, c, kind, n - 1)
  }

  lemma {:induction false} PositionsMembers(guess: string, hints: seq<Hint>, c: char, kind: Hint, n: nat)
    requires n <= |guess| && n <= |hints|
    ensures forall j: nat :: j in Positions(guess, hints, c, kind, n) <==> (j < n && guess[j] == c && hints[j] == kind)
  {
    if n > 0 {
      PositionsMembers(guess, hints, c, kind, n - 1);
    }
  }

  lemma {:induction false} PositionsSize(guess: string, hints: seq<Hint>, c: char, kind: Hint, n: nat)
    requires n <= |guess| && n <= |hints|
    ensures |Positions(guess, hints, c, kind, n)| == Tally(guess, hints, c, kind, n)
  {
    if n > 0 {
      var before := Positions(guess, hints, c, kind, n - 1);
      PositionsSize(guess, hints, c, kind, n - 1);
      if guess[n - 1] == c && hints[n - 1] == kind {
        PositionsMembers(guess, hints, c, kind, n - 1);
        AddFresh(before, n - 1);
      }
    }
  }

  /** Adding a new element grows a set by one. */
  lemma AddFresh(s: set<nat>, x: nat)
    requires x !in s
    ensures |s + {x}| == |s| + 1
  {
    assert s * {x} == {};
  }

  /**
   * One iteration of the loop of build_letters_data, seen from letter `c`: if
   * the guess has `c` at position i, the hint there adds i to the known
   * (Correct) or impossible (Present) positions or freezes the count (Absent),
   * and then min_count is reset to the known positions plus the yellows of `c`
   * seen so far in this round. Other letters are untouched.
   */
  function Step(rec: LetterData, c: char, guess: string, hints: seq<Hint>, i: nat): LetterData
    requires i < |guess| && i < |hints|
  {
    if guess[i] != c then rec
    else
      var marked :=
        match hints[i]
        case Correct => rec.(knownPositions := rec.knownPositions + {i})
        case Present => rec.(impossiblePositions := rec.impossiblePositions + {i})
        case Absent => rec.(countFrozen := true);
      marked.(minCount := |marked.knownPositions| + Tally(guess, hints, c, Present, i + 1))
  }

  /** The record of letter `c` after the first `n` iterations. */
  function Replay(rec: LetterData, c: char, guess: string, hints: seq<Hint>, n: nat): LetterData
    requires n <= |guess| && n <= |hints|
  {
    if n == 0 then rec else Step(Replay(rec, c, guess, hints, n - 1), c, guess, hints, n - 1)
  }

  /** The whole table after one round. */
  function Folded(letters: map<char, LetterData>, guess: string, hints: seq<Hint>): (r: map<char, LetterData>)
    requires |guess| == WordLength && |hints| == WordLength
    ensures forall c :: c in r <==> c in letters
  {
    map c | c in letters :: Replay(letters[c], c, guess, hints, |guess|)
  }

  /** The known positions gain exactly the positions where `c` is Correct. */
  lemma {:induction false} ReplayKnown(rec: LetterData, c: char, guess: string, hints: seq<Hint>, n: nat)
    requires n <= |guess| && n <= |hints|
    ensures Replay(rec, c, guess, hints, n).knownPositions == rec.knownPositions + Positions(guess, hints, c, Correct, n)
  {
    if n > 0 {
      ReplayKnown(rec, c, guess, hints, n - 1);
    }
  }

  /** The impossible positions gain exactly the positions where `c` is Present. */
  lemma {:induction false} ReplayImpossible(rec: LetterData, c: char, guess: string, hints: seq<Hint>, n: nat)
    requires n <= |guess| && n <= |hints|
    ensures Replay(rec, c, guess, hints, n).impossiblePositions
         == rec.impossiblePositions + Positions(guess, hints, c, Present, n)
  {
    if n > 0 {
      ReplayImpossible(rec, c, guess, hints, n - 1);
    }
  }

  /** The count is frozen afterwards exactly when it was before or a copy of `c` is Absent. */
  lemma {:induction false} ReplayFrozen(rec: LetterData, c: char, guess: string, hints: seq<Hint>, n: nat)
    requires n <= |guess| && n <= |hints|
    ensures Replay(rec, c, guess, hints, n).countFrozen <==> rec.countFrozen || Tally(guess, hints, c, Absent, n) > 0
  {
    if n > 0 {
      ReplayFrozen(rec, c, guess, hints, n - 1);
    }
  }

  /**
   * min_count afterwards: unchanged if `c` does not occur; otherwise ALL known
   * positions of `c` (earlier rounds included) plus its Present copies of this
   * round only.
   */
  lemma {:induction false} ReplayMinCount(rec: LetterData, c: char, guess: string, hints: seq<Hint>, n: nat)
    requires n <= |guess| && n <= |hints|
    ensures Replay(rec, c, guess, hints, n).minCount
         == if CountBelow(guess, c, n) > 0
            then |rec.knownPositions + Positions(guess, hints, c, Correct, n)| + Tally(guess, hints, c, Present, n)
            else rec.minCount
  {
    if n > 0 {
      ReplayMinCount(rec, c, guess, hints, n - 1);
      if guess[n - 1] == c {
        ReplayKnown(rec, c, guess, hints, n);
      } else {
        assert Tally(guess, hints, c, Present, n) == Tally(guess, hints, c, Present, n - 1);
        assert Positions(guess, hints, c, Correct, n) == Positions(guess, hints, c, Correct, n - 1);
      }
    }
  }

  /** `yellows.get(letter, 0)` */
  function Get(yellows: map<char, nat>, c: char): nat {
    if c in yellows then yellows[c] else 0
  }

  class LetterTable {
    var letters: map<char, LetterData>

    /** `{letter: LetterData() for letter in string.ascii_lowercase}` */
    constructor ()
      ensures letters == FreshTable()
    {
      letters := FreshTable();
    }

    /**
     * build_letters_data: for each position, a Correct hint adds the position
     * to the letter's known positions, a Present hint adds it to its impossible
     * positions and counts a yellow, an Absent hint freezes the count; then the
     * letter's min_count is reset to its known positions plus its yellows so far.
     */
    method BuildLettersData(guess: string, hints: seq<Hint>)
      requires |guess| == WordLength && |hints| == WordLength
      requires forall i :: 0 <= i < |guess| ==> guess[i] in letters
      modifies this
      ensures letters == Folded(old(letters), guess, hints)
    {
      var yellows: map<char, nat> := map[];

      for i := 0 to |hints|
        invariant forall c :: c in letters <==> c in old(letters)
        invariant forall c :: c in letters ==> letters[c] == Replay(old(letters)[c], c, guess, hints, i)
        invariant forall c :: Get(yellows, c) == Tally(guess, hints, c, Present, i)
      {
        ghost var before := letters;
        yellows := ApplyHint(guess, hints, i, yellows);
        forall c | c in letters
          ensures letters[c] == Replay(old(letters)[c], c, guess, hints, i + 1)
        {
          assert letters[c] == Step(before[c], c, guess, hints, i);
        }
      }
    }

    /**
     * One iteration of the loop of build_letters_data: the hint at position i
     * updates the record of the guess's letter there, and `yellows` counts one
     * more Present for it.
     */
    method ApplyHint(guess: string, hints: seq<Hint>, i: nat, yellows: map<char, nat>) returns (yellows': map<char, nat>)
      requires |guess| == WordLength && |hints| == WordLength && i < |hints| && guess[i] in letters
      requires forall c :: Get(yellows, c) == Tally(guess, hints, c, Present, i)
      modifies this
      ensures letters == old(letters)[guess[i] := Step(old(letters)[guess[i]], guess[i], guess, hints, i)]
      ensures forall c :: Get(yellows', c) == Tally(guess, hints, c, Present, i + 1)
    {
      var hint := hints[i];
      var letter := guess[i];
      var rec := letters[letter];
      yellows' := yellows;

      if hint == Correct {
        rec := rec.(knownPositions := rec.knownPositions + {i});
      } else if hint == Present {
        rec := rec.(impossiblePositions := rec.impossiblePositions + {i});
        yellows' := yellows'[letter := Get(yellows', letter) + 1];
      } else if hint == Absent {
        rec := rec.(countFrozen := true);
      }
      forall c
        ensures Get(yellows', c) == Tally(guess, hints, c, Present, i + 1)
      {
      }

      rec := rec.(minCount := |rec.knownPositions| + Get(yellows', letter));
      letters := letters[letter := rec];
    }
  }

  /** A letter that does not occur in a prefix keeps its record through it. */
  lemma {:induction false} ReplayAbsentLetter(rec: LetterData, c: char, guess: string, hints: seq<Hint>, n: nat)
    requires n <= |guess| && n <= |hints| && CountBelow(guess, c, n) == 0
    ensures Replay(rec, c, guess, hints, n) == rec
  {
    if n > 0 {
      ReplayAbsentLetter(rec, c, guess, hints, n - 1);
    }
  }

  /** A letter is tallied with a hint kind exactly when some position has both. */
  lemma {:induction false} TallyPositive(guess: string, hints: seq<Hint>, c: char, kind: Hint, n: nat)
    requires n <= |guess| && n <= |hints|
    ensures Tally(guess, hints, c, kind, n) > 0 <==> exists j :: 0 <= j < n && guess[j] == c && hints[j] == kind
  {
    if n > 0 {
      TallyPositive(guess, hints, c, kind, n - 1);
    }
  }

  /**
   * A round only tightens the constraints: a position is known (impossible)
   * afterwards exactly when it was before or the round marks the letter
   * Correct (Present) there; a frozen count stays frozen, and a letter absent
   * from the guess keeps its whole record.
   */
  lemma FoldOnlyGrows(letters: map<char, LetterData>, guess: string, hints: seq<Hint>, c: char)
    requires |guess| == WordLength && |hints| == WordLength && c in letters
    ensures forall j: nat :: j in Folded(letters, guess, hints)[c].knownPositions
              <==> j in letters[c].knownPositions || (j < WordLength && guess[j] == c && hints[j] == Correct)
    ensures forall j: nat :: j in Folded(letters, guess, hints)[c].impossiblePositions
              <==> j in letters[c].impossiblePositions || (j < WordLength && guess[j] == c && hints[j] == Present)
    ensures letters[c].countFrozen ==> Folded(letters, guess, hints)[c].countFrozen
    ensures c !in guess ==> Folded(letters, guess, hints)[c] == letters[c]
  {
    ReplayKnown(letters[c], c, guess, hints, |guess|);
    ReplayImpossible(letters[c], c, guess, hints, |guess|);
    ReplayFrozen(letters[c], c, guess, hints, |guess|);
    PositionsMembers(guess, hints, c, Correct, |guess|);
    PositionsMembers(guess, hints, c, Present, |guess|);
    OccurrencesPositive(guess, c);
    if c !in guess {
      ReplayAbsentLetter(letters[c], c, guess, hints, |guess|);
    }
  }

  /** A round never forgets a known or impossible position, nor unfreezes a count. */
  lemma FoldTightens(letters: map<char, LetterData>, guess: string, hints: seq<Hint>, c: char)
    requires |guess| == WordLength && |hints| == WordLength && c in letters
    ensures letters[c].knownPositions <= Folded(letters, guess, hints)[c].knownPositions
    ensures letters[c].impossiblePositions <= Folded(letters, guess, hints)[c].impossiblePositions
    ensures letters[c].countFrozen ==> Folded(letters, guess, hints)[c].countFrozen
  {
    ReplayKnown(letters[c], c, guess, hints, |guess|);
    ReplayImpossible(letters[c], c, guess, hints, |guess|);
    ReplayFrozen(letters[c], c, guess, hints, |guess|);
  }

  /**
   * After a round, a letter of the guess has min_count equal to its known
   * positions (of every round so far) plus its Present copies in this round
   * only, and its count is frozen exactly when it was or one of its copies
   * was Absent.
   */
  lemma FoldMinCount(letters: map<char, LetterData>, guess: string, hints: seq<Hint>, c: char)
    requires |guess| == WordLength && |hints| == WordLength && c in letters && c in guess
    ensures Folded(letters, guess, hints)[c].minCount
         == |Folded(letters, guess, hints)[c].knownPositions| + Tally(guess, hints, c, Present, |guess|)
    ensures Folded(letters, guess, hints)[c].countFrozen
        <==> letters[c].countFrozen || exists j :: 0 <= j < WordLength && guess[j] == c && hints[j] == Absent
  {
    OccurrencesPositive(guess, c);
    ReplayKnown(letters[c], c, guess, hints, |guess|);
    ReplayMinCount(letters[c], c, guess, hints, |guess|);
    ReplayFrozen(letters[c], c, guess, hints, |guess|);
    TallyPositive(guess, hints, c, Absent, |guess|);
  }

  /** From a fresh table, min_count is the number of Correct plus Present copies of the letter. */
  lemma FreshFoldMinCount(guess: string, hints: seq<Hint>, c: char)
    requires |guess| == WordLength && |hints| == WordLength && IsLetter(c) && c in guess
    ensures Folded(FreshTable(), guess, hints)[c].minCount
         == Tally(guess, hints, c, Correct, |guess|) + Tally(guess, hints, c, Present, |guess|)
  {
    FoldMinCount(FreshTable(), guess, hints, c);
    ReplayKnown(Default, c, guess, hints, |guess|);
    PositionsSize(guess, hints, c, Correct, |guess|);
  }
}
