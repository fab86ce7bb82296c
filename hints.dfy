/**
 * The hint engine, `generate_hints`: scoring a guess against a solution.
 * Python's `True`/`False`/`None` hint values are `Correct`/`Present`/`Absent`,
 * and the hint dictionary with keys 0..4 is a sequence of five hints.
 */
module Hints {
  import opened Words

  datatype Hint = Correct | Present | Absent

  /** `set(hints.values()) == {True}`: the guess was the solution. */
  predicate AllCorrect(hints: seq<Hint>) {
    forall i :: 0 <= i < |hints| ==> hints[i] == Correct
  }

  function Min(a: nat, b: nat): nat {
    if a <= b then a else b
  }

  // ---------------------------------------------------------------------------
  // Reference definition of the hints, independent of the two-pass algorithm.
  // ---------------------------------------------------------------------------

  /** The solution with every letter the guess matches in place replaced by '.'. */
  function Blanked(guess: string, solution: string): (b: string)
    requires |guess| == |solution|
    ensures |b| == |solution|
  {
    seq(|solution|, j requires 0 <= j < |solution| => if guess[j] == solution[j] then '.' else solution[j])
  }

  /** Solution letters `c` that the guess does not match in place. */
  function Unmatched(guess: string, solution: string, c: char): nat
    requires |guess| == |solution|
  {
    Occurrences(Blanked(guess, solution), c)
  }

  /** Positions below `n` where the guess has `c` and the solution does not. */
  function MisplacedBelow(guess: string, solution: string, c: char, n: nat): nat
    requires |guess| == |solution| && n <= |guess|
  {
    if n == 0 then 0
    else MisplacedBelow(guess, solution, c, n - 1)
         + (if guess[n - 1] == c && guess[n - 1] != solution[n - 1] then 1 else 0)
  }

  /** Positions below `n` where guess and solution both hold `c`. */
  function MatchedBelow(guess: string, solution: string, c: char, n: nat): nat
    requires |guess| == |solution| && n <= |guess|
  {
    if n == 0 then 0
    else MatchedBelow(guess, solution, c, n - 1)
         + (if guess[n - 1] == c && guess[n - 1] == solution[n - 1] then 1 else 0)
  }

  /**
   * The hint at position i: Correct on an in-place match; otherwise Present
   * while the misplaced copies of the letter seen so far, left to right, have
   * not used up the solution's unmatched copies of it; otherwise Absent.
   */
  function ExpectedHint(guess: string, solution: string, i: nat): Hint
    requires |guess| == |solution| && i < |guess|
  {
    if guess[i] == solution[i] then Correct
    else if MisplacedBelow(guess, solution, guess[i], i) < Unmatched(guess, solution, guess[i]) then Present
    else Absent
  }

  /** The reference hints: one per position of the guess. */
  function Expected(guess: string, solution: string): (hints: seq<Hint>)
    requires |guess| == |solution|
    ensures |hints| == |guess|
  {
    seq(|guess|, i requires 0 <= i < |guess| => ExpectedHint(guess, solution, i))
  }

  // ---------------------------------------------------------------------------
  // The algorithm as written.
  // ---------------------------------------------------------------------------

  /** `word.replace(letter, ".", 1)` when `letter in word`: the first copy becomes '.'. */
  function ReplaceFirst(s: string, c: char, d: char): (r: string)
    requires c in s
    ensures |r| == |s|
    ensures exists k :: 0 <= k < |s| && s[k] == c && c !in s[..k] && r == s[k := d]
  {
    if s[0] == c then [d] + s[1..]
    else
      var rest := ReplaceFirst(s[1..], c, d);
      var k :| 0 <= k < |s[1..]| && s[1..][k] == c && c !in s[1..][..k] && rest == s[1..][k := d];
      assert [s[0]] + rest == s[k + 1 := d];
      assert s[..k + 1] == [s[0]] + s[1..][..k];
      [s[0]] + rest
  }

  /**
   * generate_hints: pass 1 marks in-place matches Correct and blanks them out
   * of a copy of the solution; pass 2 marks each other letter still present in
   * the copy Present and blanks its first remaining copy; the rest stay Absent.
   */
  method GenerateHints(guess: string, solution: string) returns (hints: seq<Hint>)
    requires |guess| == WordLength && |solution| == WordLength
    requires '.' !in guess
    ensures hints == Expected(guess, solution)
    ensures |hints| == WordLength
    ensures forall i :: 0 <= i < |hints| ==> (hints[i] == Correct <==> guess[i] == solution[i])
    ensures guess == solution ==> AllCorrect(hints)
  {
    var word;
    hints, word := MarkCorrect(guess, solution);
    hints := MarkPresent(guess, solution, hints, word);
  }

  /**
   * Pass 1 of generate_hints, from hints all `None` and a copy of the
   * solution: the in-place matches become Correct and are blanked out.
   */
  method MarkCorrect(guess: string, solution: string) returns (hints: seq<Hint>, word: string)
    requires |guess| == WordLength && |solution| == WordLength
    ensures word == Blanked(guess, solution)
    ensures |hints| == WordLength
    ensures forall j :: 0 <= j < WordLength ==> hints[j] == (if guess[j] == solution[j] then Correct else Absent)
  {
    word := solution;
    hints := [Absent, Absent, Absent, Absent, Absent];

    for i := 0 to |guess|
      invariant |word| == |solution| && |hints| == WordLength
      invariant forall j :: 0 <= j < |word| ==>
                  word[j] == (if j < i && guess[j] == solution[j] then '.' else solution[j])
      invariant forall j :: 0 <= j < |hints| ==>
                  hints[j] == (if j < i && guess[j] == solution[j] then Correct else Absent)
    {
      var letter := guess[i];
      if letter in word && guess[i] == word[i] {
        hints := hints[i := Correct];
        word := word[..i] + "." + word[i + 1..];
      }
    }
  }

  /**
   * Pass 2 of generate_hints, from the hints and the blanked copy pass 1
   * leaves: every other guess letter still in the copy becomes Present and
   * blanks its first remaining copy. The result is the reference hints.
   */
  method MarkPresent(guess: string, solution: string, marked: seq<Hint>, blanked: string) returns (hints: seq<Hint>)
    requires |guess| == WordLength && |solution| == WordLength
    requires '.' !in guess
    requires blanked == Blanked(guess, solution)
    requires |marked| == WordLength
    requires forall j :: 0 <= j < WordLength ==> marked[j] == (if guess[j] == solution[j] then Correct else Absent)
    ensures hints == Expected(guess, solution)
  {
    var word := blanked;
    hints := marked;
    ghost var expected := Expected(guess, solution);

    for i := 0 to |guess|
      invariant |word| == |solution| && |hints| == WordLength
      invariant forall j :: 0 <= j < |word| ==> word[j] == '.' || word[j] == solution[j]
      invariant forall j :: 0 <= j < i ==> hints[j] == expected[j]
      invariant forall j :: i <= j < WordLength ==> hints[j] == marked[j]
      invariant forall c :: c != '.' ==>
                  Occurrences(word, c)
                  == Occurrences(blanked, c) - Min(Occurrences(blanked, c), MisplacedBelow(guess, solution, c, i))
    {
      var letter := guess[i];
      HintAt(guess, solution, blanked, word, i);
      if letter in word && guess[i] != word[i] {
        if hints[i] == Correct {
          continue;
        }
        hints := hints[i := Present];
        BlankOneCopy(word, letter);
        word := ReplaceFirst(word, letter, '.');
      }
    }
    assert hints == expected;
  }

  /**
   * The condition pass 2 tests at position i decides the reference hint
   * there: with the copy blanked as far as position i, the guess letter is
   * still in it exactly when the reference hint is Present.
   */
  lemma HintAt(guess: string, solution: string, blanked: string, word: string, i: nat)
    requires |guess| == WordLength && |solution| == WordLength && '.' !in guess && i < WordLength
    requires blanked == Blanked(guess, solution) && |word| == |solution|
    requires forall j :: 0 <= j < |word| ==> word[j] == '.' || word[j] == solution[j]
    requires Occurrences(word, guess[i])
             == Occurrences(blanked, guess[i]) - Min(Occurrences(blanked, guess[i]), MisplacedBelow(guess, solution, guess[i], i))
    ensures ExpectedHint(guess, solution, i)
            == if guess[i] == solution[i] then Correct
               else if guess[i] in word && guess[i] != word[i] then Present
               else Absent
  {
    OccurrencesPositive(word, guess[i]);
    assert guess[i] != '.';
  }

  /** Blanking the first copy of a letter lowers its count by one and keeps every other count. */
  lemma BlankOneCopy(word: string, letter: char)
    requires letter in word && letter != '.'
    ensures forall j :: 0 <= j < |word| ==>
              ReplaceFirst(word, letter, '.')[j] == word[j] || ReplaceFirst(word, letter, '.')[j] == '.'
    ensures forall c :: c != '.' ==>
              Occurrences(ReplaceFirst(word, letter, '.'), c) == Occurrences(word, c) - (if c == letter then 1 else 0)
  {
    var k :| 0 <= k < |word| && word[k] == letter && ReplaceFirst(word, letter, '.') == word[k := '.'];
    forall c | c != '.'
      ensures Occurrences(word[k := '.'], c) == Occurrences(word, c) - (if c == letter then 1 else 0)
    {
      OccurrencesUpdate(word, k, '.', c);
    }
  }

  // ---------------------------------------------------------------------------
  // Properties of the reference definition.
  // ---------------------------------------------------------------------------

  /** Number of positions below `n` where the guess has `c` and the hint is `kind`. */
  function Tally(guess: string, hints: seq<Hint>, c: char, kind: Hint, n: nat): nat
    requires n <= |guess| && n <= |hints|
  {
    if n == 0 then 0
    else Tally(guess, hints, c, kind, n - 1) + (if guess[n - 1] == c && hints[n - 1] == kind then 1 else 0)
  }

  /** Correct is given exactly at the positions where the guess matches the solution. */
  lemma CorrectExactlyAtMatches(guess: string, solution: string)
    requires |guess| == |solution|
    ensures forall i :: 0 <= i < |guess| ==> (Expected(guess, solution)[i] == Correct <==> guess[i] == solution[i])
    ensures guess == solution ==> AllCorrect(Expected(guess, solution))
  {
  }

  /** Every solution copy of `c` is either matched in place or left unmatched. */
  lemma {:induction false} MatchedPlusUnmatched(guess: string, solution: string, c: char, n: nat)
    requires |guess| == |solution| && n <= |guess| && c != '.'
    ensures CountBelow(solution, c, n) == MatchedBelow(guess, solution, c, n) + CountBelow(Blanked(guess, solution), c, n)
  {
    if n > 0 {
      MatchedPlusUnmatched(guess, solution, c, n - 1);
    }
  }

  /** Every guess copy of `c` is either matched in place or misplaced. */
  lemma {:induction false} MatchedPlusMisplaced(guess: string, solution: string, c: char, n: nat)
    requires |guess| == |solution| && n <= |guess|
    ensures CountBelow(guess, c, n) == MatchedBelow(guess, solution, c, n) + MisplacedBelow(guess, solution, c, n)
  {
    if n > 0 {
      MatchedPlusMisplaced(guess, solution, c, n - 1);
    }
  }

  /** Misplaced copies only accumulate as the prefix grows. */
  lemma {:induction false} MisplacedMonotone(guess: string, solution: string, c: char, m: nat, n: nat)
    requires |guess| == |solution| && m <= n <= |guess|
    ensures MisplacedBelow(guess, solution, c, m) <= MisplacedBelow(guess, solution, c, n)
  {
    if m < n {
      MisplacedMonotone(guess, solution, c, m, n - 1);
    }
  }

  /**
   * Below any n, the hints mark as Correct the in-place matches of `c`, and as
   * Present as many misplaced copies as the unmatched solution copies allow.
   */
  lemma {:induction false} TallyOfExpected(guess: string, solution: string, c: char, n: nat)
    requires |guess| == |solution| && n <= |guess|
    ensures Tally(guess, Expected(guess, solution), c, Correct, n) == MatchedBelow(guess, solution, c, n)
    ensures Tally(guess, Expected(guess, solution), c, Present, n)
         == Min(Unmatched(guess, solution, c), MisplacedBelow(guess, solution, c, n))
  {
    if n > 0 {
      TallyOfExpected(guess, solution, c, n - 1);
    }
  }

  /**
   * For every letter, the positions marked Correct or Present number at most
   * its copies in the solution and at most its copies in the guess.
   */
  lemma MarksBoundedByCounts(guess: string, solution: string, c: char)
    requires |guess| == |solution| && '.' !in guess
    ensures Tally(guess, Expected(guess, solution), c, Correct, |guess|)
          + Tally(guess, Expected(guess, solution), c, Present, |guess|) <= Occurrences(solution, c)
    ensures Tally(guess, Expected(guess, solution), c, Correct, |guess|)
          + Tally(guess, Expected(guess, solution), c, Present, |guess|) <= Occurrences(guess, c)
  {
    var h := Expected(guess, solution);
    TallyAtMostCount(guess, h, c, |guess|);
    if c == '.' {
      OccurrencesPositive(guess, c);
    } else {
      TallyOfExpected(guess, solution, c, |guess|);
      MatchedPlusUnmatched(guess, solution, c, |guess|);
    }
  }

  /** Marks of a letter never outnumber its copies in the guess. */
  lemma {:induction false} TallyAtMostCount(guess: string, hints: seq<Hint>, c: char, n: nat)
    requires n <= |guess| && n <= |hints|
    ensures Tally(guess, hints, c, Correct, n) + Tally(guess, hints, c, Present, n) <= CountBelow(guess, c, n)
  {
    if n > 0 {
      TallyAtMostCount(guess, hints, c, n - 1);
    }
  }

  /**
   * When the guess holds a copy of `c` marked Absent, the marks of `c` account
   * for every copy of `c` in the solution.
   */
  lemma AbsentMeansAllCounted(guess: string, solution: string, j: nat)
    requires |guess| == |solution| && j < |guess| && guess[j] != '.'
    requires Expected(guess, solution)[j] == Absent
    ensures Tally(guess, Expected(guess, solution), guess[j], Correct, |guess|)
          + Tally(guess, Expected(guess, solution), guess[j], Present, |guess|) == Occurrences(solution, guess[j])
  {
    var c := guess[j];
    TallyOfExpected(guess, solution, c, |guess|);
    MatchedPlusUnmatched(guess, solution, c, |guess|);
    MisplacedMonotone(guess, solution, c, j, |guess|);
  }

  /** A Present mark for `c` means the solution holds an unmatched copy of `c`. */
  lemma PresentMeansUnmatched(guess: string, solution: string, j: nat)
    requires |guess| == |solution| && j < |guess| && guess[j] != '.'
    requires Expected(guess, solution)[j] == Present
    ensures Unmatched(guess, solution, guess[j]) > 0
    ensures guess[j] in solution
  {
    var c := guess[j];
    MatchedPlusUnmatched(guess, solution, c, |guess|);
    OccurrencesPositive(solution, c);
  }

  // ---------------------------------------------------------------------------
  // The expectations of the test suite against the solution "aabbb".
  // ---------------------------------------------------------------------------

  /**
   * A guess with one copy of 'a' too many gets Absent for the extra copy; a
   * guess with every letter misplaced gets Present until the solution's copies
   * run out; a guess sharing one placed letter gets one Correct.
   */
  lemma SolutionAabbb()
    ensures Expected("aaabb", "aabbb") == [Correct, Correct, Absent, Correct, Correct]
    ensures Expected("bbaaa", "aabbb") == [Present, Present, Present, Present, Absent]
    ensures Expected("later", "aabbb") == [Absent, Correct, Absent, Absent, Absent]
  {
    var s := "aabbb";
    var g1, g2, g3 := "aaabb", "bbaaa", "later";
    assert Blanked(g1, s) == "..b..";
    assert CountBelow("..b..", 'a', 5) == 0;
    assert Blanked(g2, s) == s;
    assert CountBelow(s, 'a', 5) == 2 && CountBelow(s, 'b', 5) == 3;
    assert Blanked(g3, s) == "a.bbb";
    assert CountBelow("a.bbb", 'l', 5) == 0 && CountBelow("a.bbb", 't', 5) == 0;
    assert CountBelow("a.bbb", 'e', 5) == 0 && CountBelow("a.bbb", 'r', 5) == 0;
  }
}
