/**
 * Words of the puzzle: fixed-length strings of lower-case letters, and the
 * letter counts (`str.count`, `in`) that the solver takes of them.
 */
module Words {

  /** WORD_LENGTH: every word of the word list has exactly this many letters. */
  const WordLength: nat := 5

  /** A letter of `string.ascii_lowercase`, the keys of the per-letter table. */
  predicate IsLetter(c: char) {
    'a' <= c <= 'z'
  }

  /** A word as the word list holds it: five lower-case letters. */
  predicate IsWord(w: string) {
    |w| == WordLength && forall i :: 0 <= i < |w| ==> IsLetter(w[i])
  }

  /** No element occurs twice. */
  predicate NoRepeats<T(==)>(s: seq<T>) {
    forall j, k :: 0 <= j < k < |s| ==> s[j] != s[k]
  }

  /** A new element in front keeps a list free of repeats. */
  lemma ConsNoRepeats<T>(h: T, t: seq<T>)
    requires h !in t && NoRepeats(t)
    ensures NoRepeats([h] + t)
  {
    var r := [h] + t;
    forall i, j | 0 <= i < j < |r|
      ensures r[i] != r[j]
    {
      assert r[j] == t[j - 1];
      if i > 0 {
        assert r[i] == t[i - 1];
      }
    }
  }

  /** Number of positions below `n` of `s` that hold `c`. */
  function CountBelow(s: string, c: char, n: nat): (k: nat)
    requires n <= |s|
    ensures k <= n
  {
    if n == 0 then 0 else CountBelow(s, c, n - 1) + (if s[n - 1] == c then 1 else 0)
  }

  /** `s.count(c)`: how often `c` occurs in `s`. */
  function Occurrences(s: string, c: char): (k: nat)
    ensures k <= |s|
  {
    CountBelow(s, c, |s|)
  }

  /** A letter occurs in a prefix exactly when the prefix counts it at least once. */
  lemma {:induction false} CountBelowPositive(s: string, c: char, n: nat)
    requires n <= |s|
    ensures CountBelow(s, c, n) > 0 <==> c in s[..n]
  {
    if n > 0 {
      CountBelowPositive(s, c, n - 1);
      assert s[..n] == s[..n - 1] + [s[n - 1]];
    }
  }

  /** `c in s` exactly when `s.count(c) > 0`. */
  lemma OccurrencesPositive(s: string, c: char)
    ensures Occurrences(s, c) > 0 <==> c in s
  {
    CountBelowPositive(s, c, |s|);
    assert s[..|s|] == s;
  }

  /** Overwriting one position changes the count of a letter by what left and what came. */
  lemma {:induction false} CountBelowUpdate(s: string, k: nat, x: char, c: char, n: nat)
    requires k < |s| && n <= |s|
    ensures CountBelow(s[k := x], c, n)
         == CountBelow(s, c, n) - (if k < n && s[k] == c then 1 else 0)
                                + (if k < n && x == c then 1 else 0)
  {
    if n > 0 {
      CountBelowUpdate(s, k, x, c, n - 1);
    }
  }

  /** The same fact for whole-string counts. */
  lemma OccurrencesUpdate(s: string, k: nat, x: char, c: char)
    requires k < |s|
    ensures Occurrences(s[k := x], c)
         == Occurrences(s, c) - (if s[k] == c then 1 else 0) + (if x == c then 1 else 0)
  {
    CountBelowUpdate(s, k, x, c, |s|);
  }

  /** The letters occurring in `w`, i.e. Python's `set(word)`. */
  function LetterSet(w: string): (letters: set<char>)
    ensures forall i :: 0 <= i < |w| ==> w[i] in letters
  {
    set c | c in w
  }

  /** A word has no more distinct letters than positions, and at least one if it is non-empty. */
  lemma {:induction false} LetterSetSize(w: string)
    ensures |LetterSet(w)| <= |w|
    ensures |w| > 0 ==> |LetterSet(w)| >= 1
  {
    if |w| > 0 {
      LetterSetSize(w[1..]);
      assert LetterSet(w) == {w[0]} + LetterSet(w[1..]) by {
        forall c ensures c in LetterSet(w) <==> c == w[0] || c in LetterSet(w[1..]) {
          assert c in w <==> c == w[0] || c in w[1..] by {
            assert w == [w[0]] + w[1..];
          }
        }
      }
      assert w[0] in LetterSet(w);
    }
  }
}
