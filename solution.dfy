/**
 * The solver: for a target word and a list of desired patterns, find the
 * dictionary words whose feedback against the target is exactly each pattern,
 * either the first such word or all of them in dictionary order.
 */
module Solver {
  import opened Scoring

  datatype Option<T> = None | Some(value: T)

  /** What one lookup returns: a single word or nothing, or every matching word. */
  datatype MatchResult = Single(word: Option<Word>) | Many(words: seq<Word>)

  /** Words that can be scored: the feedback table has five slots. */
  predicate Guessable(words: seq<Word>)
  {
    forall w :: w in words ==> |w| <= Length
  }

  /** Candidate w produces the pattern against the target. */
  predicate IsMatch(w: Word, target: Word, pattern: Pattern)
  {
    Feedback(w, target) == pattern
  }

  /** No word before position k produces the pattern. */
  predicate NoMatchBefore(words: seq<Word>, target: Word, pattern: Pattern, k: int)
    requires k <= |words|
  {
    forall j :: 0 <= j < k ==> !IsMatch(words[j], target, pattern)
  }

  /** a is an order-preserving subsequence of b. */
  predicate IsSubsequence<T(==)>(a: seq<T>, b: seq<T>)
    decreases |b|
  {
    if a == [] then true
    else if b == [] then false
    else if a[0] == b[0] then IsSubsequence(a[1..], b[1..])
    else IsSubsequence(a, b[1..])
  }

  // ---------------------------------------------------------------------------
  // Lower-casing of the target (ASCII letters)

  function LowerChar(c: char): char
  {
    if 'A' <= c <= 'Z' then (c as int - 'A' as int + 'a' as int) as char else c
  }

  predicate IsUpper(c: char) { 'A' <= c <= 'Z' }

  /**
   * The target as the solver stores it: same length, every upper-case letter
   * replaced by its lower-case letter, other characters kept.
   */
  function Lower(s: string): (r: string)
    ensures |r| == |s|
    ensures forall i :: 0 <= i < |r| ==> !IsUpper(r[i])
    ensures forall i :: 0 <= i < |r| && IsUpper(s[i]) ==>
      'a' <= r[i] <= 'z' && r[i] as int - 'a' as int == s[i] as int - 'A' as int
    ensures forall i :: 0 <= i < |r| && !IsUpper(s[i]) ==> r[i] == s[i]
  {
    seq(|s|, i requires 0 <= i < |s| => LowerChar(s[i]))
  }

  /** Lower-casing twice is lower-casing once. */
  lemma LowerIdempotent(s: string)
    ensures Lower(Lower(s)) == Lower(s)
  {
    var once := Lower(s);
    assert forall i :: 0 <= i < |once| ==> Lower(once)[i] == once[i];
  }

  // ---------------------------------------------------------------------------
  // The two lookups, as functions of the word list

  /** Every candidate whose feedback is the pattern, in word-list order (the list comprehension). */
  function Matches(words: seq<Word>, target: Word, pattern: Pattern): (r: seq<Word>)
    requires Guessable(words)
    ensures IsSubsequence(r, words)
    ensures forall w :: w in r ==> IsMatch(w, target, pattern)
    ensures forall w :: multiset(r)[w] == if IsMatch(w, target, pattern) then multiset(words)[w] else 0
  {
    if words == [] then []
    else
      var rest := Matches(words[1..], target, pattern);
      assert words == [words[0]] + words[1..];
      assert multiset(words) == multiset{words[0]} + multiset(words[1..]);
      if IsMatch(words[0], target, pattern) then
        assert multiset([words[0]] + rest) == multiset{words[0]} + multiset(rest);
        [words[0]] + rest
      else
        assert rest != [] ==> rest[0] in rest;
        rest
  }

  /** The first candidate whose feedback is the pattern (the early-return loop). */
  function FirstMatch(words: seq<Word>, target: Word, pattern: Pattern): (r: Option<Word>)
    requires Guessable(words)
    ensures r.None? <==> NoMatchBefore(words, target, pattern, |words|)
    ensures r.Some? ==>
      exists k :: 0 <= k < |words| && words[k] == r.value &&
        IsMatch(words[k], target, pattern) && NoMatchBefore(words, target, pattern, k)
  {
    if words == [] then None
    else if IsMatch(words[0], target, pattern) then
      assert NoMatchBefore(words, target, pattern, 0);
      Some(words[0])
    else
      var rest := FirstMatch(words[1..], target, pattern);
      if rest.Some? then
        var k :| 0 <= k < |words| - 1 && words[1..][k] == rest.value &&
          IsMatch(words[1..][k], target, pattern) && NoMatchBefore(words[1..], target, pattern, k);
        assert words[k + 1] == rest.value && NoMatchBefore(words, target, pattern, k + 1);
        rest
      else
        rest
  }

  /** A match at k with none before it is the first match. */
  lemma FirstMatchAt(words: seq<Word>, target: Word, pattern: Pattern, k: int)
    requires Guessable(words) && 0 <= k < |words|
    requires NoMatchBefore(words, target, pattern, k) && IsMatch(words[k], target, pattern)
    ensures FirstMatch(words, target, pattern) == Some(words[k])
  {
    var r := FirstMatch(words, target, pattern);
    assert !NoMatchBefore(words, target, pattern, |words|);
  }

  /** The single-word lookup gives the head of the all-words lookup, or nothing when that is empty. */
  lemma {:induction false} FirstMatchIsHeadOfMatches(words: seq<Word>, target: Word, pattern: Pattern)
    requires Guessable(words)
    ensures FirstMatch(words, target, pattern) ==
      (if Matches(words, target, pattern) == [] then None else Some(Matches(words, target, pattern)[0]))
  {
    if words != [] && !IsMatch(words[0], target, pattern) {
      FirstMatchIsHeadOfMatches(words[1..], target, pattern);
    }
  }

  /** Every word of the list is found when the pattern it produces is asked for. */
  lemma OwnPatternFindsWord(words: seq<Word>, target: Word, w: Word)
    requires Guessable(words) && w in words
    ensures w in Matches(words, target, Feedback(w, target))
    ensures FirstMatch(words, target, Feedback(w, target)).Some?
  {
    assert multiset(words)[w] > 0;
    assert multiset(Matches(words, target, Feedback(w, target)))[w] > 0;
    var k :| 0 <= k < |words| && words[k] == w;
  }

  /** The result of one lookup, in the mode the flag selects. */
  function Lookup(words: seq<Word>, target: Word, pattern: Pattern, findAll: bool): MatchResult
    requires Guessable(words)
  {
    if findAll then Many(Matches(words, target, pattern)) else Single(FirstMatch(words, target, pattern))
  }

  // ---------------------------------------------------------------------------
  // The solver object

  class Solution {
    /** The target, lower-cased once at construction. */
    const word: Word
    /** The dictionary, loaded once and never changed. */
    const wordList: seq<Word>
    /** The pattern rows to solve. */
    var patterns: seq<Pattern>

    /** `grid` is optional: without one the solver starts with no patterns. */
    constructor (word: string, grid: Option<seq<Pattern>>, wordList: seq<Word>)
      ensures this.word == Lower(word) && this.wordList == wordList
      ensures patterns == (if grid.None? then [] else grid.value)
    {
      this.word := Lower(word);
      this.wordList := wordList;
      patterns := if grid.None? then [] else grid.value;
    }

    /** Replace the stored pattern rows. */
    method SetGrid(grid: seq<Pattern>)
      modifies this`patterns
      ensures patterns == grid
    {
      patterns := grid;
    }

    /**
     * Without `findAll`, the first word in list order whose feedback is the
     * pattern, or nothing; with it, every such word in list order.
     */
    method FindWord(pattern: Pattern, findAll: bool) returns (r: MatchResult)
      requires Guessable(wordList)
      ensures !findAll ==> r == Single(FirstMatch(wordList, word, pattern))
      ensures findAll ==> r == Many(Matches(wordList, word, pattern))
    {
      if !findAll {
        for k := 0 to |wordList|
          invariant NoMatchBefore(wordList, word, pattern, k)
        {
          var feedback := GetFeedback(wordList[k], word);
          if feedback == pattern {
            FirstMatchAt(wordList, word, pattern, k);
            return Single(Some(wordList[k]));
          }
        }
        return Single(None);
      }
      var words := Matches(wordList, word, pattern);
      return Many(words);
    }

    /** One lookup per stored pattern row, in row order. */
    method FindSolution(findAll: bool) returns (results: seq<MatchResult>)
      requires Guessable(wordList)
      ensures |results| == |patterns|
      ensures forall i :: 0 <= i < |patterns| ==> results[i] == Lookup(wordList, word, patterns[i], findAll)
    {
      results := [];
      for i := 0 to |patterns|
        invariant |results| == i
        invariant forall j :: 0 <= j < i ==> results[j] == Lookup(wordList, word, patterns[j], findAll)
      {
        var r := FindWord(patterns[i], findAll);
        results := results + [r];
      }
    }
  }
}
