/**
 * Wordle feedback: the colour pattern a guess earns against a target.
 *
 * `Feedback` is a closed-form reference definition of the colouring;
 * `GetFeedback` is the two-pass algorithm of the source (exact matches first,
 * then left-to-right yellows drawn from a tally of the target's letters),
 * proved to compute it. The lemmas state what the colouring means.
 */
module Scoring {

  type Word = seq<char>
  type Pattern = seq<int>

  /** Colour codes. */
  const Gray := 0
  const Yellow := 1
  const Green := 2

  /** Every feedback pattern has this many entries. */
  const Length := 5

  function Min(a: int, b: int): int { if a < b then a else b }

  /** Position i is an exact match (the first pass only looks at positions both words have). */
  predicate IsGreen(guess: Word, target: Word, i: int)
  {
    0 <= i < |guess| && i < |target| && guess[i] == target[i]
  }

  /** Number of exact matches below n whose letter is c. */
  function GreensOf(guess: Word, target: Word, c: char, n: nat): nat
  {
    if n == 0 then 0
    else GreensOf(guess, target, c, n - 1) + (if IsGreen(guess, target, n - 1) && guess[n - 1] == c then 1 else 0)
  }

  /** Number of guess positions below n holding c that are not exact matches. */
  function NonGreensOf(guess: Word, target: Word, c: char, n: nat): nat
  {
    if n == 0 then 0
    else NonGreensOf(guess, target, c, n - 1)
         + (if n - 1 < |guess| && !IsGreen(guess, target, n - 1) && guess[n - 1] == c then 1 else 0)
  }

  /** Copies of c left in the target's tally once the exact matches have consumed theirs. */
  function Remaining(guess: Word, target: Word, c: char): int
  {
    multiset(target)[c] - GreensOf(guess, target, c, |guess|)
  }

  /** Copies of c left in the tally once the second pass has seen the positions below n. */
  function Left(guess: Word, target: Word, c: char, n: nat): int
  {
    if NonGreensOf(guess, target, c, n) < Remaining(guess, target, c)
    then Remaining(guess, target, c) - NonGreensOf(guess, target, c, n)
    else 0
  }

  /**
   * The colour of position i: green for an exact match; otherwise yellow when
   * fewer earlier non-green copies of the same letter precede it than the exact
   * matches left in the tally; gray otherwise, and gray past the end of the guess.
   */
  function Code(guess: Word, target: Word, i: nat): int
  {
    if i >= |guess| then Gray
    else if IsGreen(guess, target, i) then Green
    else if Left(guess, target, guess[i], i) > 0 then Yellow
    else Gray
  }

  /** Reference definition of the feedback pattern. */
  function Feedback(guess: Word, target: Word): (r: Pattern)
    ensures |r| == Length
    ensures forall i :: 0 <= i < Length ==> r[i] == Gray || r[i] == Yellow || r[i] == Green
    ensures forall i :: 0 <= i < Length ==> (r[i] == Green <==> IsGreen(guess, target, i))
  {
    seq(Length, i requires 0 <= i < Length => Code(guess, target, i))
  }

  /** Number of positions below n where the guess holds c and the pattern is not gray. */
  function Marked(guess: Word, p: Pattern, c: char, n: nat): nat
  {
    if n == 0 then 0
    else Marked(guess, p, c, n - 1)
         + (if n - 1 < |guess| && n - 1 < |p| && guess[n - 1] == c && p[n - 1] != Gray then 1 else 0)
  }

  // ---------------------------------------------------------------------------
  // The algorithm

  /**
   * The source's two passes. The tally of the target's letters is a multiset;
   * it never goes below zero, so its natural-number counts are faithful.
   */
  method GetFeedback(guess: Word, target: Word) returns (result: Pattern)
    requires |guess| <= Length
    ensures result == Feedback(guess, target)
  {
    var res := seq(Length, _ => Gray);
    var targetCounts := multiset(target);
    // First pass: exact matches turn green and take their letter out of the tally.
    for i := 0 to Min(|guess|, |target|)
      invariant |res| == Length
      invariant forall j {:trigger res[j]} :: 0 <= j < Length ==>
        res[j] == (if j < i && IsGreen(guess, target, j) then Green else Gray)
      invariant forall c {:trigger targetCounts[c]} :: targetCounts[c] + GreensOf(guess, target, c, i) == multiset(target)[c]
    {
      if guess[i] == target[i] {
        ExactMatchIsTallied(guess, target, i);
        res := res[i := Green];
        targetCounts := targetCounts[guess[i] := targetCounts[guess[i]] - 1];
      }
    }
    forall c ensures targetCounts[c] == Left(guess, target, c, 0) {
      GreensSettle(guess, target, c, |guess|);
      RemainingNonNegative(guess, target, c);
    }
    // Second pass: a position left gray turns yellow while the tally holds its letter.
    for i := 0 to |guess|
      invariant |res| == Length
      invariant forall j {:trigger res[j]} :: 0 <= j < Length ==>
        res[j] == (if j < i then Code(guess, target, j) else if IsGreen(guess, target, j) then Green else Gray)
      invariant forall c {:trigger targetCounts[c]} :: targetCounts[c] == Left(guess, target, c, i)
    {
      MisplacedStep(guess, target, i);
      if res[i] == Gray {
        if targetCounts[guess[i]] > 0 {
          res := res[i := Yellow];
          targetCounts := targetCounts[guess[i] := targetCounts[guess[i]] - 1];
        }
      }
    }
    result := res;
    assert forall j {:trigger result[j]} :: 0 <= j < Length ==> result[j] == Feedback(guess, target)[j];
  }

  // ---------------------------------------------------------------------------
  // Facts about the tally

  /** An exact match consumes a target letter, so before n there are no more green c's than c's in the target. */
  lemma {:induction false} GreensWithinTarget(guess: Word, target: Word, c: char, n: nat)
    requires n <= |target|
    ensures GreensOf(guess, target, c, n) <= multiset(target[..n])[c]
  {
    if n > 0 {
      GreensWithinTarget(guess, target, c, n - 1);
      assert target[..n] == target[..n - 1] + [target[n - 1]];
    }
  }

  /** A prefix holds no more copies of a letter than the whole word. */
  lemma PrefixCount(s: Word, n: nat, c: char)
    requires n <= |s|
    ensures multiset(s[..n])[c] <= multiset(s)[c]
  {
    assert s == s[..n] + s[n..];
  }

  /** At an exact match the tally still holds a copy of the letter. */
  lemma ExactMatchIsTallied(guess: Word, target: Word, i: nat)
    requires i < |guess| && i < |target| && guess[i] == target[i]
    ensures GreensOf(guess, target, guess[i], i) < multiset(target)[guess[i]]
  {
    GreensWithinTarget(guess, target, guess[i], i + 1);
    PrefixCount(target, i + 1, guess[i]);
  }

  /** One step of the second pass: the colour it gives position i and the tally it leaves. */
  lemma MisplacedStep(guess: Word, target: Word, i: nat)
    requires i < |guess|
    ensures forall d :: d != guess[i] ==> Left(guess, target, d, i + 1) == Left(guess, target, d, i)
    ensures IsGreen(guess, target, i) ==>
      Code(guess, target, i) == Green && Left(guess, target, guess[i], i + 1) == Left(guess, target, guess[i], i)
    ensures !IsGreen(guess, target, i) && Left(guess, target, guess[i], i) > 0 ==>
      Code(guess, target, i) == Yellow && Left(guess, target, guess[i], i + 1) == Left(guess, target, guess[i], i) - 1
    ensures !IsGreen(guess, target, i) && Left(guess, target, guess[i], i) <= 0 ==>
      Code(guess, target, i) == Gray && Left(guess, target, guess[i], i + 1) == Left(guess, target, guess[i], i)
  {
  }

  /** No exact match lies beyond the shorter word. */
  lemma {:induction false} GreensSettle(guess: Word, target: Word, c: char, n: nat)
    requires Min(|guess|, |target|) <= n
    ensures GreensOf(guess, target, c, n) == GreensOf(guess, target, c, Min(|guess|, |target|))
  {
    if n > Min(|guess|, |target|) {
      GreensSettle(guess, target, c, n - 1);
    }
  }

  /** The tally never goes negative. */
  lemma RemainingNonNegative(guess: Word, target: Word, c: char)
    ensures 0 <= Remaining(guess, target, c) <= multiset(target)[c]
  {
    var m := Min(|guess|, |target|);
    GreensSettle(guess, target, c, |guess|);
    GreensWithinTarget(guess, target, c, m);
    PrefixCount(target, m, c);
  }

  /** Every copy of c in the guess is either an exact match or not. */
  lemma {:induction false} GreensSplit(guess: Word, target: Word, c: char, n: nat)
    requires n <= |guess|
    ensures GreensOf(guess, target, c, n) + NonGreensOf(guess, target, c, n) == multiset(guess[..n])[c]
  {
    if n > 0 {
      GreensSplit(guess, target, c, n - 1);
      assert guess[..n] == guess[..n - 1] + [guess[n - 1]];
    }
  }

  /** The non-green count only grows. */
  lemma {:induction false} NonGreensMonotone(guess: Word, target: Word, c: char, m: nat, n: nat)
    requires m <= n
    ensures NonGreensOf(guess, target, c, m) <= NonGreensOf(guess, target, c, n)
  {
    if m < n {
      NonGreensMonotone(guess, target, c, m, n - 1);
    }
  }

  /** Below n, the marked copies of c are the green ones plus as many yellows as the tally allowed. */
  lemma {:induction false} MarkedPrefix(guess: Word, target: Word, c: char, n: nat)
    requires |guess| <= Length && n <= |guess|
    requires Remaining(guess, target, c) >= 0
    ensures Marked(guess, Feedback(guess, target), c, n) ==
            GreensOf(guess, target, c, n) + Min(NonGreensOf(guess, target, c, n), Remaining(guess, target, c))
  {
    if n > 0 {
      MarkedPrefix(guess, target, c, n - 1);
      assert Feedback(guess, target)[n - 1] == Code(guess, target, n - 1);
    }
  }

  // ---------------------------------------------------------------------------
  // What the colouring means

  /** A word guessed against itself is all green. */
  lemma FeedbackSelf(w: Word)
    requires |w| == Length
    ensures Feedback(w, w) == [Green, Green, Green, Green, Green]
  {
  }

  /**
   * Each letter is marked (green or yellow) exactly as often as it occurs in
   * both words: the minimum of its counts in the guess and in the target. In
   * particular it is never marked more often than the target holds it.
   */
  lemma MarksMatchCommonCount(guess: Word, target: Word, c: char)
    requires |guess| <= Length
    ensures Marked(guess, Feedback(guess, target), c, |guess|) == Min(multiset(guess)[c], multiset(target)[c])
    ensures Marked(guess, Feedback(guess, target), c, |guess|) <= multiset(target)[c]
  {
    RemainingNonNegative(guess, target, c);
    MarkedPrefix(guess, target, c, |guess|);
    GreensSplit(guess, target, c, |guess|);
    assert guess[..|guess|] == guess;
  }

  /** A yellow position is not an exact match, and its letter occurs in the target. */
  lemma YellowMeansElsewhere(guess: Word, target: Word, i: int)
    requires 0 <= i < Length
    requires Feedback(guess, target)[i] == Yellow
    ensures i < |guess| && !IsGreen(guess, target, i) && guess[i] in target
  {
    assert Feedback(guess, target)[i] == Code(guess, target, i);
    RemainingNonNegative(guess, target, guess[i]);
  }

  /**
   * Left-to-right priority: once a non-green copy of a letter is gray, every
   * later non-green copy of that letter is gray too.
   */
  lemma GrayPriority(guess: Word, target: Word, i: int, j: int)
    requires 0 <= i < j < |guess| <= Length
    requires guess[i] == guess[j] && !IsGreen(guess, target, i) && !IsGreen(guess, target, j)
    requires Feedback(guess, target)[i] == Gray
    ensures Feedback(guess, target)[j] == Gray
  {
    assert Feedback(guess, target)[i] == Code(guess, target, i);
    assert Feedback(guess, target)[j] == Code(guess, target, j);
    NonGreensMonotone(guess, target, guess[i], i + 1, j);
  }

  /** Feedback is not symmetric: swapping guess and target can change the colours. */
  lemma FeedbackNotSymmetric()
    ensures Feedback("speed", "abide") != Feedback("abide", "speed")
  {
    SpeedAgainstAbide();
    AbideAgainstSpeed();
  }

  /** "speed" against "abide": the first e is misplaced, the second finds no copy left. */
  lemma SpeedAgainstAbide()
    ensures Feedback("speed", "abide")[2] == Yellow
    ensures Feedback("speed", "abide")[3] == Gray
  {
    var g, t := "speed", "abide";
    NoExactMatch(g, t, 'e', 5);
    assert multiset(t)['e'] == 1;
    assert NonGreensOf(g, t, 'e', 2) == 0;
    assert NonGreensOf(g, t, 'e', 3) == 1;
    assert Feedback(g, t)[2] == Code(g, t, 2);
    assert Feedback(g, t)[3] == Code(g, t, 3);
  }

  /** "abide" against "speed": only the last two letters occur in the target. */
  lemma AbideAgainstSpeed()
    ensures Feedback("abide", "speed")[2] == Gray
  {
    var g, t := "abide", "speed";
    assert multiset(t)['i'] == 0;
    assert Feedback(g, t)[2] == Code(g, t, 2);
  }

  /** Without exact matches below n, no copy of any letter is taken by the first pass. */
  lemma {:induction false} NoExactMatch(guess: Word, target: Word, c: char, n: nat)
    requires forall i :: 0 <= i < n ==> !IsGreen(guess, target, i)
    ensures GreensOf(guess, target, c, n) == 0
  {
    if n > 0 {
      NoExactMatch(guess, target, c, n - 1);
    }
  }
}
