/**
 * The feedback `confronto` prints for a guess g against the target t, given
 * in closed form. '+' marks a position where the two words agree. Every other
 * position of g waits for pass 2, which scans the guess left to right and
 * matches each waiting letter against a target position that holds the same
 * letter and is not yet used ('|'), or finds none ('/').
 *
 * The counts below run over the first j positions.
 */
module Evaluation {
  import opened Words

  /** Positions before j where g and t agree. */
  function Agree(g: Word, t: Word, j: nat): nat
    requires j <= |g| == |t|
  {
    if j == 0 then 0 else Agree(g, t, j - 1) + (if g[j - 1] == t[j - 1] then 1 else 0)
  }

  /** Positions before j where g and t agree on the letter c. */
  function Hits(g: Word, t: Word, c: int, j: nat): nat
    requires j <= |g| == |t|
  {
    if j == 0 then 0
    else Hits(g, t, c, j - 1) + (if g[j - 1] == t[j - 1] && g[j - 1] as int == c then 1 else 0)
  }

  /** Positions before j where g has c and t does not: guess letters pass 2 must place. */
  function Pending(g: Word, t: Word, c: int, j: nat): nat
    requires j <= |g| == |t|
  {
    if j == 0 then 0
    else Pending(g, t, c, j - 1) + (if g[j - 1] != t[j - 1] && g[j - 1] as int == c then 1 else 0)
  }

  /** Positions before j where t has c and g does not: target letters pass 2 may use. */
  function Spare(g: Word, t: Word, c: int, j: nat): nat
    requires j <= |g| == |t|
  {
    if j == 0 then 0
    else Spare(g, t, c, j - 1) + (if g[j - 1] != t[j - 1] && t[j - 1] as int == c then 1 else 0)
  }

  /**
   * The mark of position j: a waiting letter finds a target position exactly
   * when fewer waiting copies of it come before j than the target has spare.
   */
  function Mark(g: Word, t: Word, j: nat): char
    requires j < |g| == |t|
  {
    if g[j] == t[j] then '+'
    else if Pending(g, t, g[j] as int, j) < Spare(g, t, g[j] as int, |g|) then '|'
    else '/'
  }

  function Feedback(g: Word, t: Word): (out: seq<char>)
    requires |g| == |t|
    ensures |out| == |g|
  {
    seq(|g|, j requires 0 <= j < |g| => Mark(g, t, j))
  }

  /** Positions before j that are marked '+' or '|' and hold the letter c in g. */
  function Found(out: seq<char>, g: Word, c: int, j: nat): nat
    requires j <= |out| == |g|
  {
    if j == 0 then 0
    else Found(out, g, c, j - 1) + (if out[j - 1] != '/' && g[j - 1] as int == c then 1 else 0)
  }

  /** The occurrences of c split into the agreeing ones and the others, in g and in t. */
  lemma {:induction false} CountSplit(g: Word, t: Word, c: int, j: nat)
    requires j <= |g| == |t|
    ensures Count(g[..j], c) == Hits(g, t, c, j) + Pending(g, t, c, j)
    ensures Count(t[..j], c) == Hits(g, t, c, j) + Spare(g, t, c, j)
  {
    if j > 0 {
      CountSplit(g, t, c, j - 1);
      assert g[..j][..j - 1] == g[..j - 1];
      assert t[..j][..j - 1] == t[..j - 1];
    }
  }

  lemma CountWhole(g: Word, t: Word, c: int)
    requires |g| == |t|
    ensures Count(g, c) == Hits(g, t, c, |g|) + Pending(g, t, c, |g|)
    ensures Count(t, c) == Hits(g, t, c, |g|) + Spare(g, t, c, |g|)
  {
    CountSplit(g, t, c, |g|);
    assert g[..|g|] == g && t[..|t|] == t;
  }

  lemma {:induction false} FoundPrefix(g: Word, t: Word, c: int, j: nat)
    requires j <= |g| == |t|
    ensures Found(Feedback(g, t), g, c, j) == Hits(g, t, c, j) + Min(Pending(g, t, c, j), Spare(g, t, c, |g|))
  {
    if j > 0 {
      FoundPrefix(g, t, c, j - 1);
    }
  }

  /**
   * For every letter, the positions of that letter marked '+' or '|' number
   * min(#c in g, #c in t).
   */
  lemma FeedbackCounts(g: Word, t: Word, c: int)
    requires |g| == |t|
    ensures Found(Feedback(g, t), g, c, |g|) == Min(Count(g, c), Count(t, c))
  {
    FoundPrefix(g, t, c, |g|);
    CountWhole(g, t, c);
  }

  /** A position is '+' exactly where the words agree; all others are '|' or '/'. */
  lemma FeedbackMarks(g: Word, t: Word, j: nat)
    requires j < |g| == |t|
    ensures Feedback(g, t)[j] == '+' <==> g[j] == t[j]
    ensures Feedback(g, t)[j] in {'+', '|', '/'}
  {
  }

  lemma {:induction false} PendingGrows(g: Word, t: Word, c: int, i: nat, j: nat)
    requires i <= j <= |g| == |t|
    ensures Pending(g, t, c, i) <= Pending(g, t, c, j)
    decreases j - i
  {
    if i < j {
      PendingGrows(g, t, c, i, j - 1);
    }
  }

  /**
   * Pass 2 works left to right: once a waiting letter is marked '/', every
   * later waiting copy of it is '/' too.
   */
  lemma LeftToRight(g: Word, t: Word, i: nat, j: nat)
    requires i < j < |g| == |t|
    requires g[i] == g[j] && g[j] != t[j] && Feedback(g, t)[i] == '/'
    ensures Feedback(g, t)[j] == '/'
  {
    PendingGrows(g, t, g[i] as int, i, j);
  }

  lemma {:induction false} AgreeCount(g: Word, t: Word, j: nat)
    requires j <= |g| == |t|
    ensures Agree(g, t, j) <= j
    ensures Agree(g, t, j) == j <==> g[..j] == t[..j]
  {
    if j > 0 {
      AgreeCount(g, t, j - 1);
      if g[..j] == t[..j] {
        assert g[..j - 1] == g[..j][..j - 1];
        assert t[..j - 1] == t[..j][..j - 1];
        assert g[j - 1] == g[..j][j - 1];
      }
      if Agree(g, t, j) == j {
        assert g[..j] == g[..j - 1] + [g[j - 1]];
        assert t[..j] == t[..j - 1] + [t[j - 1]];
      }
    }
  }

  /** `confronto` reports a win, all L positions agreeing, exactly when the guess is the target. */
  lemma AgreeAll(g: Word, t: Word)
    requires |g| == |t|
    ensures Agree(g, t, |g|) == |g| <==> g == t
  {
    AgreeCount(g, t, |g|);
    assert g[..|g|] == g && t[..|t|] == t;
  }
}
