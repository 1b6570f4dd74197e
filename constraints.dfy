/**
 * What a game has learnt about the secret word, as a value: the contents of
 * the global tables `here`, `not_here`, `min_times` and `exact_times`, the
 * test `rispetta_filtro` applies, and the change one guess makes.
 */
module Constraints {
  import opened Words
  import opened Evaluation
  import opened Trees

  /**
   * here[i]: the letter known at position i, '\0' when none;
   * excluded: the pairs (position, letter code) known wrong;
   * minTimes[c]: a lower bound on the occurrences of c;
   * exactTimes[c]: the number of occurrences of c, -1 while unknown.
   */
  datatype Knowledge = Knowledge(here: seq<char>, excluded: set<(int, int)>, minTimes: seq<int>, exactTimes: seq<int>)

  predicate Sized(k: Knowledge, n: nat) {
    |k.here| == n && |k.minTimes| == Sigma && |k.exactTimes| == Sigma
  }

  /** Every word of s has length n. */
  predicate OfLength(s: seq<Word>, n: nat) {
    forall x | x in s :: |x| == n
  }

  /** `rispetta_filtro(w)` returns 1. */
  predicate Satisfies(k: Knowledge, w: Word)
    requires Sized(k, |w|)
  {
    (forall i | 0 <= i < |w| :: (k.here[i] != '\0' ==> w[i] == k.here[i]) && (i, w[i] as int) !in k.excluded) &&
    (forall c | 0 <= c < Sigma :: k.minTimes[c] <= Count(w, c) && (k.exactTimes[c] >= 0 ==> k.exactTimes[c] == Count(w, c)))
  }

  /** The state of the tables at start-up and after `reset_filtro`: it accepts every word. */
  function Empty(n: nat): (k: Knowledge)
    ensures Sized(k, n)
    ensures forall w: Word | |w| == n :: Satisfies(k, w)
  {
    Knowledge(seq(n, _ => '\0'), {}, seq(Sigma, _ => 0), seq(Sigma, _ => -1))
  }

  /**
   * The tables after `confronto(g, t)`: agreeing positions fix their letter,
   * the others exclude the guessed letter there, each minimum rises to the
   * number of letters the guess placed, min(#c in g, #c in t), and a letter the
   * guess holds more often than the target gets its exact count, #c in t.
   */
  function Update(k: Knowledge, g: Word, t: Word): (k': Knowledge)
    requires Sized(k, |g|) && |t| == |g|
    ensures Sized(k', |g|)
  {
    Knowledge(
      seq(|g|, i requires 0 <= i < |g| => if g[i] == t[i] then g[i] as char else k.here[i]),
      k.excluded + (set i | 0 <= i < |g| && g[i] != t[i] :: (i, g[i] as int)),
      seq(Sigma, c requires 0 <= c < Sigma => Max(k.minTimes[c], Min(Count(g, c), Count(t, c)))),
      seq(Sigma, c requires 0 <= c < Sigma => if Count(g, c) > Count(t, c) then Count(t, c) else k.exactTimes[c]))
  }

  /**
   * What one guess records is true of the target: a fixed letter is the
   * target's, an excluded letter is not the target's there, a raised minimum
   * never exceeds the target's count and a changed exact count equals it.
   * Minima never decrease.
   */
  lemma UpdateFacts(k: Knowledge, g: Word, t: Word, i: int, c: int)
    requires Sized(k, |g|) && |t| == |g|
    ensures 0 <= i < |g| && Update(k, g, t).here[i] != k.here[i] ==> Update(k, g, t).here[i] == t[i]
    ensures (i, c) in Update(k, g, t).excluded - k.excluded ==> 0 <= i < |g| && c == g[i] as int && g[i] != t[i]
    ensures 0 <= c < Sigma ==> k.minTimes[c] <= Update(k, g, t).minTimes[c]
    ensures 0 <= c < Sigma ==> Update(k, g, t).minTimes[c] <= Max(k.minTimes[c], Count(t, c))
    ensures 0 <= c < Sigma && Update(k, g, t).exactTimes[c] != k.exactTimes[c] ==> Update(k, g, t).exactTimes[c] == Count(t, c)
  {
  }

  /** Knowledge consistent with the target stays consistent after a guess against it. */
  lemma UpdateKeepsTarget(k: Knowledge, g: Word, t: Word)
    requires Sized(k, |g|) && |t| == |g| && Satisfies(k, t)
    ensures Satisfies(Update(k, g, t), t)
  {
    var k' := Update(k, g, t);
    forall i | 0 <= i < |t| ensures (k'.here[i] != '\0' ==> t[i] == k'.here[i]) && (i, t[i] as int) !in k'.excluded {
      assert (i, t[i] as int) !in k.excluded;
    }
    forall c | 0 <= c < Sigma ensures k'.minTimes[c] <= Count(t, c) && (k'.exactTimes[c] >= 0 ==> k'.exactTimes[c] == Count(t, c)) {
      assert k.minTimes[c] <= Count(t, c);
    }
  }

  /** The knowledge after a sequence of guesses, all against the same target. */
  function Replay(k: Knowledge, guesses: seq<Word>, t: Word): (k': Knowledge)
    requires Sized(k, |t|) && forall i | 0 <= i < |guesses| :: |guesses[i]| == |t|
    ensures Sized(k', |t|)
    decreases |guesses|
  {
    if guesses == [] then k
    else Replay(Update(k, guesses[0], t), guesses[1..], t)
  }

  /** Starting from the reset tables, no sequence of guesses ever filters out the secret word. */
  lemma {:induction false} NeverExcludesTarget(guesses: seq<Word>, t: Word)
    requires forall i | 0 <= i < |guesses| :: |guesses[i]| == |t|
    ensures Satisfies(Replay(Empty(|t|), guesses, t), t)
  {
    ReplayKeepsTarget(Empty(|t|), guesses, t);
  }

  lemma {:induction false} ReplayKeepsTarget(k: Knowledge, guesses: seq<Word>, t: Word)
    requires Sized(k, |t|) && forall i | 0 <= i < |guesses| :: |guesses[i]| == |t|
    requires Satisfies(k, t)
    ensures Satisfies(Replay(k, guesses, t), t)
    decreases |guesses|
  {
    if guesses != [] {
      UpdateKeepsTarget(k, guesses[0], t);
      ReplayKeepsTarget(Update(k, guesses[0], t), guesses[1..], t);
    }
  }

  /**
   * While the knowledge is consistent with the target, a guess only narrows
   * it: a word that passes afterwards passed before.
   */
  lemma UpdateNarrows(k: Knowledge, g: Word, t: Word, w: Word)
    requires Sized(k, |g|) && |t| == |g| && |w| == |g| && Satisfies(k, t)
    requires Satisfies(Update(k, g, t), w)
    ensures Satisfies(k, w)
  {
    var k' := Update(k, g, t);
    forall i | 0 <= i < |w| ensures (k.here[i] != '\0' ==> w[i] == k.here[i]) && (i, w[i] as int) !in k.excluded {
      assert (k'.here[i] != '\0' ==> w[i] == k'.here[i]) && (i, w[i] as int) !in k'.excluded;
      assert k.here[i] != '\0' ==> t[i] == k.here[i];
    }
    forall c | 0 <= c < Sigma ensures k.minTimes[c] <= Count(w, c) && (k.exactTimes[c] >= 0 ==> k.exactTimes[c] == Count(w, c)) {
      assert k'.minTimes[c] <= Count(w, c) && (k'.exactTimes[c] >= 0 ==> k'.exactTimes[c] == Count(w, c));
      assert k.exactTimes[c] >= 0 ==> k.exactTimes[c] == Count(t, c);
    }
  }

  /** The words of s that pass the filter, in order: what `inOrder` appends to the list. */
  function Survivors(s: seq<Word>, k: Knowledge): (r: seq<Word>)
    requires Sized(k, |k.here|) && OfLength(s, |k.here|)
    ensures |r| <= |s|
    ensures forall x | x in r :: x in s
    ensures OfLength(r, |k.here|)
  {
    if s == [] then []
    else (if Satisfies(k, s[0]) then [s[0]] else []) + Survivors(s[1..], k)
  }

  lemma {:induction false} SurvivorsAppend(a: seq<Word>, b: seq<Word>, k: Knowledge)
    requires Sized(k, |k.here|) && OfLength(a, |k.here|)
    requires OfLength(b, |k.here|)
    ensures Survivors(a + b, k) == Survivors(a, k) + Survivors(b, k)
  {
    if a == [] {
      assert a + b == b;
    } else {
      assert (a + b)[0] == a[0] && (a + b)[1..] == a[1..] + b;
      SurvivorsAppend(a[1..], b, k);
    }
  }

  /** A word survives exactly when it is in s and passes the filter. */
  lemma {:induction false} SurvivorsMembers(s: seq<Word>, k: Knowledge, x: Word)
    requires Sized(k, |k.here|) && OfLength(s, |k.here|) && |x| == |k.here|
    ensures x in Survivors(s, k) <==> x in s && Satisfies(k, x)
  {
    if s != [] {
      SurvivorsMembers(s[1..], k, x);
      assert x in s <==> x == s[0] || x in s[1..];
    }
  }

  /** Filtering a sorted sequence leaves it sorted. */
  lemma {:induction false} SurvivorsSorted(s: seq<Word>, k: Knowledge)
    requires Sized(k, |k.here|) && OfLength(s, |k.here|)
    requires Sorted(s)
    ensures Sorted(Survivors(s, k))
  {
    if s != [] {
      SurvivorsSorted(s[1..], k);
      var r := Survivors(s[1..], k);
      forall x | x in r ensures Less(s[0], x) {
        var j :| 0 <= j < |s[1..]| && s[1..][j] == x;
        assert s[j + 1] == x;
      }
    }
  }

  /** When every word passes, filtering keeps them all. */
  lemma {:induction false} SurvivorsAll(s: seq<Word>, k: Knowledge)
    requires Sized(k, |k.here|) && OfLength(s, |k.here|)
    requires forall x | x in s :: Satisfies(k, x)
    ensures Survivors(s, k) == s
  {
    if s != [] {
      assert s[0] in s;
      SurvivorsAll(s[1..], k);
      assert s == [s[0]] + s[1..];
    }
  }

  lemma SurvivorsCons(x: Word, r: seq<Word>, k: Knowledge)
    requires Sized(k, |k.here|) && |x| == |k.here| && OfLength(r, |k.here|)
    ensures Survivors([x] + r, k) == (if Satisfies(k, x) then [x] else []) + Survivors(r, k)
  {
    assert ([x] + r)[0] == x && ([x] + r)[1..] == r;
  }

  /** Filtering twice with the same knowledge is filtering once. */
  lemma {:induction false} SurvivorsIdempotent(s: seq<Word>, k: Knowledge)
    requires Sized(k, |k.here|) && OfLength(s, |k.here|)
    ensures Survivors(Survivors(s, k), k) == Survivors(s, k)
  {
    if s != [] {
      SurvivorsIdempotent(s[1..], k);
      var r := Survivors(s[1..], k);
      if Satisfies(k, s[0]) {
        assert Survivors(s, k) == [s[0]] + r;
        SurvivorsCons(s[0], r, k);
      } else {
        assert Survivors(s, k) == [] + r == r;
      }
    }
  }

  /**
   * Under knowledge consistent with the target, filtering the survivors of
   * the old knowledge with the new one is filtering the original with the
   * new one: rebuilding from the candidates loses nothing.
   */
  lemma {:induction false} SurvivorsNarrow(s: seq<Word>, k: Knowledge, g: Word, t: Word)
    requires Sized(k, |g|) && |t| == |g| && Satisfies(k, t)
    requires OfLength(s, |g|)
    ensures Survivors(Survivors(s, k), Update(k, g, t)) == Survivors(s, Update(k, g, t))
  {
    if s != [] {
      SurvivorsNarrow(s[1..], k, g, t);
      var k' := Update(k, g, t);
      var r := Survivors(s[1..], k);
      if Satisfies(k, s[0]) {
        assert Survivors(s, k) == [s[0]] + r;
        SurvivorsCons(s[0], r, k');
      } else {
        assert Survivors(s, k) == [] + r == r;
        if Satisfies(k', s[0]) {
          UpdateNarrows(k, g, t, s[0]);
        }
      }
    }
  }
}
