/**
 * The global tables of `main.c` as arrays (`here`, `not_here`, `min_times`,
 * `exact_times`), the loops that read them (`rispetta_filtro`), reset them
 * (`reset_filtro`) and update them while marking a guess (`confronto`).
 */
module Filters {
  import opened Words
  import opened Evaluation
  import opened Constraints

  /** Target positions before k that are used up, hold c and are not agreeing positions. */
  function Used(consumed: seq<bool>, g: Word, t: Word, c: int, k: nat): nat
    requires k <= |consumed| == |g| == |t|
  {
    if k == 0 then 0
    else
      var bump := if consumed[k - 1] && g[k - 1] != t[k - 1] && t[k - 1] as int == c then 1 else 0;
      Used(consumed, g, t, c, k - 1) + bump
  }

  /** All spare copies of c are used up exactly when the count of used ones reaches the spare count. */
  lemma {:induction false} UsedSpare(consumed: seq<bool>, g: Word, t: Word, c: int, k: nat)
    requires k <= |consumed| == |g| == |t|
    ensures Used(consumed, g, t, c, k) <= Spare(g, t, c, k)
    ensures Used(consumed, g, t, c, k) == Spare(g, t, c, k) <==>
      forall q | 0 <= q < k && g[q] != t[q] && t[q] as int == c :: consumed[q]
  {
    if k > 0 {
      UsedSpare(consumed, g, t, c, k - 1);
    }
  }

  lemma {:induction false} UsedNone(consumed: seq<bool>, g: Word, t: Word, c: int, k: nat)
    requires k <= |consumed| == |g| == |t|
    requires forall q | 0 <= q < k :: consumed[q] ==> g[q] == t[q]
    ensures Used(consumed, g, t, c, k) == 0
  {
    if k > 0 {
      UsedNone(consumed, g, t, c, k - 1);
    }
  }

  /** Using up target position q adds one to the count of its letter and nothing to the others. */
  lemma {:induction false} UsedBump(consumed: seq<bool>, g: Word, t: Word, c: int, q: nat, k: nat)
    requires k <= |consumed| == |g| == |t| && q < |g|
    requires !consumed[q] && g[q] != t[q]
    ensures Used(consumed[q := true], g, t, c, k) ==
      Used(consumed, g, t, c, k) + (if q < k && t[q] as int == c then 1 else 0)
  {
    if k > 0 {
      UsedBump(consumed, g, t, c, q, k - 1);
    }
  }

  /**
   * The state of pass 2 of `confronto` before position j: agreeing positions
   * are used up; per letter, the used target positions number the waiting
   * copies placed so far, the placed copies add to the agreeing ones, and the
   * exact count is set once a copy found no place; the marks before j are final.
   */
  ghost predicate Placed(g: Word, t: Word, j: nat, consumed: seq<bool>, out: seq<char>, cur: seq<int>, ex: seq<int>, ex0: seq<int>)
    requires j <= |g| == |t|
  {
    |consumed| == |out| == |g| && |cur| == Sigma && |ex| == |ex0| == Sigma &&
    (forall k | 0 <= k < |g| && g[k] == t[k] :: consumed[k]) &&
    (forall c | 0 <= c < Sigma ::
      Used(consumed, g, t, c, |g|) == Min(Pending(g, t, c, j), Spare(g, t, c, |g|)) &&
      cur[c] == Hits(g, t, c, |g|) + Used(consumed, g, t, c, |g|) &&
      ex[c] == if Pending(g, t, c, j) > Spare(g, t, c, |g|) then Count(t, c) else ex0[c]) &&
    (forall k | 0 <= k < j :: out[k] == Mark(g, t, k)) &&
    (forall k | j <= k < |g| :: out[k] == if g[k] == t[k] then '+' else '\0')
  }

  lemma PlacedStart(g: Word, t: Word, consumed: seq<bool>, out: seq<char>, cur: seq<int>, ex: seq<int>)
    requires |g| == |t| == |consumed| == |out| && |cur| == Sigma && |ex| == Sigma
    requires forall k | 0 <= k < |g| :: consumed[k] == (g[k] == t[k])
    requires forall k | 0 <= k < |g| :: out[k] == if g[k] == t[k] then '+' else '\0'
    requires forall c | 0 <= c < Sigma :: cur[c] == Hits(g, t, c, |g|)
    ensures Placed(g, t, 0, consumed, out, cur, ex, ex)
  {
    forall c | 0 <= c < Sigma ensures Used(consumed, g, t, c, |g|) == 0 {
      UsedNone(consumed, g, t, c, |g|);
    }
  }

  /** An agreeing position keeps its '+' and changes nothing. */
  lemma PlacedSkip(g: Word, t: Word, j: nat, consumed: seq<bool>, out: seq<char>, cur: seq<int>, ex: seq<int>, ex0: seq<int>)
    requires j < |g| == |t| && g[j] == t[j]
    requires Placed(g, t, j, consumed, out, cur, ex, ex0)
    ensures Placed(g, t, j + 1, consumed, out, cur, ex, ex0)
  {
  }

  /** A waiting letter that finds an unused target position k is placed there. */
  lemma PlacedFound(g: Word, t: Word, j: nat, k: nat, consumed: seq<bool>, out: seq<char>, cur: seq<int>, ex: seq<int>, ex0: seq<int>)
    requires j < |g| == |t| && g[j] != t[j]
    requires Placed(g, t, j, consumed, out, cur, ex, ex0)
    requires k < |g| && !consumed[k] && g[j] == t[k]
    ensures Placed(g, t, j + 1, consumed[k := true], out[j := '|'], cur[g[j] as int := cur[g[j] as int] + 1], ex, ex0)
  {
    var c0 := g[j] as int;
    UsedSpare(consumed, g, t, c0, |g|);
    forall c | 0 <= c < Sigma
      ensures Used(consumed[k := true], g, t, c, |g|) == Used(consumed, g, t, c, |g|) + (if c == c0 then 1 else 0)
    {
      UsedBump(consumed, g, t, c, k, |g|);
    }
  }

  /** A waiting letter with no unused target position left is marked '/' and fixes its exact count. */
  lemma PlacedMissing(g: Word, t: Word, j: nat, consumed: seq<bool>, out: seq<char>, cur: seq<int>, ex: seq<int>, ex0: seq<int>)
    requires j < |g| == |t| && g[j] != t[j]
    requires Placed(g, t, j, consumed, out, cur, ex, ex0)
    requires forall q | 0 <= q < |g| :: consumed[q] || g[j] != t[q]
    ensures Placed(g, t, j + 1, consumed, out[j := '/'], cur, ex[g[j] as int := cur[g[j] as int]], ex0)
  {
    var c0 := g[j] as int;
    UsedSpare(consumed, g, t, c0, |g|);
    CountWhole(g, t, c0);
  }

  /** At the end of pass 2 the marks are the feedback and each tally is min(#c in g, #c in t). */
  lemma PlacedEnd(g: Word, t: Word, consumed: seq<bool>, out: seq<char>, cur: seq<int>, ex: seq<int>, ex0: seq<int>)
    requires |g| == |t|
    requires Placed(g, t, |g|, consumed, out, cur, ex, ex0)
    ensures out == Feedback(g, t)
    ensures forall c | 0 <= c < Sigma :: cur[c] == Min(Count(g, c), Count(t, c))
    ensures forall c | 0 <= c < Sigma :: ex[c] == if Count(g, c) > Count(t, c) then Count(t, c) else ex0[c]
  {
    forall c | 0 <= c < Sigma
      ensures cur[c] == Min(Count(g, c), Count(t, c)) && (Count(g, c) > Count(t, c) <==> Pending(g, t, c, |g|) > Spare(g, t, c, |g|))
    {
      CountWhole(g, t, c);
    }
  }

  class Filter {
    const len: nat
    const here: array<char>
    const notHere: array2<bool>
    const minTimes: array<int>
    const exactTimes: array<int>

    /**
     * The tables have the sizes the game needs, and the entries of letter
     * codes outside the scanned range keep their start-up values.
     */
    ghost predicate Valid()
      reads this, notHere, minTimes, exactTimes
    {
      here.Length == len && notHere.Length0 == len && notHere.Length1 == Sigma &&
      minTimes.Length == Sigma && exactTimes.Length == Sigma && minTimes != exactTimes &&
      forall c | 0 <= c < Sigma && !Scanned(c) ::
        minTimes[c] == 0 && exactTimes[c] == -1 && forall p | 0 <= p < len :: !notHere[p, c]
    }

    ghost function Excluded(): set<(int, int)>
      reads this, notHere
    {
      set p, c | 0 <= p < notHere.Length0 && 0 <= c < notHere.Length1 && notHere[p, c] :: (p, c)
    }

    ghost function View(): (k: Knowledge)
      reads this, here, notHere, minTimes, exactTimes
      requires Valid()
      ensures Sized(k, len)
    {
      Knowledge(here[..], Excluded(), minTimes[..], exactTimes[..])
    }

    /** The tables as the program starts: all zero, `exact_times` all -1. */
    constructor (len: nat)
      ensures Valid() && this.len == len && View() == Empty(len)
      ensures fresh(here) && fresh(notHere) && fresh(minTimes) && fresh(exactTimes)
    {
      this.len := len;
      here := new char[len](_ => '\0');
      notHere := new bool[len, Sigma]((_, _) => false);
      minTimes := new int[Sigma](_ => 0);
      exactTimes := new int[Sigma](_ => -1);
      new;
      assert here[..] == Empty(len).here;
      assert minTimes[..] == Empty(len).minTimes;
      assert exactTimes[..] == Empty(len).exactTimes;
      assert Excluded() == {};
    }

    /**
     * `rispetta_filtro`: position by position it counts the letters and
     * rejects a wrong fixed letter or an excluded one; then it checks the
     * count of every code from 45 on against its minimum and its exact count.
     */
    method Respects(w: Word) returns (ok: bool)
      requires Valid() && |w| == len
      ensures ok == Satisfies(View(), w)
    {
      var count := seq(Sigma, _ => 0);
      for i := 0 to len
        invariant |count| == Sigma
        invariant forall c | 0 <= c < Sigma :: count[c] == Count(w[..i], c)
        invariant forall p | 0 <= p < i :: (here[p] != '\0' ==> w[p] == here[p]) && !notHere[p, w[p] as int]
      {
        assert w[..i + 1][..i] == w[..i];
        count := count[w[i] as int := count[w[i] as int] + 1];
        if here[i] != '\0' && here[i] != w[i] {
          assert View().here[i] != '\0' && w[i] != View().here[i];
          return false;
        }
        if notHere[i, w[i] as int] {
          assert (i, w[i] as int) in View().excluded;
          return false;
        }
      }
      assert w[..len] == w;
      for c := 45 to Sigma
        invariant forall c' | 45 <= c' < c :: minTimes[c'] <= count[c'] && (exactTimes[c'] >= 0 ==> exactTimes[c'] == count[c'])
      {
        if minTimes[c] > count[c] {
          assert View().minTimes[c] > Count(w, c);
          return false;
        }
        if exactTimes[c] >= 0 && exactTimes[c] != count[c] {
          assert View().exactTimes[c] >= 0 && View().exactTimes[c] != Count(w, c);
          return false;
        }
      }
      forall i | 0 <= i < |w| ensures (i, w[i] as int) !in View().excluded {
        assert !notHere[i, w[i] as int];
      }
      return true;
    }

    /** `reset_filtro`: the tables go back to the start-up state. */
    method Reset()
      requires Valid()
      modifies here, notHere, minTimes, exactTimes
      ensures Valid() && View() == Empty(len)
    {
      for c := 45 to 123
        modifies minTimes
        invariant forall c' | 0 <= c' < Sigma :: minTimes[c'] == if 45 <= c' < c then 0 else old(minTimes[c'])
      {
        minTimes[c] := 0;
      }
      for c := 45 to 123
        modifies exactTimes
        invariant forall c' | 0 <= c' < Sigma :: exactTimes[c'] == if 45 <= c' < c then -1 else old(exactTimes[c'])
      {
        exactTimes[c] := -1;
      }
      for i := 0 to len
        modifies here
        invariant forall p | 0 <= p < i :: here[p] == '\0'
      {
        here[i] := '\0';
      }
      for c := 45 to 123
        modifies notHere
        invariant forall p, c' | 0 <= p < len && 0 <= c' < Sigma :: notHere[p, c'] == (!(45 <= c' < c) && old(notHere[p, c']))
      {
        for p := 0 to len
          modifies notHere
          invariant forall p', c' | 0 <= p' < len && 0 <= c' < Sigma ::
            notHere[p', c'] == (!(45 <= c' < c || (c' == c && p' < p)) && old(notHere[p', c']))
        {
          notHere[p, c] := false;
        }
      }
      forall p, c | 0 <= p < len && 0 <= c < Sigma ensures !notHere[p, c] {
        if !Scanned(c) {
          assert !old(notHere[p, c]);
        }
      }
      assert here[..] == Empty(len).here;
      assert minTimes[..] == Empty(len).minTimes;
      assert exactTimes[..] == Empty(len).exactTimes;
      assert Excluded() == {};
    }

    /**
     * Pass 1 of `confronto(g, t)`: agreeing positions are marked '+', checked
     * and used up, fix their letter and count towards the minimum; every other
     * position excludes the guessed letter there.
     */
    method MarkAgreeing(g: Word, t: Word) returns (checked: seq<bool>, consumed: seq<bool>, out: seq<char>, cur: seq<int>, count: int)
      requires Valid() && |g| == len && |t| == len
      modifies here, notHere
      ensures Valid()
      ensures |checked| == |consumed| == |out| == len && |cur| == Sigma
      ensures forall k | 0 <= k < len :: checked[k] == (g[k] == t[k]) && consumed[k] == checked[k]
      ensures forall k | 0 <= k < len :: out[k] == if g[k] == t[k] then '+' else '\0'
      ensures count == Agree(g, t, len)
      ensures forall c | 0 <= c < Sigma :: cur[c] == Hits(g, t, c, len)
      ensures here[..] == Update(old(View()), g, t).here
      ensures Excluded() == Update(old(View()), g, t).excluded
    {
      checked, consumed, out, cur, count := MarkPositions(g, t);
      ghost var k' := Update(old(View()), g, t);
      assert here[..] == k'.here;
      assert Excluded() == k'.excluded by {
        forall pr | pr in k'.excluded ensures pr in Excluded() {
        }
        forall pr | pr in Excluded() ensures pr in k'.excluded {
        }
      }
    }

    /** The loop of pass 1, position by position. */
    method MarkPositions(g: Word, t: Word) returns (checked: seq<bool>, consumed: seq<bool>, out: seq<char>, cur: seq<int>, count: int)
      requires Valid() && |g| == len && |t| == len
      modifies here, notHere
      ensures Valid()
      ensures |checked| == |consumed| == |out| == len && |cur| == Sigma
      ensures forall k | 0 <= k < len :: checked[k] == (g[k] == t[k]) && consumed[k] == checked[k]
      ensures forall k | 0 <= k < len :: out[k] == if g[k] == t[k] then '+' else '\0'
      ensures count == Agree(g, t, len)
      ensures forall c | 0 <= c < Sigma :: cur[c] == Hits(g, t, c, len)
      ensures forall p | 0 <= p < len :: here[p] == if g[p] == t[p] then g[p] as char else old(here[p])
      ensures forall p, c | 0 <= p < len && 0 <= c < Sigma ::
        notHere[p, c] == (old(notHere[p, c]) || (g[p] != t[p] && c == g[p] as int))
    {
      checked := seq(len, _ => false);
      consumed := seq(len, _ => false);
      out := seq(len, _ => '\0');
      cur := seq(Sigma, _ => 0);
      count := 0;
      for i := 0 to len
        invariant |checked| == |consumed| == |out| == len && |cur| == Sigma
        invariant forall k | 0 <= k < len :: checked[k] == (k < i && g[k] == t[k]) && consumed[k] == checked[k]
        invariant forall k | 0 <= k < len :: out[k] == if k < i && g[k] == t[k] then '+' else '\0'
        invariant count == Agree(g, t, i)
        invariant forall c | 0 <= c < Sigma :: cur[c] == Hits(g, t, c, i)
        invariant forall p | 0 <= p < len :: here[p] == if p < i && g[p] == t[p] then g[p] as char else old(here[p])
        invariant forall p, c | 0 <= p < len && 0 <= c < Sigma ::
          notHere[p, c] == (old(notHere[p, c]) || (p < i && g[p] != t[p] && c == g[p] as int))
      {
        if g[i] == t[i] {
          out := out[i := '+'];
          checked := checked[i := true];
          consumed := consumed[i := true];
          count := count + 1;
          here[i] := g[i];
          cur := cur[g[i] as int := cur[g[i] as int] + 1];
        } else {
          notHere[i, g[i] as int] := true;
        }
      }
    }

    /**
     * Pass 2 of `confronto(g, t)`: each position that does not agree takes the
     * first unused target position holding its letter and is marked '|', or is
     * marked '/' when there is none, and then its letter's exact count is the
     * number of its copies placed so far.
     */
    method MarkOthers(g: Word, t: Word, checked: seq<bool>, consumed0: seq<bool>, out0: seq<char>, cur0: seq<int>)
      returns (out: seq<char>, cur: seq<int>)
      requires Valid() && |g| == len && |t| == len
      requires |checked| == |consumed0| == |out0| == len && |cur0| == Sigma
      requires forall k | 0 <= k < len :: checked[k] == (g[k] == t[k]) && consumed0[k] == checked[k]
      requires forall k | 0 <= k < len :: out0[k] == if g[k] == t[k] then '+' else '\0'
      requires forall c | 0 <= c < Sigma :: cur0[c] == Hits(g, t, c, len)
      modifies exactTimes
      ensures Valid()
      ensures out == Feedback(g, t)
      ensures |cur| == Sigma && forall c | 0 <= c < Sigma :: cur[c] == Min(Count(g, c), Count(t, c))
      ensures forall c | 0 <= c < Sigma ::
        exactTimes[c] == if Count(g, c) > Count(t, c) then Count(t, c) else old(exactTimes[c])
    {
      var consumed := consumed0;
      out := out0;
      cur := cur0;
      PlacedStart(g, t, consumed, out, cur, exactTimes[..]);
      for j := 0 to len
        invariant Valid()
        invariant Placed(g, t, j, consumed, out, cur, exactTimes[..], old(exactTimes[..]))
      {
        if checked[j] {
          PlacedSkip(g, t, j, consumed, out, cur, exactTimes[..], old(exactTimes[..]));
          continue;
        }
        ghost var ex := exactTimes[..];
        var k := 0;
        while k < len && (consumed[k] || g[j] != t[k])
          invariant 0 <= k <= len
          invariant forall q | 0 <= q < k :: consumed[q] || g[j] != t[q]
        {
          k := k + 1;
        }
        if k < len {
          PlacedFound(g, t, j, k, consumed, out, cur, ex, old(exactTimes[..]));
          out := out[j := '|'];
          consumed := consumed[k := true];
          cur := cur[g[j] as int := cur[g[j] as int] + 1];
        }
        if out[j] == '\0' {
          PlacedMissing(g, t, j, consumed, out, cur, ex, old(exactTimes[..]));
          out := out[j := '/'];
          exactTimes[g[j] as int] := cur[g[j] as int];
          assert exactTimes[..] == ex[g[j] as int := cur[g[j] as int]];
        }
      }
      PlacedEnd(g, t, consumed, out, cur, exactTimes[..], old(exactTimes[..]));
    }

    /** Pass 3 of `confronto`: each minimum in the scanned range rises to the copies placed. */
    method RaiseMinima(cur: seq<int>)
      requires Valid() && |cur| == Sigma
      modifies minTimes
      ensures Valid()
      ensures forall c | 0 <= c < Sigma :: minTimes[c] == if Scanned(c) then Max(old(minTimes[c]), cur[c]) else old(minTimes[c])
    {
      for c := 45 to 123
        invariant forall c' | 0 <= c' < Sigma :: minTimes[c'] == if 45 <= c' < c then Max(old(minTimes[c']), cur[c']) else old(minTimes[c'])
      {
        if minTimes[c] < cur[c] {
          minTimes[c] := cur[c];
        }
      }
    }

    /**
     * `confronto(g, t)` without its printing and tree rebuilding: the marks of
     * the guess, the win test and the new tables.
     */
    method Evaluate(g: Word, t: Word) returns (out: seq<char>, solved: bool)
      requires Valid() && |g| == len && |t| == len
      modifies here, notHere, minTimes, exactTimes
      ensures Valid()
      ensures out == Feedback(g, t)
      ensures solved <==> g == t
      ensures View() == Update(old(View()), g, t)
    {
      ghost var k' := Update(View(), g, t);
      var checked, consumed, out0, cur0, count := MarkAgreeing(g, t);
      var cur;
      out, cur := MarkOthers(g, t, checked, consumed, out0, cur0);
      RaiseMinima(cur);
      solved := count == len;
      AgreeAll(g, t);
      forall c | 0 <= c < Sigma ensures minTimes[c] == k'.minTimes[c] {
        if !Scanned(c) {
          CountUnscanned(g, c);
          CountUnscanned(t, c);
        }
      }
      assert minTimes[..] == k'.minTimes;
      assert exactTimes[..] == k'.exactTimes;
    }
  }
}
