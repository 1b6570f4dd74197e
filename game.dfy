/**
 * The bookkeeping of one game of `game`: the secret word, the number of
 * guesses left, and `flag`, set until the first counted guess, which tells
 * whether the candidates are still the whole dictionary. Reading commands
 * and printing are left to the caller; each method is one step of the loop.
 */
module Session {
  import opened Words
  import opened Trees
  import opened Evaluation
  import opened Constraints
  import opened Engine

  /** What a guess makes the program print: `not_exists`, `ok`, or the marks and the number of candidates. */
  datatype Reply = NotExists | Solved | Marks(out: seq<char>, count: int)

  /**
   * Inserting a new word into the ordered dictionary d whose survivors are the
   * in-order words of the ordered candidate tree f: the survivors afterwards
   * are the words of f with the new word inserted exactly when it passes.
   */
  lemma InsertKeepsSurvivors(d: Tree, f: Tree, w: Word, k: Knowledge)
    requires Sized(k, |w|) && OfLength(Flatten(d), |w|)
    requires Ordered(d) && Ordered(f) && w !in Elements(d)
    requires Flatten(f) == Survivors(Flatten(d), k)
    ensures OfLength(Flatten(InsertT(d, w)), |w|)
    ensures Satisfies(k, w) ==> Survivors(Flatten(InsertT(d, w)), k) == Flatten(InsertT(f, w))
    ensures !Satisfies(k, w) ==> Survivors(Flatten(InsertT(d, w)), k) == Flatten(f)
  {
    var d' := InsertT(d, w);
    InsertElements(d, w);
    ElementsAreFlattened(d);
    ElementsAreFlattened(d');
    ElementsAreFlattened(f);
    InsertOrdered(d, w);
    OrderedIffSorted(d');
    SurvivorsSorted(Flatten(d'), k);
    var s := Survivors(Flatten(d'), k);
    forall x | x in Elements(f) ensures x in Elements(d) && |x| == |w| {
      SurvivorsMembers(Flatten(d), k, x);
    }
    if Satisfies(k, w) {
      var f' := InsertT(f, w);
      InsertElements(f, w);
      InsertOrdered(f, w);
      OrderedIffSorted(f');
      ElementsAreFlattened(f');
      forall x ensures x in s <==> x in Flatten(f') {
        if |x| == |w| {
          SurvivorsMembers(Flatten(d'), k, x);
          SurvivorsMembers(Flatten(d), k, x);
        }
      }
      SortedUnique(s, Flatten(f'));
    } else {
      OrderedIffSorted(f);
      forall x ensures x in s <==> x in Flatten(f) {
        if |x| == |w| {
          SurvivorsMembers(Flatten(d'), k, x);
          SurvivorsMembers(Flatten(d), k, x);
        }
      }
      SortedUnique(s, Flatten(f));
    }
  }

  /**
   * The state of a game in progress, as values: the dictionary d and the
   * candidate tree f, `num_filtered` n, the knowledge k and the secret t.
   * The words shown, the dictionary while `flag` is set and the candidates
   * afterwards, are the dictionary words that pass the filter; the filter
   * accepts t; n counts the candidates; nothing is known while `flag` is set.
   */
  ghost predicate Consistent(flag: bool, d: Tree, f: Tree, n: int, k: Knowledge, t: Word) {
    Sized(k, |t|) && OfLength(Flatten(d), |t|) && Satisfies(k, t) && n == |Flatten(f)| &&
    Elements(f) <= Elements(d) &&
    (if flag then Flatten(d) else Flatten(f)) == Survivors(Flatten(d), k) &&
    (flag ==> k == Empty(|t|))
  }

  /** The start of a game: reset tables and no candidates. */
  lemma StartConsistent(d: Tree, t: Word)
    requires OfLength(Flatten(d), |t|)
    ensures Consistent(true, d, Leaf, 0, Empty(|t|), t)
  {
    SurvivorsAll(Flatten(d), Empty(|t|));
  }

  /**
   * A counted guess g that is not the secret: the candidates rebuilt, from
   * the dictionary while `flag` was set and from themselves afterwards, keep
   * the game consistent under the new knowledge, with `flag` cleared.
   */
  lemma GuessConsistent(flag: bool, d: Tree, f: Tree, n: int, k: Knowledge, t: Word, g: Word)
    requires Consistent(flag, d, f, n, k, t) && |g| == |t|
    ensures var k' := Update(k, g, t);
      var S := Survivors(if flag then Flatten(d) else Flatten(f), k');
      S == Survivors(Flatten(d), k') && Consistent(false, d, Balanced(S), |S|, k', t)
  {
    var k' := Update(k, g, t);
    UpdateKeepsTarget(k, g, t);
    if !flag {
      SurvivorsNarrow(Flatten(d), k, g, t);
    }
    var S := Survivors(Flatten(d), k');
    BalancedFlatten(S);
    ElementsAreFlattened(d);
    ElementsAreFlattened(Balanced(S));
  }

  /**
   * A word w inserted during a game enters the dictionary, and the candidates
   * exactly when it passes the filter; the game stays consistent.
   */
  lemma InsertConsistent(flag: bool, d: Tree, f: Tree, n: int, k: Knowledge, t: Word, w: Word)
    requires Consistent(flag, d, f, n, k, t) && |w| == |t|
    requires Ordered(d) && Ordered(f) && w !in Elements(d)
    ensures w !in Elements(f)
    ensures var passes := Satisfies(k, w);
      Consistent(flag, InsertT(d, w), if passes then InsertT(f, w) else f, if passes then n + 1 else n, k, t)
  {
    InsertElements(d, w);
    if Satisfies(k, w) {
      InsertLength(f, w);
      InsertElements(f, w);
    }
    if flag {
      ElementsAreFlattened(d);
      ElementsAreFlattened(InsertT(d, w));
      SurvivorsAll(Flatten(InsertT(d, w)), k);
    } else {
      InsertKeepsSurvivors(d, f, w, k);
    }
  }

  /** The engine is in order between two commands and the secret word has the game's length. */
  ghost predicate Ready(e: Engine, target: Word)
    reads e, e.dict, e.filt, e.cons, e.cons.notHere, e.cons.minTimes, e.cons.exactTimes
  {
    e.Valid() && e.list == [] && |target| == e.len
  }

  /** While the game goes on, the engine's state is consistent with the secret word. */
  ghost predicate Playing(e: Engine, flag: bool, target: Word)
    reads e, e.dict, e.filt, e.cons, e.cons.here, e.cons.notHere, e.cons.minTimes, e.cons.exactTimes
  {
    Ready(e, target) && Consistent(flag, e.dict.Contents(), e.filt.Contents(), e.numFiltered, e.Known(), target)
  }

  /**
   * What `+stampa_filtrate` prints: the dictionary while `flag` is set, the
   * candidate tree afterwards.
   */
  ghost function Shown(e: Engine, flag: bool): seq<Word>
    reads e, e.dict, e.filt, e.cons, e.cons.notHere, e.cons.minTimes, e.cons.exactTimes
    requires e.Valid()
  {
    if flag then e.dict.Words() else e.filt.Words()
  }

  /** The words shown are exactly the dictionary words that pass the filter, in order. */
  lemma ShownSurvivors(e: Engine, flag: bool, target: Word)
    requires Playing(e, flag, target)
    ensures Shown(e, flag) == Survivors(e.dict.Words(), e.Known())
  {
  }

  /** While the secret word is in the dictionary, it is among the words shown. */
  lemma TargetShown(e: Engine, flag: bool, target: Word)
    requires Playing(e, flag, target) && target in Elements(e.dict.Contents())
    ensures target in Shown(e, flag)
  {
    ShownSurvivors(e, flag, target);
    ElementsAreFlattened(e.dict.Contents());
    SurvivorsMembers(e.dict.Words(), e.Known(), target);
  }

  /** The start of `game`: no candidate tree yet, `num_filtered` zero, `flag` set. */
  method Start(e: Engine, target: Word)
    requires e.Valid() && e.list == [] && e.filt.Contents() == Leaf && e.Known() == Empty(e.len)
    requires |target| == e.len
    modifies e
    ensures Playing(e, true, target) && e.numFiltered == 0
    ensures e.dict.Contents() == old(e.dict.Contents())
  {
    e.numFiltered := 0;
    Engine.TreeWords(e.dict.H(), e.dict.root, e.len);
    StartConsistent(e.dict.Contents(), target);
  }

  /**
   * A guess w with `left` guesses left: a word the dictionary lacks is refused
   * and not counted; the secret word wins; any other dictionary word is
   * compared, counted, and clears `flag`.
   */
  method Guess(e: Engine, target: Word, flag: bool, left: int, w: Word) returns (reply: Reply, flag': bool, left': int)
    requires Playing(e, flag, target) && |w| == e.len
    modifies e, e.filt, e.cons.here, e.cons.notHere, e.cons.minTimes, e.cons.exactTimes
    ensures Ready(e, target) && (reply != Solved ==> Playing(e, flag', target))
    ensures e.dict.Contents() == old(e.dict.Contents())
    ensures reply == NotExists <==> w !in Elements(e.dict.Contents())
    ensures reply == Solved <==> w in Elements(e.dict.Contents()) && w == target
    ensures reply == NotExists ==> e.Known() == old(e.Known()) && left' == left && flag' == flag
    ensures reply == NotExists ==> e.filt.Contents() == old(e.filt.Contents()) && e.numFiltered == old(e.numFiltered)
    ensures reply != NotExists ==> e.Known() == Update(old(e.Known()), w, target)
    ensures reply.Marks? ==> reply.out == Feedback(w, target) && !flag' && left' == left - 1
    ensures reply == Solved ==> left' == left && flag' == flag && e.filt.Contents() == old(e.filt.Contents()) && e.numFiltered == old(e.numFiltered)
    ensures reply.Marks? ==> reply.count == |Survivors(e.dict.Words(), e.Known())|
  {
    var found := e.dict.Search(w);
    if !found {
      return NotExists, flag, left;
    }
    reply, flag', left' := Attempt(e, target, flag, left, w);
  }

  /** A guess found in the dictionary: `confronto`, then, unless it wins, one guess fewer and `flag` cleared. */
  method Attempt(e: Engine, target: Word, flag: bool, left: int, w: Word) returns (reply: Reply, flag': bool, left': int)
    requires Playing(e, flag, target) && |w| == e.len && w in Elements(e.dict.Contents())
    modifies e, e.filt, e.cons.here, e.cons.notHere, e.cons.minTimes, e.cons.exactTimes
    ensures Ready(e, target) && (reply != Solved ==> Playing(e, flag', target))
    ensures e.dict.Contents() == old(e.dict.Contents())
    ensures reply != NotExists && (reply == Solved <==> w == target)
    ensures e.Known() == Update(old(e.Known()), w, target)
    ensures reply.Marks? ==> reply.out == Feedback(w, target) && !flag' && left' == left - 1
    ensures reply == Solved ==> left' == left && flag' == flag && e.filt.Contents() == old(e.filt.Contents()) && e.numFiltered == old(e.numFiltered)
    ensures reply.Marks? ==> reply.count == |Survivors(e.dict.Words(), e.Known())|
  {
    ghost var k := e.Known();
    ghost var D := e.dict.Contents();
    ghost var F := e.filt.Contents();
    GuessConsistent(flag, D, F, e.numFiltered, k, target, w);
    var out, solved := e.Compare(w, target, flag);
    ghost var k' := e.Known();
    assert e.dict.Contents() == D && k' == Update(k, w, target);
    if solved {
      return Solved, flag, left;
    }
    ghost var S := Survivors(if flag then Flatten(D) else Flatten(F), k');
    assert e.filt.Contents() == Balanced(S) && e.numFiltered == |S|;
    reply, flag', left' := Marks(out, e.numFiltered), false, left - 1;
  }

  /** `+inserisci_inizio` during a game: each new word enters the dictionary and, when it passes, the candidates. */
  method Insert(e: Engine, target: Word, flag: bool, w: Word)
    requires Playing(e, flag, target) && |w| == e.len && w !in Elements(e.dict.Contents())
    modifies e, e.dict, e.filt
    ensures Playing(e, flag, target) && e.dict.Contents() == InsertT(old(e.dict.Contents()), w)
    ensures e.Known() == old(e.Known())
    ensures e.filt.Contents() == (if Satisfies(old(e.Known()), w) then InsertT(old(e.filt.Contents()), w) else old(e.filt.Contents()))
    ensures e.numFiltered == (if Satisfies(old(e.Known()), w) then old(e.numFiltered) + 1 else old(e.numFiltered))
  {
    ghost var k := e.Known();
    ghost var D := e.dict.Contents();
    ghost var F := e.filt.Contents();
    ghost var n := e.numFiltered;
    InsertConsistent(flag, D, F, n, k, target, w);
    ghost var passes := Satisfies(k, w);
    ghost var f', n' := if passes then InsertT(F, w) else F, if passes then n + 1 else n;
    e.Insert(w, true);
    assert e.Known() == k && e.dict.Contents() == InsertT(D, w) && e.filt.Contents() == f' && e.numFiltered == n';
  }

  /**
   * The end of `game` and the `reset_filtro` that follows it: `ko` is printed
   * when no guess is left, the candidate tree is freed and the tables reset.
   */
  method Finish(e: Engine, target: Word, left: int) returns (lost: bool)
    requires Ready(e, target)
    modifies e.filt, e.cons.here, e.cons.notHere, e.cons.minTimes, e.cons.exactTimes
    ensures lost <==> left == 0
    ensures e.Valid() && e.list == [] && e.filt.Contents() == Leaf && e.Known() == Empty(e.len)
    ensures e.dict.Contents() == old(e.dict.Contents())
  {
    lost := left == 0;
    e.filt.Clear();
    e.cons.Reset();
  }
}
