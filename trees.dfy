/**
 * The abstract value of a binary search tree of words, and the two ways the
 * program shapes one: unbalanced insertion along the strcmp descent, and the
 * median-split rebuild from a list.
 */
module Trees {
  import opened Words

  datatype Tree = Leaf | Node(left: Tree, key: Word, right: Tree)

  function Elements(t: Tree): set<Word> {
    match t
    case Leaf => {}
    case Node(l, k, r) => Elements(l) + {k} + Elements(r)
  }

  /** The in-order sequence: what `stampa` prints and what `inOrder` visits. */
  function Flatten(t: Tree): seq<Word> {
    match t
    case Leaf => []
    case Node(l, k, r) => Flatten(l) + [k] + Flatten(r)
  }

  function Height(t: Tree): nat {
    match t
    case Leaf => 0
    case Node(l, _, r) => 1 + (if Height(l) < Height(r) then Height(r) else Height(l))
  }

  /** Every key to the left of a node is smaller than it and every key to the right larger. */
  predicate Ordered(t: Tree) {
    match t
    case Leaf => true
    case Node(l, k, r) =>
      Ordered(l) && Ordered(r) &&
      (forall x | x in Elements(l) :: Less(x, k)) &&
      (forall x | x in Elements(r) :: Less(k, x))
  }

  predicate Sorted(s: seq<Word>) {
    forall i, j | 0 <= i < j < |s| :: Less(s[i], s[j])
  }

  /**
   * Unbalanced insertion as `insert` places a new word: right when strcmp is
   * positive, left otherwise. It is only ever applied to an absent word: on a
   * present one the C descent never ends, while this adds a copy on the left.
   */
  function InsertT(t: Tree, w: Word): Tree {
    match t
    case Leaf => Node(Leaf, w, Leaf)
    case Node(l, k, r) =>
      if Cmp(w, k) > 0 then Node(l, k, InsertT(r, w)) else Node(InsertT(l, w), k, r)
  }

  /**
   * The tree `list_to_bst` builds from the first n cells of a list: the left
   * subtree takes n/2 cells, then one cell for the root, the right subtree the rest.
   */
  function Balanced(s: seq<Word>): Tree
    decreases |s|
  {
    if s == [] then Leaf
    else Node(Balanced(s[..|s| / 2]), s[|s| / 2], Balanced(s[|s| / 2 + 1..]))
  }

  /** The median split `list_to_bst` performs on the first n cells of L. */
  lemma BalancedSplit(L: seq<Word>, n: nat)
    requires 0 < n <= |L|
    ensures Balanced(L[..n]) == Node(Balanced(L[..n / 2]), L[n / 2], Balanced(L[n / 2..][1..][..n - n / 2 - 1]))
  {
    assert L[..n][..n / 2] == L[..n / 2];
    assert L[..n][n / 2 + 1..] == L[n / 2..][1..][..n - n / 2 - 1];
  }

  function Pow2(h: nat): (p: nat)
    ensures p >= 1
  {
    if h == 0 then 1 else 2 * Pow2(h - 1)
  }

  lemma {:induction false} ElementsAreFlattened(t: Tree)
    ensures forall x :: x in Elements(t) <==> x in Flatten(t)
  {
    match t
    case Leaf =>
    case Node(l, k, r) =>
      ElementsAreFlattened(l);
      ElementsAreFlattened(r);
  }

  lemma SortedConcat(a: seq<Word>, k: Word, b: seq<Word>)
    requires Sorted(a) && Sorted(b)
    requires forall x | x in a :: Less(x, k)
    requires forall x | x in b :: Less(k, x)
    ensures Sorted(a + [k] + b)
  {
    var s := a + [k] + b;
    forall i, j | 0 <= i < j < |s| ensures Less(s[i], s[j]) {
      if j < |a| {
      } else if j == |a| {
        assert s[i] == a[i];
      } else if i < |a| {
        assert s[i] in a && s[j] == b[j - |a| - 1] && s[j] in b;
        LessTransitive(s[i], k, s[j]);
      } else if i == |a| {
        assert s[j] in b;
      } else {
        assert s[i] == b[i - |a| - 1] && s[j] == b[j - |a| - 1];
      }
    }
  }

  /** Two sorted sequences with the same words are equal. */
  lemma {:induction false} SortedUnique(a: seq<Word>, b: seq<Word>)
    requires Sorted(a) && Sorted(b)
    requires forall x :: x in a <==> x in b
    ensures a == b
    decreases |a|
  {
    if b != [] {
      assert b[0] in b;
    }
    if a != [] {
      assert a[0] in a;
      var j :| 0 <= j < |b| && b[j] == a[0];
      var i :| 0 <= i < |a| && a[i] == b[0];
      if 0 < i && 0 < j {
        LessTotal(a[0], b[0]);
      }
      forall x ensures x in a[1..] <==> x in b[1..] {
        if x in a[1..] {
          var p :| 0 <= p < |a[1..]| && a[1..][p] == x;
          assert Less(a[0], a[p + 1]);
          LessTotal(a[0], x);
        }
        if x in b[1..] {
          var q :| 0 <= q < |b[1..]| && b[1..][q] == x;
          assert Less(b[0], b[q + 1]);
          LessTotal(b[0], x);
        }
        assert x in a <==> x == a[0] || x in a[1..];
        assert x in b <==> x == b[0] || x in b[1..];
      }
      SortedUnique(a[1..], b[1..]);
      assert a == [a[0]] + a[1..] && b == [b[0]] + b[1..];
    }
  }

  /** Insertion adds one word to the in-order sequence. */
  lemma {:induction false} InsertLength(t: Tree, w: Word)
    ensures |Flatten(InsertT(t, w))| == |Flatten(t)| + 1
  {
    match t
    case Leaf =>
    case Node(l, k, r) =>
      InsertLength(l, w);
      InsertLength(r, w);
  }

  /** Ordering a tree by its links is the same as sorting its in-order sequence. */
  lemma {:induction false} OrderedIffSorted(t: Tree)
    ensures Ordered(t) <==> Sorted(Flatten(t))
  {
    match t
    case Leaf =>
    case Node(l, k, r) =>
      OrderedIffSorted(l);
      OrderedIffSorted(r);
      ElementsAreFlattened(l);
      ElementsAreFlattened(r);
      var a, b := Flatten(l), Flatten(r);
      var s := a + [k] + b;
      if Ordered(t) {
        SortedConcat(a, k, b);
      }
      if Sorted(s) {
        assert Sorted(a) by {
          forall i, j | 0 <= i < j < |a| ensures Less(a[i], a[j]) { assert s[i] == a[i] && s[j] == a[j]; }
        }
        assert Sorted(b) by {
          forall i, j | 0 <= i < j < |b| ensures Less(b[i], b[j]) {
            assert s[|a| + 1 + i] == b[i] && s[|a| + 1 + j] == b[j];
          }
        }
        forall x | x in Elements(l) ensures Less(x, k) {
          var i :| 0 <= i < |a| && a[i] == x;
          assert s[i] == x && s[|a|] == k;
        }
        forall x | x in Elements(r) ensures Less(k, x) {
          var i :| 0 <= i < |b| && b[i] == x;
          assert s[|a| + 1 + i] == x && s[|a|] == k;
        }
      }
  }

  /** Insertion adds exactly the new word. */
  lemma {:induction false} InsertElements(t: Tree, w: Word)
    ensures Elements(InsertT(t, w)) == Elements(t) + {w}
  {
    match t
    case Leaf =>
    case Node(l, k, r) =>
      if Cmp(w, k) > 0 { InsertElements(r, w); } else { InsertElements(l, w); }
  }

  /** Inserting an absent word into an ordered tree keeps it ordered. */
  lemma {:induction false} InsertOrdered(t: Tree, w: Word)
    requires Ordered(t) && w !in Elements(t)
    ensures Ordered(InsertT(t, w))
  {
    match t
    case Leaf =>
    case Node(l, k, r) =>
      LessTotal(w, k);
      CmpZero(w, k);
      CmpFlip(w, k);
      if Cmp(w, k) > 0 {
        InsertOrdered(r, w);
        InsertElements(r, w);
      } else {
        InsertOrdered(l, w);
        InsertElements(l, w);
      }
  }

  /** Rebuilding keeps the cells in list order. */
  lemma {:induction false} BalancedFlatten(s: seq<Word>)
    ensures Flatten(Balanced(s)) == s
    decreases |s|
  {
    if s != [] {
      var m := |s| / 2;
      BalancedFlatten(s[..m]);
      BalancedFlatten(s[m + 1..]);
      assert s == s[..m] + [s[m]] + s[m + 1..];
    }
  }

  /** A sorted list gives an ordered tree. */
  lemma BalancedOrdered(s: seq<Word>)
    requires Sorted(s)
    ensures Ordered(Balanced(s))
  {
    BalancedFlatten(s);
    OrderedIffSorted(Balanced(s));
  }

  /** Fewer than 2^h cells give a tree of height at most h, so the height is at most ceil(log2(n+1)). */
  lemma {:induction false} BalancedHeight(s: seq<Word>, h: nat)
    requires |s| < Pow2(h)
    ensures Height(Balanced(s)) <= h
    decreases |s|
  {
    if s != [] {
      var m := |s| / 2;
      assert h > 0;
      BalancedHeight(s[..m], h - 1);
      BalancedHeight(s[m + 1..], h - 1);
    }
  }
}
