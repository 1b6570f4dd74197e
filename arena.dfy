/**
 * The linked binary search tree of `main.c`, with its nodes held in an arena:
 * node i has the word key[i] and the indices left[i] and right[i] of its
 * children, -1 standing for NULL. Indices play the part of the node addresses.
 *
 * `depth` and `bound` are proof bookkeeping: every child is deeper than its
 * parent and no node is deeper than `bound`, so following links terminates
 * and the arena denotes a `Tree`.
 */
module Arena {
  import opened Words
  import opened Trees

  datatype Heap = Heap(key: seq<Word>, left: seq<int>, right: seq<int>, depth: seq<nat>, bound: nat)

  predicate ChildOk(h: Heap, i: int, c: int)
    requires 0 <= i < |h.depth|
  {
    c == -1 || (0 <= c < |h.key| && c < |h.depth| && h.depth[i] < h.depth[c])
  }

  predicate WellFormed(h: Heap) {
    |h.left| == |h.key| && |h.right| == |h.key| && |h.depth| == |h.key| &&
    forall i | 0 <= i < |h.key| :: h.depth[i] <= h.bound && ChildOk(h, i, h.left[i]) && ChildOk(h, i, h.right[i])
  }

  /** A node index or NULL. */
  predicate IsRef(h: Heap, i: int) {
    -1 <= i < |h.key|
  }

  function Measure(h: Heap, i: int): nat
    requires WellFormed(h) && IsRef(h, i)
  {
    if i < 0 then 0 else h.bound - h.depth[i] + 1
  }

  /** The tree hanging from node i. */
  function Abs(h: Heap, i: int): Tree
    requires WellFormed(h) && IsRef(h, i)
    decreases Measure(h, i)
  {
    if i < 0 then Leaf else Node(Abs(h, h.left[i]), h.key[i], Abs(h, h.right[i]))
  }

  /** The child the descent for w moves to from node i (strcmp positive: right). */
  function Toward(h: Heap, i: int, w: Word): int
    requires WellFormed(h) && 0 <= i < |h.key|
  {
    if Cmp(w, h.key[i]) > 0 then h.right[i] else h.left[i]
  }

  /** The last node the trailing pointer `y` of `insert` visits when the descent starts at i. */
  function Descend(h: Heap, i: int, w: Word): (y: int)
    requires WellFormed(h) && 0 <= i < |h.key|
    ensures 0 <= y < |h.key| && Toward(h, y, w) == -1
    decreases Measure(h, i)
  {
    var c := Toward(h, i, w);
    if c < 0 then i else Descend(h, c, w)
  }

  /** The node where the descent ends lies in the subtree it started from. */
  lemma {:induction false} DescendInside(h: Heap, i: int, w: Word)
    requires WellFormed(h) && 0 <= i < |h.key|
    ensures h.key[Descend(h, i, w)] in Elements(Abs(h, i))
    decreases Measure(h, i)
  {
    var c := Toward(h, i, w);
    if c >= 0 {
      DescendInside(h, c, w);
    }
  }

  /** Two arenas that agree on every node but y, the second possibly longer. */
  predicate AgreeExcept(h: Heap, h': Heap, y: int)
    requires WellFormed(h) && WellFormed(h')
  {
    |h.key| <= |h'.key| &&
    forall j | 0 <= j < |h.key| && j != y ::
      h'.key[j] == h.key[j] && h'.left[j] == h.left[j] && h'.right[j] == h.right[j]
  }

  /** Changing node y leaves alone every subtree that does not contain y's word. */
  lemma {:induction false} FrameExcept(h: Heap, h': Heap, y: int, c: int)
    requires WellFormed(h) && WellFormed(h') && IsRef(h, c) && 0 <= y < |h.key|
    requires AgreeExcept(h, h', y)
    requires h.key[y] !in Elements(Abs(h, c))
    ensures Abs(h', c) == Abs(h, c)
    decreases Measure(h, c)
  {
    if c >= 0 {
      FrameExcept(h, h', y, h.left[c]);
      FrameExcept(h, h', y, h.right[c]);
    }
  }

  /**
   * Hanging a new leaf with word w (node |h.key| of h') in the empty slot of
   * the node where the descent from i ends performs InsertT on the subtree of i.
   */
  lemma {:induction false} LinkInserts(h: Heap, h': Heap, y: int, w: Word, i: int)
    requires WellFormed(h) && WellFormed(h')
    requires 0 <= i < |h.key| && Descend(h, i, w) == y
    requires Ordered(Abs(h, i)) && w !in Elements(Abs(h, i))
    requires |h'.key| == |h.key| + 1 && AgreeExcept(h, h', y)
    requires h'.key[|h.key|] == w && h'.left[|h.key|] == -1 && h'.right[|h.key|] == -1
    requires h'.key[y] == h.key[y]
    requires Cmp(w, h.key[y]) > 0 ==> h'.right[y] == |h.key| && h'.left[y] == h.left[y]
    requires Cmp(w, h.key[y]) <= 0 ==> h'.left[y] == |h.key| && h'.right[y] == h.right[y]
    ensures Abs(h', i) == InsertT(Abs(h, i), w)
    decreases Measure(h, i)
  {
    var n := |h.key|;
    var k := h.key[i];
    var c := Toward(h, i, w);
    assert Abs(h', n) == Node(Leaf, w, Leaf);
    if c < 0 {
      // the descent ends here
      if Cmp(w, k) > 0 {
        LessTotal(k, k);
        FrameExcept(h, h', y, h.left[i]);
      } else {
        LessTotal(k, k);
        FrameExcept(h, h', y, h.right[i]);
      }
    } else {
      LinkInserts(h, h', y, w, c);
      DescendInside(h, c, w);
      var ky := h.key[y];
      if Cmp(w, k) > 0 {
        if ky in Elements(Abs(h, h.left[i])) {
          LessTotal(ky, k);
        }
        FrameExcept(h, h', y, h.left[i]);
      } else {
        if ky in Elements(Abs(h, h.right[i])) {
          LessTotal(ky, k);
        }
        FrameExcept(h, h', y, h.right[i]);
      }
    }
  }

  /** Every node reachable from i has an index in [lo, hi). */
  predicate Within(h: Heap, i: int, lo: int, hi: int)
    requires WellFormed(h) && IsRef(h, i)
    decreases Measure(h, i)
  {
    i < 0 || (lo <= i < hi && Within(h, h.left[i], lo, hi) && Within(h, h.right[i], lo, hi))
  }

  /** Two arenas that agree on the nodes [lo, hi). */
  predicate AgreeOn(h: Heap, h': Heap, lo: int, hi: int)
    requires WellFormed(h) && WellFormed(h')
  {
    0 <= lo && hi <= |h.key| && hi <= |h'.key| &&
    forall j | lo <= j < hi ::
      h'.key[j] == h.key[j] && h'.left[j] == h.left[j] && h'.right[j] == h.right[j]
  }

  lemma {:induction false} FrameWithin(h: Heap, h': Heap, i: int, lo: int, hi: int)
    requires WellFormed(h) && WellFormed(h') && IsRef(h, i)
    requires Within(h, i, lo, hi) && AgreeOn(h, h', lo, hi)
    ensures IsRef(h', i) && Abs(h', i) == Abs(h, i) && Within(h', i, lo, hi)
    decreases Measure(h, i)
  {
    if i >= 0 {
      FrameWithin(h, h', h.left[i], lo, hi);
      FrameWithin(h, h', h.right[i], lo, hi);
    }
  }

  lemma {:induction false} WithinWiden(h: Heap, i: int, lo: int, hi: int, lo': int, hi': int)
    requires WellFormed(h) && IsRef(h, i) && Within(h, i, lo, hi)
    requires lo' <= lo && hi <= hi'
    ensures Within(h, i, lo', hi')
    decreases Measure(h, i)
  {
    if i >= 0 {
      WithinWiden(h, h.left[i], lo, hi, lo', hi');
      WithinWiden(h, h.right[i], lo, hi, lo', hi');
    }
  }

  /** Every word of the tree hanging from i is the word of some node. */
  lemma {:induction false} AbsKeys(h: Heap, i: int)
    requires WellFormed(h) && IsRef(h, i)
    ensures forall x | x in Flatten(Abs(h, i)) :: x in h.key
    decreases Measure(h, i)
  {
    if i >= 0 {
      AbsKeys(h, h.left[i]);
      AbsKeys(h, h.right[i]);
    }
  }

  /** Every word of the tree hanging from i has length n when every node's word does. */
  lemma AbsLengths(h: Heap, i: int, n: nat)
    requires WellFormed(h) && IsRef(h, i) && forall j | 0 <= j < |h.key| :: |h.key[j]| == n
    ensures forall j | 0 <= j < |Flatten(Abs(h, i))| :: |Flatten(Abs(h, i))[j]| == n
  {
    AbsKeys(h, i);
    var s := Flatten(Abs(h, i));
    forall j | 0 <= j < |s| ensures |s[j]| == n {
      assert s[j] in h.key;
    }
  }

  lemma AgreeOnTrans(h: Heap, h': Heap, h'': Heap, lo: int, hi: int)
    requires WellFormed(h) && WellFormed(h') && WellFormed(h'')
    requires AgreeOn(h, h', lo, hi) && AgreeOn(h', h'', lo, hi)
    ensures AgreeOn(h, h'', lo, hi)
  {
  }

  /**
   * Node z, with word w, is linked to a subtree l built in the nodes
   * [lo, z) of h1 and a subtree r built in the nodes after z of h3; h4
   * agrees with h1 on the first range and with h3 on the second. Then z
   * holds the two subtrees as they were built.
   */
  lemma AssembleNode(h1: Heap, h3: Heap, h4: Heap, lo: int, z: int, w: Word, l: int, r: int)
    requires WellFormed(h1) && WellFormed(h3) && WellFormed(h4)
    requires 0 <= lo <= z < |h4.key| == |h3.key| && z <= |h1.key|
    requires IsRef(h1, l) && Within(h1, l, lo, z) && AgreeOn(h1, h4, lo, z)
    requires IsRef(h3, r) && Within(h3, r, z + 1, |h3.key|) && AgreeOn(h3, h4, z + 1, |h4.key|)
    requires h4.key[z] == w && h4.left[z] == l && h4.right[z] == r
    ensures Within(h4, z, lo, |h4.key|)
    ensures Abs(h4, z) == Node(Abs(h1, l), w, Abs(h3, r))
  {
    FrameWithin(h1, h4, l, lo, z);
    FrameWithin(h3, h4, r, z + 1, |h4.key|);
    WithinWiden(h4, l, lo, z, lo, |h4.key|);
    WithinWiden(h4, r, z + 1, |h4.key|, lo, |h4.key|);
  }

  /** h' keeps every node of h, with its links and its depth, and may add nodes after them. */
  ghost predicate Grows(h: Heap, h': Heap) {
    WellFormed(h) && WellFormed(h') && |h.key| <= |h'.key| && AgreeOn(h, h', 0, |h.key|) &&
    forall j | 0 <= j < |h.key| :: h'.depth[j] == h.depth[j]
  }

  /** Node r of h, at depth d, holds a balanced tree of s built in the nodes from lo on. */
  ghost predicate Holds(h: Heap, lo: int, r: int, d: nat, s: seq<Word>)
    requires WellFormed(h)
  {
    IsRef(h, r) && Within(h, r, lo, |h.key|) && (r != -1 ==> h.depth[r] == d) && Abs(h, r) == Balanced(s)
  }

  /**
   * h' extends h by nodes that hold a balanced tree of s rooted at r, at
   * depth d and below: the old nodes are unchanged and the tree reaches
   * only new nodes.
   */
  ghost predicate Extends(h: Heap, h': Heap, r: int, d: nat, s: seq<Word>) {
    Grows(h, h') && Holds(h', |h.key|, r, d, s)
  }

  lemma ExtendsEmpty(h: Heap, d: nat)
    requires WellFormed(h)
    ensures Extends(h, h, -1, d, [])
  {
  }

  lemma GrowsTrans(h: Heap, h': Heap, h'': Heap)
    requires Grows(h, h') && Grows(h', h'')
    ensures Grows(h, h'')
  {
  }

  /** Appending node z and linking it to l keeps every earlier node. */
  lemma GrowsByNode(h1: Heap, h2: Heap, z: int, w: Word, l: int, d: nat)
    requires WellFormed(h1) && WellFormed(h2) && z == |h1.key|
    requires h2.key == h1.key + [w] && h2.left == (h1.left + [-1])[z := l] && h2.right == h1.right + [-1]
    requires h2.depth == h1.depth + [d]
    ensures Grows(h1, h2) && h2.key[z] == w && h2.left[z] == l && h2.depth[z] == d
  {
  }

  /** Relinking the right child of node z of h3 changes no other link. */
  lemma RelinkRight(h3: Heap, h4: Heap, z: int, r: int)
    requires WellFormed(h3) && WellFormed(h4) && 0 <= z < |h3.key| && h4 == h3.(right := h3.right[z := r])
    ensures AgreeOn(h3, h4, 0, z) && AgreeOn(h3, h4, z + 1, |h4.key|)
    ensures h4.key[z] == h3.key[z] && h4.left[z] == h3.left[z] && h4.right[z] == r && h4.depth == h3.depth
  {
  }

  /** The nodes before z are those of h1 in h4 too. */
  lemma GrowsUpTo(h0: Heap, h1: Heap, h3: Heap, h4: Heap)
    requires Grows(h0, h1) && Grows(h1, h3) && WellFormed(h4)
    requires |h4.key| == |h3.key| > |h1.key| && AgreeOn(h3, h4, 0, |h1.key|) && h4.depth == h3.depth
    ensures Grows(h0, h4)
  {
    AgreeOnTrans(h1, h3, h4, 0, |h1.key|);
    assert AgreeOn(h0, h1, 0, |h0.key|);
    assert AgreeOn(h1, h4, 0, |h0.key|);
  }

  /**
   * One level of `list_to_bst` on the first n words of L: the left subtree
   * (h0 to h1), a new node z linked to it (h2), the right subtree (h2 to h3)
   * and the link of z to it (h4) make a balanced tree of L[..n] at z.
   */
  lemma ExtendsNode(h0: Heap, h1: Heap, h2: Heap, h3: Heap, h4: Heap, z: int, l: int, r: int, d: nat, L: seq<Word>, n: nat)
    requires 0 < n <= |L|
    requires Extends(h0, h1, l, d + 1, L[..n / 2])
    requires z == |h1.key| && WellFormed(h2)
    requires h2.key == h1.key + [L[n / 2]] && h2.left == (h1.left + [-1])[z := l] && h2.right == h1.right + [-1]
    requires h2.depth == h1.depth + [d]
    requires Extends(h2, h3, r, d + 1, L[n / 2..][1..][..n - n / 2 - 1])
    requires WellFormed(h4) && h4 == h3.(right := h3.right[z := r])
    ensures Extends(h0, h4, z, d, L[..n])
  {
    GrowsByNode(h1, h2, z, L[n / 2], l, d);
    GrowsTrans(h1, h2, h3);
    RelinkRight(h3, h4, z, r);
    GrowsUpTo(h0, h1, h3, h4);
    assert AgreeOn(h1, h4, |h0.key|, z) by {
      assert AgreeOn(h1, h3, 0, z);
    }
    assert h3.key[z] == h2.key[z] && h3.left[z] == h2.left[z] && h3.depth[z] == h2.depth[z] by {
      assert AgreeOn(h2, h3, 0, |h2.key|);
    }
    AssembleNode(h1, h3, h4, |h0.key|, z, L[n / 2], l, r);
    BalancedSplit(L, n);
  }

  /** A tree of the program: the dictionary, or the tree of candidate words. */
  class Bst {
    const len: nat
    var key: seq<Word>
    var left: seq<int>
    var right: seq<int>
    var root: int
    ghost var depth: seq<nat>
    ghost var bound: nat

    ghost function H(): Heap
      reads this
    {
      Heap(key, left, right, depth, bound)
    }

    /** The links form a finite tree and every word has the configured length. */
    ghost predicate Shape()
      reads this
    {
      WellFormed(H()) && IsRef(H(), root) &&
      forall i | 0 <= i < |key| :: |key[i]| == len
    }

    ghost function Contents(): Tree
      reads this
      requires Shape()
    {
      Abs(H(), root)
    }

    /** The words in order, every one of them of the configured length. */
    ghost function Words(): (s: seq<Word>)
      reads this
      requires Shape()
      ensures s == Flatten(Contents()) && forall j | 0 <= j < |s| :: |s[j]| == len
    {
      AbsLengths(H(), root, len);
      Flatten(Contents())
    }

    ghost predicate Valid()
      reads this
    {
      Shape() && Ordered(Contents())
    }

    constructor (len: nat)
      ensures Valid() && Contents() == Leaf && this.len == len && key == []
    {
      this.len := len;
      key, left, right, root := [], [], [], -1;
      depth, bound := [], 0;
    }

    /** `new_node` / `new_node_filt`: a fresh node with both links NULL, at depth d. */
    method NewNode(w: Word, ghost d: nat) returns (z: int)
      requires Shape() && |w| == len
      modifies this
      ensures Shape() && z == |old(key)|
      ensures key == old(key) + [w] && left == old(left) + [-1] && right == old(right) + [-1]
      ensures depth == old(depth) + [d] && bound == (if old(bound) < d then d else old(bound))
      ensures root == old(root)
    {
      z := |key|;
      key, left, right := key + [w], left + [-1], right + [-1];
      depth := depth + [d];
      if bound < d { bound := d; }
      assert forall i | 0 <= i < |key| - 1 :: ChildOk(H(), i, left[i]) && ChildOk(H(), i, right[i]) by {
        forall i | 0 <= i < |key| - 1 ensures ChildOk(H(), i, left[i]) && ChildOk(H(), i, right[i]) {
          assert ChildOk(old(H()), i, old(left)[i]) && ChildOk(old(H()), i, old(right)[i]);
        }
      }
    }

    /** `y->left = z` */
    method SetLeft(y: int, z: int)
      requires Shape() && 0 <= y < |key| && (z == -1 || (0 <= z < |key| && depth[y] < depth[z]))
      modifies this
      ensures Shape() && left == old(left)[y := z]
      ensures key == old(key) && right == old(right) && root == old(root)
      ensures depth == old(depth) && bound == old(bound)
    {
      left := left[y := z];
      assert forall i | 0 <= i < |key| :: ChildOk(H(), i, left[i]) && ChildOk(H(), i, right[i]) by {
        forall i | 0 <= i < |key| ensures ChildOk(H(), i, left[i]) && ChildOk(H(), i, right[i]) {
          assert ChildOk(old(H()), i, old(left)[i]) && ChildOk(old(H()), i, old(right)[i]);
        }
      }
    }

    /** `y->right = z` */
    method SetRight(y: int, z: int)
      requires Shape() && 0 <= y < |key| && (z == -1 || (0 <= z < |key| && depth[y] < depth[z]))
      modifies this
      ensures Shape() && right == old(right)[y := z]
      ensures key == old(key) && left == old(left) && root == old(root)
      ensures depth == old(depth) && bound == old(bound)
    {
      right := right[y := z];
      assert forall i | 0 <= i < |key| :: ChildOk(H(), i, left[i]) && ChildOk(H(), i, right[i]) by {
        forall i | 0 <= i < |key| ensures ChildOk(H(), i, left[i]) && ChildOk(H(), i, right[i]) {
          assert ChildOk(old(H()), i, old(left)[i]) && ChildOk(old(H()), i, old(right)[i]);
        }
      }
    }

    /**
     * `insert` and `insert_filtrate`: walk down from the root with a trailing
     * pointer and hang a new leaf in the empty slot found. The word must be
     * absent: on a tie the walk does not move (see `Next`).
     */
    method Insert(w: Word)
      requires Valid() && |w| == len && w !in Elements(Contents())
      modifies this
      ensures Valid()
      ensures Contents() == InsertT(old(Contents()), w)
      ensures Elements(Contents()) == old(Elements(Contents())) + {w}
    {
      ghost var h := H();
      var x := root;
      var y := -1;
      var comp := 0;
      while x != -1
        invariant Shape() && H() == h && root == old(root) && IsRef(h, x) && IsRef(h, y)
        invariant root == -1 ==> x == -1 && y == -1
        invariant x != -1 ==> root != -1 && w !in Elements(Abs(h, x)) && Descend(h, x, w) == Descend(h, root, w)
        invariant x == -1 && root != -1 ==> y != -1 && y == Descend(h, root, w) && comp == Cmp(w, key[y])
        decreases Measure(h, x)
      {
        y := x;
        comp := Cmp(w, key[x]);
        CmpZero(w, key[x]);
        x := Next(x, w);
      }
      var d := if y == -1 then 0 else depth[y] + 1;
      var z := NewNode(w, d);
      if y == -1 {
        root := z;
      } else if comp > 0 {
        SetRight(y, z);
      } else {
        SetLeft(y, z);
      }
      if y != -1 {
        LinkInserts(h, H(), y, w, root);
      } else {
        assert Abs(H(), z) == Node(Abs(H(), -1), w, Abs(H(), -1));
      }
      InsertOrdered(old(Contents()), w);
      InsertElements(old(Contents()), w);
    }

    /** One step of the descent loop of `insert`: it stays put when strcmp is zero. */
    function Next(x: int, w: Word): (x': int)
      reads this
      requires Shape() && 0 <= x < |key|
      ensures Cmp(w, key[x]) == 0 ==> x' == x
      ensures Cmp(w, key[x]) != 0 ==> x' == Toward(H(), x, w)
    {
      var comp := Cmp(w, key[x]);
      if comp > 0 then right[x] else if comp < 0 then left[x] else x
    }

    /** On a word the subtree at x holds, one step lands on a node whose subtree still holds it. */
    lemma NextKeepsPresent(x: int, w: Word)
      requires Shape() && 0 <= x < |key| && Ordered(Abs(H(), x)) && w in Elements(Abs(H(), x))
      ensures 0 <= Next(x, w) < |key| && Ordered(Abs(H(), Next(x, w))) && w in Elements(Abs(H(), Next(x, w)))
      ensures key[x] == w ==> Next(x, w) == x
    {
      CmpZero(w, key[x]);
      LessTotal(w, key[x]);
      CmpFlip(w, key[x]);
    }

    /** The node the descent loop of `insert` has reached for w after n steps from x. */
    ghost function Walk(x: int, w: Word, n: nat): int
      reads this
      requires Shape()
      decreases n
    {
      if n == 0 || !(0 <= x < |key|) then x else Walk(Next(x, w), w, n - 1)
    }

    lemma {:induction false} WalkKeepsPresent(x: int, w: Word, n: nat)
      requires Shape() && 0 <= x < |key| && Ordered(Abs(H(), x)) && w in Elements(Abs(H(), x))
      ensures 0 <= Walk(x, w, n) < |key| && w in Elements(Abs(H(), Walk(x, w, n)))
      decreases n
    {
      if n > 0 {
        NextKeepsPresent(x, w);
        WalkKeepsPresent(Next(x, w), w, n - 1);
      }
    }

    /** Inserting a word the tree holds never ends: the descent from the root never reaches NULL. */
    lemma DescentNeverEnds(w: Word, n: nat)
      requires Valid() && w in Elements(Contents())
      ensures 0 <= Walk(root, w, n) < |key| && w in Elements(Abs(H(), Walk(root, w, n)))
    {
      WalkKeepsPresent(root, w, n);
    }

    /** `search`: exact-match walk from the root. */
    method Search(w: Word) returns (found: bool)
      requires Valid()
      ensures found <==> w in Elements(Contents())
    {
      var x := root;
      while x != -1
        invariant IsRef(H(), x) && Ordered(Abs(H(), x))
        invariant w in Elements(Contents()) <==> w in Elements(Abs(H(), x))
        decreases Measure(H(), x)
      {
        var comp := Cmp(w, key[x]);
        CmpZero(w, key[x]);
        if comp == 0 {
          return true;
        }
        LessTotal(w, key[x]);
        CmpFlip(w, key[x]);
        if comp > 0 {
          x := right[x];
        } else {
          x := left[x];
        }
      }
      return false;
    }

    /** `pulisci_albero`: every node is released and the tree becomes empty. */
    method Clear()
      modifies this
      ensures Valid() && Contents() == Leaf && key == []
    {
      key, left, right, root := [], [], [], -1;
      depth, bound := [], 0;
    }
  }
}
