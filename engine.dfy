/**
 * The dictionary tree, the tree of candidate words, the temporary list that
 * carries candidates from one tree to the next, the counters `num_nodes_list`
 * and `num_filtered`, and the constraint tables, with the operations of
 * `main.c` that move words between them.
 */
module Engine {
  import opened Words
  import opened Trees
  import opened Arena
  import opened Constraints
  import opened Evaluation
  import opened Filters

  class Engine {
    const len: nat
    const dict: Bst
    const filt: Bst
    const cons: Filter
    /** The temporary list, head first. */
    var list: seq<Word>
    var numNodesList: int
    var numFiltered: int

    /**
     * The trees and tables are well formed and sized for words of length
     * `len`, the two trees are distinct objects, and `num_nodes_list` is
     * the length of the list.
     */
    ghost predicate Valid()
      reads this, dict, filt, cons, cons.notHere, cons.minTimes, cons.exactTimes
    {
      dict != filt && dict.Valid() && filt.Valid() && cons.Valid() &&
      dict.len == len && filt.len == len && cons.len == len &&
      Listed()
    }

    /** `num_nodes_list` counts the list cells, and every listed word has length `len`. */
    ghost predicate Listed()
      reads this
    {
      numNodesList == |list| && forall j | 0 <= j < |list| :: |list[j]| == len
    }

    /** The knowledge held in the constraint tables. */
    ghost function Known(): (k: Knowledge)
      reads cons, cons.here, cons.notHere, cons.minTimes, cons.exactTimes
      requires cons.Valid() && cons.len == len
      ensures Sized(k, len)
    {
      cons.View()
    }

    /** The program's start: empty trees, an empty list and reset tables. */
    constructor (len: nat)
      ensures Valid() && this.len == len && list == [] && numFiltered == 0
      ensures dict.Contents() == Leaf && filt.Contents() == Leaf && Known() == Empty(len)
      ensures fresh(dict) && fresh(filt) && fresh(cons)
      ensures fresh(cons.here) && fresh(cons.notHere) && fresh(cons.minTimes) && fresh(cons.exactTimes)
    {
      this.len := len;
      dict := new Bst(len);
      filt := new Bst(len);
      cons := new Filter(len);
      list, numNodesList, numFiltered := [], 0, 0;
    }

    /** `push`: append a word at the tail of the list and count it in both counters. */
    method Push(w: Word)
      requires Listed() && |w| == len
      modifies this
      ensures Listed()
      ensures list == old(list) + [w]
      ensures numNodesList == old(numNodesList) + 1 && numFiltered == old(numFiltered) + 1
    {
      list := list + [w];
      numNodesList := numNodesList + 1;
      numFiltered := numFiltered + 1;
    }

    static lemma TreeWords(h: Heap, i: int, n: nat)
      requires WellFormed(h) && IsRef(h, i) && forall j | 0 <= j < |h.key| :: |h.key[j]| == n
      ensures OfLength(Flatten(Abs(h, i)), n)
    {
      AbsKeys(h, i);
    }

    /**
     * `inOrder`: visit the tree hanging from node i of b in order and push
     * every word that passes the filter. `h` is b's arena and `k` the
     * knowledge in the tables; neither changes.
     */
    method InOrder(b: Bst, i: int, ghost h: Heap, ghost k: Knowledge)
      requires Listed() && b.H() == h && WellFormed(h) && IsRef(h, i) && forall j | 0 <= j < |h.key| :: |h.key[j]| == len
      requires cons.Valid() && cons.len == len && cons.View() == k
      modifies this
      ensures Listed()
      ensures OfLength(Flatten(Abs(h, i)), |k.here|)
      ensures list == old(list) + Survivors(Flatten(Abs(h, i)), k)
      ensures numFiltered == old(numFiltered) + (|list| - |old(list)|)
      decreases Measure(h, i)
    {
      TreeWords(h, i, len);
      if i != -1 {
        TreeWords(h, h.left[i], len);
        TreeWords(h, h.right[i], len);
        InOrder(b, b.left[i], h, k);
        ghost var first := list;
        Visit(b, i, h, k);
        ghost var mid := list;
        InOrder(b, b.right[i], h, k);
        assert Abs(h, i) == Node(Abs(h, h.left[i]), h.key[i], Abs(h, h.right[i]));
        InOrderJoins(Flatten(Abs(h, h.left[i])), h.key[i], Flatten(Abs(h, h.right[i])), k, old(list), first, mid, list);
      } else {
        assert Flatten(Abs(h, i)) == [];
      }
    }

    /** The visit of one node in `inOrder`: push its word when it passes the filter. */
    method Visit(b: Bst, i: int, ghost h: Heap, ghost k: Knowledge)
      requires Listed() && b.H() == h && 0 <= i < |h.key| && |h.key[i]| == len
      requires cons.Valid() && cons.len == len && cons.View() == k
      modifies this
      ensures Listed()
      ensures list == old(list) + (if Satisfies(k, h.key[i]) then [h.key[i]] else [])
      ensures numFiltered == old(numFiltered) + (|list| - |old(list)|)
    {
      var ok := cons.Respects(b.key[i]);
      if ok {
        Push(b.key[i]);
      }
    }

    /** The words a node's visit contributes, between those of its two subtrees. */
    static lemma InOrderJoins(l: seq<Word>, x: Word, r: seq<Word>, k: Knowledge, l0: seq<Word>, l1: seq<Word>, l2: seq<Word>, l3: seq<Word>)
      requires Sized(k, |k.here|) && OfLength(l, |k.here|) && |x| == |k.here| && OfLength(r, |k.here|)
      requires l1 == l0 + Survivors(l, k)
      requires l2 == l1 + (if Satisfies(k, x) then [x] else [])
      requires l3 == l2 + Survivors(r, k)
      ensures OfLength(l + [x] + r, |k.here|)
      ensures l3 == l0 + Survivors(l + [x] + r, k)
    {
      var here := if Satisfies(k, x) then [x] else [];
      assert l + [x] + r == l + ([x] + r);
      SurvivorsAppend(l, [x] + r, k);
      SurvivorsCons(x, r, k);
      Regroup(l0, Survivors(l, k), here, Survivors(r, k));
    }

    static lemma Regroup(a: seq<Word>, b: seq<Word>, c: seq<Word>, d: seq<Word>)
      ensures ((a + b) + c) + d == a + (b + (c + d))
    {
    }

    /** Free the head cell of the list and uncount it. */
    method DropHead()
      requires Listed() && list != []
      modifies this
      ensures Listed() && list == old(list)[1..]
      ensures numNodesList == old(numNodesList) - 1 && numFiltered == old(numFiltered)
    {
      list := list[1..];
      numNodesList := numNodesList - 1;
    }

    /** `pulisci_lista`: free the list cells one by one. */
    method ClearList()
      requires Listed()
      modifies this
      ensures Listed() && list == [] && numNodesList == 0 && numFiltered == old(numFiltered)
    {
      while list != []
        invariant Listed() && numFiltered == old(numFiltered)
        decreases |list|
      {
        DropHead();
      }
    }

    static lemma DropAfter(L: seq<Word>, a: nat, b: nat)
      requires a < |L| && b <= |L| - a - 1
      ensures L[a..][1..][b..] == L[a + 1 + b..]
    {
    }

    /** One node of `list_to_bst`: a new candidate node for the head word, over the left subtree l; the head cell is freed. */
    method HangHead(l: int, ghost d: nat) returns (z: int)
      requires Listed() && list != [] && filt.Shape() && filt.len == len
      requires l == -1 || (0 <= l < |filt.key| && d < filt.depth[l])
      modifies this, filt
      ensures Listed() && list == old(list)[1..] && numFiltered == old(numFiltered)
      ensures filt.Shape() && filt.root == old(filt.root) && z == |old(filt.key)|
      ensures filt.key == old(filt.key) + [old(list)[0]] && filt.left == (old(filt.left) + [-1])[z := l]
      ensures filt.right == old(filt.right) + [-1] && filt.depth == old(filt.depth) + [d]
    {
      z := filt.NewNode(list[0], d);
      filt.SetLeft(z, l);
      DropHead();
    }

    /**
     * `list_to_bst`: build a balanced tree from the first n list cells, the
     * left subtree from the first n/2 of them, and consume those cells. New
     * nodes are appended to the candidate arena at depth d and below; the
     * nodes already there are left alone.
     */
    method ListToBst(n: int, ghost d: nat) returns (r: int)
      requires Listed() && n <= |list| && filt.Shape() && filt.len == len
      modifies this, filt
      ensures Listed() && filt.Shape() && filt.root == old(filt.root) && numFiltered == old(numFiltered)
      ensures var m := if n < 0 then 0 else n;
        list == old(list)[m..] && Extends(old(filt.H()), filt.H(), r, d, old(list)[..m])
      decreases n
    {
      if n <= 0 {
        assert old(list)[..0] == [];
        ExtendsEmpty(filt.H(), d);
        return -1;
      }
      ghost var L := list;
      ghost var h0 := filt.H();
      var l := ListToBst(n / 2, d + 1);
      ghost var h1 := filt.H();
      var z := HangHead(l, d);
      ghost var h2 := filt.H();
      var rr := ListToBst(n - n / 2 - 1, d + 1);
      ghost var h3 := filt.H();
      assert h3.depth[z] == h2.depth[z];
      filt.SetRight(z, rr);
      r := z;
      ExtendsNode(h0, h1, h2, h3, filt.H(), z, l, rr, d, L, n);
      DropAfter(L, n / 2, n - n / 2 - 1);
    }

    /**
     * `genera_filtrate`: the candidate tree becomes the balanced tree of the
     * dictionary words that pass the filter, in order, and `num_filtered`
     * counts them.
     */
    method GenerateFiltered()
      requires Valid() && list == []
      modifies this, filt
      ensures Valid() && list == []
      ensures filt.Contents() == Balanced(Survivors(dict.Words(), Known()))
      ensures numFiltered == |Survivors(dict.Words(), Known())|
    {
      ghost var k := Known();
      ghost var D := dict.Contents();
      ghost var s := dict.Words();
      Collect(dict, s, k);
      assert dict.Contents() == D && Known() == k;
      RebuildKeepsOrder(D, k);
      Rebuild();
      assert dict.Words() == s && dict.Contents() == D && Known() == k;
    }

    /**
     * `filtra_albero`: the candidate tree becomes the balanced tree of its
     * own words that pass the filter, in order, and `num_filtered` counts them.
     */
    method FilterTree()
      requires Valid() && list == []
      modifies this, filt
      ensures Valid() && list == []
      ensures filt.Contents() == Balanced(Survivors(old(filt.Words()), Known()))
      ensures numFiltered == |Survivors(old(filt.Words()), Known())|
    {
      ghost var k := Known();
      ghost var D := dict.Contents();
      ghost var F := filt.Contents();
      ghost var s := filt.Words();
      Collect(filt, s, k);
      assert filt.Contents() == F && dict.Contents() == D && Known() == k;
      RebuildKeepsOrder(F, k);
      Rebuild();
      assert dict.Contents() == D && Known() == k;
      ClearList();
      assert dict.Contents() == D && Known() == k;
    }

    /** The first step of both rebuilds: list the words of b that pass the filter and count them. */
    method Collect(b: Bst, ghost s: seq<Word>, ghost k: Knowledge)
      requires Listed() && list == [] && b.Shape() && b.len == len && cons.Valid() && cons.len == len
      requires b.Words() == s && Known() == k
      modifies this
      ensures Listed() && OfLength(s, |k.here|) && Sized(k, |k.here|)
      ensures list == Survivors(s, k) && numFiltered == |list|
    {
      numFiltered := 0;
      InOrder(b, b.root, b.H(), k);
    }

    /**
     * The final step of both rebuilds: `pulisci_albero` empties the candidate
     * tree, and it becomes the balanced tree of the whole list.
     */
    method Rebuild()
      requires Listed() && filt.len == len
      modifies this, filt
      ensures Listed() && list == [] && numFiltered == old(numFiltered)
      ensures filt.Shape() && filt.Contents() == Balanced(old(list))
    {
      ghost var L := list;
      filt.Clear();
      var r := ListToBst(numNodesList, 0);
      filt.root := r;
      assert L[..|L|] == L;
    }

    /** The balanced tree of the survivors of an ordered tree t is ordered. */
    static lemma RebuildKeepsOrder(t: Tree, k: Knowledge)
      requires Sized(k, |k.here|) && OfLength(Flatten(t), |k.here|)
      requires Ordered(t)
      ensures Ordered(Balanced(Survivors(Flatten(t), k)))
    {
      var L := Survivors(Flatten(t), k);
      OrderedIffSorted(t);
      SurvivorsSorted(Flatten(t), k);
      BalancedOrdered(L);
    }

    /** `insert_filtrate`: count the word and hang it in the candidate tree. */
    method InsertFiltered(w: Word)
      requires filt.Valid() && |w| == filt.len && w !in Elements(filt.Contents())
      modifies this, filt
      ensures filt.Valid() && filt.Contents() == InsertT(old(filt.Contents()), w)
      ensures Elements(filt.Contents()) == old(Elements(filt.Contents())) + {w}
      ensures numFiltered == old(numFiltered) + 1
      ensures list == old(list) && numNodesList == old(numNodesList)
    {
      numFiltered := numFiltered + 1;
      filt.Insert(w);
    }

    /**
     * `insert`: add a new word to the dictionary; during a game, also to the
     * candidate tree when it passes the filter.
     */
    method Insert(w: Word, game: bool)
      requires Valid() && |w| == len && w !in Elements(dict.Contents())
      requires game ==> w !in Elements(filt.Contents())
      modifies this, dict, filt
      ensures Valid() && list == old(list)
      ensures dict.Contents() == InsertT(old(dict.Contents()), w)
      ensures var passes := game && Satisfies(Known(), w);
        (passes ==> filt.Contents() == InsertT(old(filt.Contents()), w) && numFiltered == old(numFiltered) + 1) &&
        (!passes ==> filt.Contents() == old(filt.Contents()) && numFiltered == old(numFiltered))
    {
      dict.Insert(w);
      if game {
        var ok := cons.Respects(w);
        if ok {
          InsertFiltered(w);
        }
      }
    }

    /**
     * `confronto`: evaluate the guess g against the target t and update the
     * tables. Unless g is the target, rebuild the candidate tree from the
     * dictionary when `flag` is set and from itself otherwise.
     */
    method Compare(g: Word, t: Word, flag: bool) returns (out: seq<char>, solved: bool)
      requires Valid() && list == [] && |g| == len && |t| == len
      modifies this, filt, cons.here, cons.notHere, cons.minTimes, cons.exactTimes
      ensures Valid() && list == []
      ensures out == Feedback(g, t) && (solved <==> g == t)
      ensures Known() == Update(old(Known()), g, t)
      ensures solved ==> filt.Contents() == old(filt.Contents()) && numFiltered == old(numFiltered)
      ensures !solved && flag ==> filt.Contents() == Balanced(Survivors(dict.Words(), Known()))
      ensures !solved && !flag ==> filt.Contents() == Balanced(Survivors(old(filt.Words()), Known()))
      ensures !solved ==> numFiltered == |Flatten(filt.Contents())|
    {
      out, solved := cons.Evaluate(g, t);
      if !solved {
        if flag {
          GenerateFiltered();
        } else {
          FilterTree();
        }
        BalancedFlatten(Survivors(if flag then dict.Words() else old(filt.Words()), Known()));
      }
    }
  }
}
