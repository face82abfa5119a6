/** What holds of a whole tree: separators separate, leaves lie at one depth and form one chain in key
    order, and it is never higher than its number of keys allows. */
module TreeScan {
  import opened Collections
  import opened Pages
  import opened TreeModel

  // ----- Separators, depth, sharing

  /** Page `q` is `c` or below it. */
  ghost predicate Under(t: Tree, c: int, q: int)
    requires TreeOk(t) && q in t.shape
    decreases t.shape[t.root].level - t.shape[q].level
  {
    BelowRoot(t, q);
    q == c || (q != t.root && (ghost var i := IndexIn(t, q); Under(t, c, t.nodes[q].parentId)))
  }

  lemma {:induction false} UnderWithin(t: Tree, c: int, q: int)
    requires TreeOk(t) && q in t.shape && Under(t, c, q)
    ensures c in t.shape && t.shape[c].lo <= t.shape[q].lo && t.shape[q].hi <= t.shape[c].hi
    decreases t.shape[t.root].level - t.shape[q].level
  {
    assert PageOk(t, q);
    if q != c {
      BelowRoot(t, q);
      var i := IndexIn(t, q);
      UnderWithin(t, c, t.nodes[q].parentId);
    }
  }

  /** Every key below a child is less than the separator on the child's right, and not less than the
      separator on its left. */
  lemma SeparatorsSeparate(t: Tree, p: int, i: int, q: int, k: int)
    requires TreeOk(t) && p in t.shape && p in t.nodes && !t.nodes[p].isLeaf && 0 <= i < |t.nodes[p].keys|
    requires q in t.shape && q in t.nodes && t.nodes[q].isLeaf && k in t.nodes[q].keys
    ensures |t.nodes[p].children| == |t.nodes[p].keys| + 1
    ensures Under(t, t.nodes[p].children[i], q) ==> k < t.nodes[p].keys[i]
    ensures Under(t, t.nodes[p].children[i + 1], q) ==> t.nodes[p].keys[i] <= k
  {
    assert PageOk(t, p) && PageOk(t, q);
    ChildIs(t, p, i);
    ChildIs(t, p, i + 1);
    if Under(t, t.nodes[p].children[i], q) {
      UnderWithin(t, t.nodes[p].children[i], q);
    }
    if Under(t, t.nodes[p].children[i + 1], q) {
      UnderWithin(t, t.nodes[p].children[i + 1], q);
    }
  }

  ghost function Depth(t: Tree, q: int): nat
    requires TreeOk(t) && q in t.shape
    decreases t.shape[t.root].level - t.shape[q].level
  {
    BelowRoot(t, q);
    if q == t.root then 0 else (ghost var i := IndexIn(t, q); 1 + Depth(t, t.nodes[q].parentId))
  }

  lemma {:induction false} DepthIsLevel(t: Tree, q: int)
    requires TreeOk(t) && q in t.shape
    ensures Depth(t, q) == t.shape[t.root].level - t.shape[q].level
    decreases t.shape[t.root].level - t.shape[q].level
  {
    BelowRoot(t, q);
    if q != t.root {
      var i := IndexIn(t, q);
      DepthIsLevel(t, t.nodes[q].parentId);
    }
  }

  lemma LeavesAtOneDepth(t: Tree, p: int, q: int)
    requires TreeOk(t) && p in t.shape && p in t.nodes && q in t.shape && q in t.nodes && t.nodes[p].isLeaf
    requires t.nodes[q].isLeaf
    ensures Depth(t, p) == Depth(t, q)
  {
    assert PageOk(t, p) && PageOk(t, q);
    DepthIsLevel(t, p);
    DepthIsLevel(t, q);
  }

  /** No page is the child of two pages, or of one page twice. */
  lemma NoSharedPages(t: Tree, p: int, i: int, q: int, j: int)
    requires TreeOk(t) && p in t.shape && p in t.nodes && !t.nodes[p].isLeaf && q in t.shape && q in t.nodes
    requires !t.nodes[q].isLeaf
    requires 0 <= i < |t.nodes[p].children| && 0 <= j < |t.nodes[q].children|
    requires t.nodes[p].children[i] == t.nodes[q].children[j]
    ensures p == q && i == j
  {
    assert PageOk(t, p) && PageOk(t, q);
    ChildIs(t, p, i);
    ChildIs(t, q, j);
    var c := t.nodes[p].children[i];
    assert PageOk(t, c);
    SiblingsApart(t, p, i, j, t.shape[c].lo);
  }

  // ----- The chain of leaves

  /** The leaves that follow from leaf `p` on. */
  ghost function Chain(t: Tree, p: int): (c: seq<int>)
    requires TreeOk(t) && p in t.shape && p in t.nodes && t.nodes[p].isLeaf
    ensures c != [] && c[0] == p
    decreases SUP_KEY - t.shape[p].lo
  {
    assert PageOk(t, p);
    if t.nodes[p].nextLeaf == INVALID_PAGE_ID then [p]
    else
      assert t.nodes[p].nextLeaf in t.shape ==> PageOk(t, t.nodes[p].nextLeaf);
      [p] + Chain(t, t.nodes[p].nextLeaf)
  }

  /** The leaves of a chain are leaves of the tree, each beginning where the one before ends. */
  lemma {:induction false} ChainInOrder(t: Tree, p: int, i: int)
    requires TreeOk(t) && p in t.shape && p in t.nodes && t.nodes[p].isLeaf && 0 <= i < |Chain(t, p)|
    ensures
      var c := Chain(t, p);
      && c[i] in t.shape && c[i] in t.nodes && t.nodes[c[i]].isLeaf
      && (i + 1 < |c| ==> c[i + 1] in t.shape && t.shape[c[i + 1]].lo == t.shape[c[i]].hi)
      && (i + 1 == |c| ==> t.shape[c[i]].hi == SUP_KEY)
    decreases i
  {
    var next := t.nodes[p].nextLeaf;
    assert PageOk(t, p);
    assert next in t.shape ==> PageOk(t, next);
    if next != INVALID_PAGE_ID && i > 0 {
      ChainInOrder(t, next, i - 1);
    }
  }

  /** From the leaf of the least keys on, the chain meets every leaf of the tree. */
  lemma {:induction false} ChainMeetsLeaf(t: Tree, p: int, q: int)
    requires TreeOk(t) && p in t.shape && p in t.nodes && t.nodes[p].isLeaf
    requires q in t.shape && q in t.nodes && t.nodes[q].isLeaf && t.shape[p].lo <= t.shape[q].lo
    ensures q in Chain(t, p)
    decreases SUP_KEY - t.shape[p].lo
  {
    assert PageOk(t, p) && PageOk(t, q);
    if t.shape[q].lo < t.shape[p].hi {
      OnePerLevel(t, p, q, t.shape[q].lo);
    } else {
      var next := t.nodes[p].nextLeaf;
      assert PageOk(t, next);
      ChainMeetsLeaf(t, next, q);
      assert q in [p] + Chain(t, next);
    }
  }

  lemma ChainIsTheLeaves(t: Tree, p: int)
    requires TreeOk(t) && p in t.shape && p in t.nodes && t.nodes[p].isLeaf && t.shape[p].lo == MIN_KEY
    ensures forall q :: q in Chain(t, p) <==> q in t.shape && q in t.nodes && t.nodes[q].isLeaf
    ensures forall i, j :: 0 <= i < j < |Chain(t, p)| ==>
              Chain(t, p)[i] in t.shape && Chain(t, p)[j] in t.shape &&
                t.shape[Chain(t, p)[i]].hi <= t.shape[Chain(t, p)[j]].lo
  {
    var c := Chain(t, p);
    forall q ensures q in c <==> q in t.shape && q in t.nodes && t.nodes[q].isLeaf {
      if q in c {
        var i :| 0 <= i < |c| && c[i] == q;
        ChainInOrder(t, p, i);
      } else if q in t.shape && q in t.nodes && t.nodes[q].isLeaf {
        assert PageOk(t, q);
        ChainMeetsLeaf(t, p, q);
      }
    }
    forall i, j | 0 <= i < j < |c| ensures c[i] in t.shape && c[j] in t.shape && t.shape[c[i]].hi <= t.shape[c[j]].lo {
      ChainAscends(t, p, i, j);
    }
  }

  lemma {:induction false} ChainAscends(t: Tree, p: int, i: int, j: int)
    requires TreeOk(t) && p in t.shape && p in t.nodes && t.nodes[p].isLeaf && 0 <= i < j < |Chain(t, p)|
    ensures
      var c := Chain(t, p);
      c[i] in t.shape && c[j] in t.shape && t.shape[c[i]].hi <= t.shape[c[j]].lo
    decreases j - i
  {
    ChainInOrder(t, p, i);
    if i + 1 < j {
      ChainInOrder(t, p, i + 1);
      assert PageOk(t, Chain(t, p)[i + 1]);
      ChainAscends(t, p, i + 1, j);
    }
  }

  /** What a scan meets in a leaf, and where it goes from there. */
  lemma LeafHolds(t: Tree, p: int)
    requires Whole(t) && t.root != INVALID_PAGE_ID && p in t.shape && p in t.nodes && t.nodes[p].isLeaf
    ensures
      var n, s := t.nodes[p], t.shape[p];
      && Holds(t.contents, s.lo, s.hi, n.keys, n.values) && s.lo < s.hi <= SUP_KEY
      && if n.nextLeaf == INVALID_PAGE_ID then s.hi == SUP_KEY
         else
           && n.nextLeaf in t.shape && n.nextLeaf in t.nodes && t.nodes[n.nextLeaf].isLeaf
           && t.shape[n.nextLeaf].lo == s.hi < SUP_KEY
  {
    assert PageOk(t, p);
    assert t.nodes[p].nextLeaf in t.shape ==> PageOk(t, t.nodes[p].nextLeaf);
  }

  // ----- What a scan lists

  /** The pairs of the map with keys in [lo, hi), in key order. */
  ghost function Listing(m: map<int, int>, lo: int, hi: int): seq<(int, int)>
    decreases hi - lo, |m|
  {
    if lo >= hi then []
    else (if lo in m then [(lo, m[lo])] else []) + Listing(m, lo + 1, hi)
  }

  /** Ascending, each pair once, and exactly the pairs in range. */
  lemma {:induction false} ListingIsTheRange(m: map<int, int>, lo: int, hi: int)
    ensures forall i, j :: 0 <= i < j < |Listing(m, lo, hi)| ==> Listing(m, lo, hi)[i].0 < Listing(m, lo, hi)[j].0
    ensures forall k, v :: (k, v) in Listing(m, lo, hi) <==> k in m && m[k] == v && lo <= k < hi
    decreases hi - lo
  {
    if lo < hi {
      ListingIsTheRange(m, lo + 1, hi);
      var rest := Listing(m, lo + 1, hi);
      forall i | 0 <= i < |rest| ensures lo < rest[i].0 {
        var (k, v) := rest[i];
        assert (k, v) in rest;
      }
    }
  }

  lemma {:induction false} ListingSplits(m: map<int, int>, lo: int, mid: int, hi: int)
    requires lo <= mid <= hi
    ensures Listing(m, lo, hi) == Listing(m, lo, mid) + Listing(m, mid, hi)
    decreases mid - lo
  {
    if lo < mid {
      ListingSplits(m, lo + 1, mid, hi);
    }
  }

  lemma {:induction false} ListingNone(m: map<int, int>, lo: int, hi: int)
    requires forall k :: k in m ==> !(lo <= k < hi)
    ensures Listing(m, lo, hi) == []
    decreases hi - lo
  {
    if lo < hi {
      ListingNone(m, lo + 1, hi);
    }
  }

  /** The scan passes key `k`: the listing grows by it when it is in range. */
  lemma ListingGrows(m: map<int, int>, start: int, k: int, next: int)
    requires k in m && k < next && forall x :: x in m && k < x ==> next <= x
    ensures Listing(m, start, next) == Listing(m, start, k) + if start <= k then [(k, m[k])] else []
  {
    if start <= k {
      ListingSplits(m, start, k, next);
      ListingNone(m, k + 1, next);
    } else {
      ListingNone(m, start, next);
    }
  }

  lemma PassOver(m: map<int, int>, start: int, lo: int, next: int)
    requires lo <= next && forall k :: k in m ==> !(lo <= k < next)
    ensures Listing(m, start, next) == Listing(m, start, lo)
  {
    if start <= lo {
      ListingSplits(m, start, lo, next);
      ListingNone(m, lo, next);
    } else {
      ListingNone(m, start, next);
    }
  }

  /** Between neighbouring keys of a page, or a key and an end of its interval, the map has none. */
  lemma NothingBetween(m: map<int, int>, lo: int, hi: int, keys: seq<int>, values: seq<int>, i: int)
    requires Holds(m, lo, hi, keys, values) && lo < hi && 0 <= i <= |keys|
    ensures
      var next := if i < |keys| then keys[i] else hi;
      && (if i == 0 then lo <= next else keys[i - 1] < next)
      && forall k :: k in m && (if i == 0 then lo <= k else keys[i - 1] < k) ==> next <= k
  {
    forall k | k in m && (if i == 0 then lo <= k else keys[i - 1] < k) && k < hi
      ensures i < |keys| && keys[i] <= k
    {
      var j :| 0 <= j < |keys| && keys[j] == k;
    }
  }

  /** Nothing in range lies beyond. */
  lemma ListingEnds(m: map<int, int>, start: int, end: int, upto: int)
    requires start <= end < upto && forall k :: k in m && end < k ==> upto <= k
    ensures Listing(m, start, upto) == Listing(m, start, end + 1)
  {
    ListingSplits(m, start, end + 1, upto);
    ListingNone(m, end + 1, upto);
  }

  // ----- How high a tree can be

  function Power3(n: nat): nat {
    if n == 0 then 1 else 3 * Power3(n - 1)
  }

  ghost function KeysIn(t: Tree, lo: int, hi: int): set<int> {
    set k | k in t.contents && lo <= k < hi
  }

  lemma KeysApart(t: Tree, a: int, b: int, c: int)
    requires a <= b <= c
    ensures |KeysIn(t, a, c)| == |KeysIn(t, a, b)| + |KeysIn(t, b, c)|
  {
    assert KeysIn(t, a, c) == KeysIn(t, a, b) + KeysIn(t, b, c);
    assert KeysIn(t, a, b) !! KeysIn(t, b, c);
  }

  /** Every page below the root is responsible for 2 * 3^level keys at least. */
  lemma {:induction false} EnoughKeys(t: Tree, p: int)
    requires TreeOk(t) && t.under == INVALID_PAGE_ID && p in t.shape && p != t.root
    ensures |KeysIn(t, t.shape[p].lo, t.shape[p].hi)| >= 2 * Power3(t.shape[p].level)
    decreases t.shape[p].level
  {
    assert PageOk(t, p);
    var n, s := t.nodes[p], t.shape[p];
    if n.isLeaf {
      Pigeonhole(n.keys, KeysIn(t, s.lo, s.hi));
    } else {
      ChildHasEnough(t, p, 0);
      ChildHasEnough(t, p, 1);
      ChildHasEnough(t, p, 2);
      KeysApart(t, s.lo, n.keys[0], n.keys[1]);
      KeysApart(t, s.lo, n.keys[1], HiOf(n.keys, s.hi, 2));
      KeysApart(t, s.lo, HiOf(n.keys, s.hi, 2), s.hi);
    }
  }

  lemma {:induction false} ChildHasEnough(t: Tree, p: int, i: int)
    requires TreeOk(t) && t.under == INVALID_PAGE_ID && p in t.shape && p in t.nodes && !t.nodes[p].isLeaf
    requires 0 <= i < |t.nodes[p].children| && i <= |t.nodes[p].keys|
    ensures t.shape[p].level > 0
    ensures |KeysIn(t, LoOf(t.nodes[p].keys, t.shape[p].lo, i), HiOf(t.nodes[p].keys, t.shape[p].hi, i))|
            >= 2 * Power3(t.shape[p].level - 1)
    decreases t.shape[p].level, 0
  {
    assert PageOk(t, p);
    ChildIs(t, p, i);
    BelowRoot(t, p);
    EnoughKeys(t, t.nodes[p].children[i]);
  }

  /** A tree of h >= 2 levels holds 4 * 3^(h - 2) keys at least. */
  lemma HeightBound(t: Tree)
    requires Whole(t) && t.root != INVALID_PAGE_ID
    ensures t.root in t.shape
    ensures t.shape[t.root].level > 0 ==> |t.contents| >= 4 * Power3(t.shape[t.root].level - 1)
  {
    assert PageOk(t, t.root);
    var n := t.nodes[t.root];
    if t.shape[t.root].level > 0 {
      ChildHasEnough(t, t.root, 0);
      ChildHasEnough(t, t.root, 1);
      KeysApart(t, MIN_KEY, n.keys[0], HiOf(n.keys, SUP_KEY, 1));
      KeysApart(t, MIN_KEY, HiOf(n.keys, SUP_KEY, 1), SUP_KEY);
      assert KeysIn(t, MIN_KEY, SUP_KEY) == t.contents.Keys;
    }
  }
}
