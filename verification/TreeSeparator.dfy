/** Raising a separator to the least key on its right. */
module TreeSeparator {
  import opened Pages
  import opened TreeModel

  /** `s` raised to `r` wherever it bounds an interval. */
  function Raised(b: int, s: int, r: int): int { if b == s then r else b }

  /** Key `i` of page `q`, and with it every interval that ends or begins there, goes up to `r`. */
  ghost function RaiseSeparator(t: Tree, q: int, i: int, r: int): Tree
    requires q in t.nodes && 0 <= i < |t.nodes[q].keys|
  {
    var n, s := t.nodes[q], t.nodes[q].keys[i];
    t.(nodes := t.nodes[q := n.(keys := n.keys[i := r])],
       shape := map p | p in t.shape :: Info(t.shape[p].level, Raised(t.shape[p].lo, s, r),
                                             Raised(t.shape[p].hi, s, r)))
  }

  /** Leaf `leaf` begins at key `i` of `q`, and `r` is its least key. */
  ghost predicate CanRaise(t: Tree, q: int, i: int, leaf: int, r: int) {
    && TreeOk(t) && q in t.shape && q in t.nodes && !t.nodes[q].isLeaf && 0 <= i < |t.nodes[q].keys|
    && leaf in t.shape && leaf in t.nodes && t.nodes[leaf].isLeaf && PageOk(t, leaf) && PageOk(t, q)
    && t.shape[leaf].lo == t.nodes[q].keys[i]
    && |t.nodes[leaf].keys| > 0 && r == t.nodes[leaf].keys[0]
  }

  /** No interval ends strictly inside the leaf's. */
  lemma {:induction false} UpperBoundOutside(t: Tree, x: int, leaf: int)
    requires TreeOk(t) && x in t.shape && leaf in t.shape && leaf in t.nodes && t.nodes[leaf].isLeaf
    ensures t.shape[x].hi <= t.shape[leaf].lo || t.shape[x].hi >= t.shape[leaf].hi
    decreases t.shape[t.root].level - t.shape[x].level
  {
    assert PageOk(t, x) && PageOk(t, leaf);
    if x != t.root {
      var k, p := IndexIn(t, x), t.nodes[x].parentId;
      BelowRoot(t, x);
      if k < |t.nodes[p].keys| {
        SeparatorOutside(t, p, k, leaf);
      } else {
        UpperBoundOutside(t, p, leaf);
      }
    }
  }

  /** A key is the separator at one place only. */
  lemma SeparatorOnce(t: Tree, q: int, i: int, x: int, j: int)
    requires TreeOk(t) && q in t.shape && q in t.nodes && !t.nodes[q].isLeaf && 0 <= i < |t.nodes[q].keys|
    requires x in t.shape && x in t.nodes && !t.nodes[x].isLeaf && 0 <= j < |t.nodes[x].keys|
    requires t.nodes[x].keys[j] == t.nodes[q].keys[i]
    ensures x == q && j == i
  {
    assert PageOk(t, q) && PageOk(t, x);
    if t.shape[x].level < t.shape[q].level {
      SeparatorOutside(t, q, i, x);
    } else if t.shape[q].level < t.shape[x].level {
      SeparatorOutside(t, x, j, q);
    } else {
      OnePerLevel(t, q, x, t.nodes[q].keys[i]);
    }
  }

  /** The keys of every page are its old ones with the separator raised. */
  lemma RaisedKeys(t: Tree, q: int, i: int, leaf: int, r: int, x: int)
    requires CanRaise(t, q, i, leaf, r) && x in t.shape && x in t.nodes && !t.nodes[x].isLeaf
    ensures
      var keys, s := t.nodes[x].keys, t.nodes[q].keys[i];
      var keys' := RaiseSeparator(t, q, i, r).nodes[x].keys;
      |keys'| == |keys| && forall j :: 0 <= j < |keys| ==> keys'[j] == Raised(keys[j], s, r)
  {
    var keys, s := t.nodes[x].keys, t.nodes[q].keys[i];
    forall j | 0 <= j < |keys| && keys[j] == s ensures x == q && j == i {
      SeparatorOnce(t, q, i, x, j);
    }
  }

  /** Bounds and separators keep their order. */
  lemma RaisedOrder(s: int, r: int, hi: int, a: int, b: int)
    requires s <= r < hi && a < b && (b <= s || hi <= b)
    ensures Raised(a, s, r) < Raised(b, s, r)
  {
  }

  lemma RaisedInnerOk(t: Tree, q: int, i: int, leaf: int, r: int, x: int)
    requires CanRaise(t, q, i, leaf, r) && x in t.shape && x in t.nodes && !t.nodes[x].isLeaf
    ensures
      var t' := RaiseSeparator(t, q, i, r);
      Spans(t'.shape, t.shape[x].level - 1, t'.shape[x].lo, t'.shape[x].hi, t'.nodes[x].keys, t'.nodes[x].children)
  {
    var t' := RaiseSeparator(t, q, i, r);
    var s, end := t.nodes[q].keys[i], t.shape[leaf].hi;
    var level, lo, hi := t.shape[x].level - 1, t.shape[x].lo, t.shape[x].hi;
    var keys, children := t.nodes[x].keys, t.nodes[x].children;
    var lo', hi', keys' := t'.shape[x].lo, t'.shape[x].hi, t'.nodes[x].keys;
    assert PageOk(t, x);
    RaisedKeys(t, q, i, leaf, r, x);
    UpperBoundOutside(t, x, leaf);
    forall j | 0 <= j < |keys| ensures keys[j] <= s || end <= keys[j] {
      SeparatorOutside(t, x, j, leaf);
    }
    forall a, b | 0 <= a < b < |keys'| ensures keys'[a] < keys'[b] {
      RaisedOrder(s, r, end, keys[a], keys[b]);
    }
    forall j | 0 <= j < |keys'| ensures lo' < keys'[j] < hi' {
      RaisedOrder(s, r, end, lo, keys[j]);
      RaisedOrder(s, r, end, keys[j], hi);
    }
    forall j | 0 <= j < |children| ensures SpanAt(t'.shape, level, lo', hi', keys', children, j) {
      assert SpanAt(t.shape, level, lo, hi, keys, children, j);
    }
  }

  lemma RaisedLeafHolds(t: Tree, q: int, i: int, leaf: int, r: int, x: int)
    requires CanRaise(t, q, i, leaf, r) && x in t.shape && x in t.nodes && t.nodes[x].isLeaf
    ensures
      var t' := RaiseSeparator(t, q, i, r);
      Holds(t.contents, t'.shape[x].lo, t'.shape[x].hi, t.nodes[x].keys, t.nodes[x].values)
  {
    var t' := RaiseSeparator(t, q, i, r);
    var s := t.nodes[q].keys[i];
    assert PageOk(t, x);
    if t.shape[x].lo == s {
      OnePerLevel(t, x, leaf, s);
    }
    var keys := t.nodes[x].keys;
    forall k | k in t.contents && t'.shape[x].lo <= k < t'.shape[x].hi ensures k in keys {
      assert s <= k < r ==> k in t.nodes[leaf].keys;
    }
  }

  lemma RaiseSeparatorOk(t: Tree, q: int, i: int, leaf: int, r: int)
    requires CanRaise(t, q, i, leaf, r)
    ensures TreeOk(RaiseSeparator(t, q, i, r))
  {
    var t' := RaiseSeparator(t, q, i, r);
    assert PageOk(t, t.root);
    forall x | x in t'.shape ensures PageOk(t', x) {
      RaisedPageOk(t, q, i, leaf, r, x);
    }
  }

  lemma RaisedPageOk(t: Tree, q: int, i: int, leaf: int, r: int, x: int)
    requires CanRaise(t, q, i, leaf, r) && x in t.shape
    ensures PageOk(RaiseSeparator(t, q, i, r), x)
  {
    var t' := RaiseSeparator(t, q, i, r);
    var s, end := t.nodes[q].keys[i], t.shape[leaf].hi;
    assert PageOk(t, x);
    UpperBoundOutside(t, x, leaf);
    RaisedOrder(s, r, end, t.shape[x].lo, t.shape[x].hi);
    if t.nodes[x].isLeaf {
      RaisedLeafHolds(t, q, i, leaf, r, x);
    } else {
      RaisedKeys(t, q, i, leaf, r, x);
      RaisedInnerOk(t, q, i, leaf, r, x);
    }
  }

  lemma RaisedIsWhole(t: Tree, q: int, i: int, leaf: int, r: int)
    requires Whole(t) && t.root != INVALID_PAGE_ID && CanRaise(t, q, i, leaf, r)
    ensures Whole(RaiseSeparator(t, q, i, r)) && Storable(RaiseSeparator(t, q, i, r).nodes[q])
  {
    RaiseSeparatorOk(t, q, i, leaf, r);
  }
}
