/** Splitting a page, and growing a new root first when the page has no parent. */
module TreeSplit {
  import opened Collections
  import opened Pages
  import opened TreeModel
  import opened TreeEdits

  /** The listed pages get a new parent. */
  function Reparent(nodes: map<int, Node>, children: seq<int>, p: int): map<int, Node> {
    map c | c in nodes :: if c in children then nodes[c].(parentId := p) else nodes[c]
  }

  /** `n` gains key `sep` at position `i` and child `r` behind it. */
  function ChildAdded(n: Node, i: int, sep: int, r: int): Node
    requires 0 <= i <= |n.keys| && i < |n.children|
  {
    n.(keys := InsertAt(n.keys, i, sep), children := InsertAt(n.children, i + 1, r))
  }

  /** Page `p`, child `i` of its parent, becomes `left`, and a new page `r` behind it `right`. */
  ghost function SplitPage(t: Tree, p: int, i: int, r: int, left: Node, right: Node, sep: int): Tree
    requires p in t.nodes && p in t.shape && t.nodes[p].parentId in t.nodes
    requires 0 <= i <= |t.nodes[t.nodes[p].parentId].keys| && i < |t.nodes[t.nodes[p].parentId].children|
  {
    var q, s := t.nodes[p].parentId, t.shape[p];
    t.(nodes := Reparent(t.nodes, right.children, r)[p := left][r := right][q := ChildAdded(t.nodes[q], i, sep, r)],
       shape := t.shape[p := s.(hi := sep)][r := Info(s.level, sep, s.hi)],
       over := q, under := INVALID_PAGE_ID)
  }

  /** What a split starts from: only the page split may be too full, only its parent too short. */
  ghost predicate CanSplit(t: Tree, p: int, i: int, r: int, left: Node, right: Node, sep: int) {
    && TreeOk(t) && p in t.shape && p in t.nodes && p != t.root && PageOk(t, p)
    && r >= 0 && r !in t.shape
    && (var n, q := t.nodes[p], t.nodes[p].parentId;
        && q in t.nodes && q in t.shape && PageOk(t, q) && !t.nodes[q].isLeaf
        && (t.over == INVALID_PAGE_ID || t.over == p) && (t.under == INVALID_PAGE_ID || t.under == q)
        && 0 <= i < |t.nodes[q].children| == |t.nodes[q].keys| + 1 && t.nodes[q].children[i] == p
        && left.isLeaf == right.isLeaf == n.isLeaf
        && left.pageId == p && right.pageId == r && left.parentId == right.parentId == q
        && left.children + right.children == n.children
        && t.shape[p].lo < sep < t.shape[p].hi)
  }

  lemma SplitParentOwns(t: Tree, p: int, i: int, r: int, left: Node, right: Node, sep: int)
    requires CanSplit(t, p, i, r, left, right, sep)
    ensures
      var t', q := SplitPage(t, p, i, r, left, right, sep), t.nodes[p].parentId;
      Owned(t'.nodes, t'.nodes[q].children, q)
  {
    var t', q := SplitPage(t, p, i, r, left, right, sep), t.nodes[p].parentId;
    ChildrenOfPage(t, p, left, right);
    ChildIs(t, q, i);
    var children' := t'.nodes[q].children;
    forall j | 0 <= j < |children'| ensures children'[j] in t'.nodes && t'.nodes[children'[j]].parentId == q {
      InsertAtAt(t.nodes[q].children, i + 1, r, j);
      if j != i + 1 {
        ChildIs(t, q, if j <= i then j else j - 1);
      }
    }
  }

  lemma SplitParentOk(t: Tree, p: int, i: int, r: int, left: Node, right: Node, sep: int)
    requires CanSplit(t, p, i, r, left, right, sep)
    ensures PageOk(SplitPage(t, p, i, r, left, right, sep), t.nodes[p].parentId)
  {
    var q := t.nodes[p].parentId;
    var n, s := t.nodes[q], t.shape[q];
    var t' := SplitPage(t, p, i, r, left, right, sep);
    ChildIs(t, q, i);
    SpansSplit(t.shape, s.level - 1, s.lo, s.hi, n.keys, n.children, i, r, sep);
    SplitParentOwns(t, p, i, r, left, right, sep);
    if q != t.root {
      var k := IndexIn(t, q);
    }
  }

  lemma ChildrenOfPage(t: Tree, p: int, left: Node, right: Node)
    requires PageOk(t, p) && left.children + right.children == t.nodes[p].children
    ensures forall c :: c in right.children ==> c in t.nodes && t.nodes[c].parentId == p
    ensures forall c :: c in t.nodes[p].children <==> c in left.children || c in right.children
  {
    var n := t.nodes[p];
    forall c | c in right.children ensures c in t.nodes && t.nodes[c].parentId == p {
      var j :| 0 <= j < |right.children| && right.children[j] == c;
      assert n.children[|left.children| + j] == c;
    }
  }

  lemma BystanderChildren(t: Tree, p: int, i: int, r: int, left: Node, right: Node, sep: int, x: int)
    requires CanSplit(t, p, i, r, left, right, sep)
    requires x in t.shape && x != p && x != t.nodes[p].parentId && PageOk(t, x) && !t.nodes[x].isLeaf
    ensures SameChildren(t, SplitPage(t, p, i, r, left, right, sep), x)
  {
    var t' := SplitPage(t, p, i, r, left, right, sep);
    ChildrenOfPage(t, p, left, right);
    var n := t.nodes[x];
    forall j | 0 <= j < |n.children|
      ensures
        var c := n.children[j];
        c in t.shape && c in t'.shape && t'.shape[c] == t.shape[c] && c in t'.nodes && t'.nodes[c].parentId == x
    {
      ChildIs(t, x, j);
    }
  }

  lemma BystanderParent(t: Tree, p: int, i: int, r: int, left: Node, right: Node, sep: int, x: int)
    requires CanSplit(t, p, i, r, left, right, sep)
    requires x in t.shape && x != p && x != t.nodes[p].parentId
    ensures x in t.nodes && ParentOk(SplitPage(t, p, i, r, left, right, sep), x)
  {
    assert PageOk(t, x);
    ChildrenOfPage(t, p, left, right);
    if x != t.root && t.nodes[x].parentId == t.nodes[p].parentId {
      var k := IndexIn(t, x);
      assert InsertAt(t.nodes[t.nodes[p].parentId].children, i + 1, r)[if k <= i then k else k + 1] == x;
    }
  }

  lemma BystanderOk(t: Tree, p: int, i: int, r: int, left: Node, right: Node, sep: int, x: int)
    requires CanSplit(t, p, i, r, left, right, sep)
    requires x in t.shape && x != p && x != t.nodes[p].parentId
    ensures PageOk(SplitPage(t, p, i, r, left, right, sep), x)
  {
    assert PageOk(t, x);
    BystanderParent(t, p, i, r, left, right, sep, x);
    if !t.nodes[x].isLeaf {
      BystanderChildren(t, p, i, r, left, right, sep, x);
    }
    StillOk(t, SplitPage(t, p, i, r, left, right, sep), x);
  }

  lemma SplitOk(t: Tree, p: int, i: int, r: int, left: Node, right: Node, sep: int)
    requires CanSplit(t, p, i, r, left, right, sep)
    requires PageOk(SplitPage(t, p, i, r, left, right, sep), p) && PageOk(SplitPage(t, p, i, r, left, right, sep), r)
    ensures TreeOk(SplitPage(t, p, i, r, left, right, sep))
  {
    var t' := SplitPage(t, p, i, r, left, right, sep);
    SplitParentOk(t, p, i, r, left, right, sep);
    forall x | x in t'.shape ensures PageOk(t', x) {
      if x != p && x != r && x != t.nodes[p].parentId {
        BystanderOk(t, p, i, r, left, right, sep, x);
      }
    }
  }

  // ----- The two kinds of page

  const SPLIT := (MAX_KEYS + 2) / 2      // keys an over-full leaf keeps
  const MIDDLE := (MAX_KEYS + 1) / 2     // the key an over-full inner page passes up

  function LeftLeaf(n: Node, r: int): Node
    requires |n.keys| == |n.values| == MAX_KEYS + 1
  {
    n.(keys := n.keys[..SPLIT], values := n.values[..SPLIT], nextLeaf := r)
  }

  function RightLeaf(n: Node, r: int): Node
    requires |n.keys| == |n.values| == MAX_KEYS + 1
  {
    Node(true, r, n.parentId, n.keys[SPLIT..], n.values[SPLIT..], [], n.nextLeaf)
  }

  function LeftInner(n: Node): Node
    requires |n.keys| + 1 == |n.children| == MAX_KEYS + 2
  {
    n.(keys := n.keys[..MIDDLE], children := n.children[..MIDDLE + 1])
  }

  function RightInner(n: Node, r: int): Node
    requires |n.keys| + 1 == |n.children| == MAX_KEYS + 2
  {
    Node(false, r, n.parentId, n.keys[MIDDLE + 1..], [], n.children[MIDDLE + 1..], INVALID_PAGE_ID)
  }

  /** An over-full leaf of five keys keeps three and passes two on; an over-full inner page keeps two, passes
      two on, and the one between them up. Nothing is lost. */
  lemma SplitShares(n: Node, r: int)
    ensures |n.keys| == |n.values| == 5 ==>
              var left, right := LeftLeaf(n, r), RightLeaf(n, r);
              && |left.keys| == 3 && left.keys + right.keys == n.keys && left.values + right.values == n.values
              && left.nextLeaf == r && right.nextLeaf == n.nextLeaf
    ensures |n.keys| == 5 && |n.children| == 6 ==>
              var left, right := LeftInner(n), RightInner(n, r);
              && |left.keys| == 2 && left.keys + [n.keys[MIDDLE]] + right.keys == n.keys
              && |left.children| == 3 && left.children + right.children == n.children
  {
  }

  lemma SplitLeafOk(t: Tree, p: int, i: int, r: int)
    requires p in t.nodes && t.nodes[p].isLeaf && |t.nodes[p].keys| == |t.nodes[p].values| == MAX_KEYS + 1
    requires CanSplit(t, p, i, r, LeftLeaf(t.nodes[p], r), RightLeaf(t.nodes[p], r), t.nodes[p].keys[SPLIT])
    ensures TreeOk(SplitPage(t, p, i, r, LeftLeaf(t.nodes[p], r), RightLeaf(t.nodes[p], r), t.nodes[p].keys[SPLIT]))
  {
    var n, s := t.nodes[p], t.shape[p];
    var q, sep := n.parentId, n.keys[SPLIT];
    var left, right := LeftLeaf(n, r), RightLeaf(n, r);
    var t' := SplitPage(t, p, i, r, left, right, sep);
    CutHolds(t.contents, s.lo, sep, s.hi, n.keys, n.values, SPLIT);
    HalvesHang(t, p, i, r, left, right, sep);
    SplitOk(t, p, i, r, left, right, sep);
  }

  lemma AddedIsThere(n: Node, i: int, sep: int, r: int)
    requires 0 <= i <= |n.keys| && i < |n.children|
    ensures n.children[i] in ChildAdded(n, i, sep, r).children && r in ChildAdded(n, i, sep, r).children
  {
    var children' := ChildAdded(n, i, sep, r).children;
    assert children'[i] == n.children[i] && children'[i + 1] == r;
  }

  lemma SplitInnerOk(t: Tree, p: int, i: int, r: int)
    requires p in t.nodes && !t.nodes[p].isLeaf && |t.nodes[p].keys| + 1 == |t.nodes[p].children| == MAX_KEYS + 2
    requires CanSplit(t, p, i, r, LeftInner(t.nodes[p]), RightInner(t.nodes[p], r), t.nodes[p].keys[MIDDLE])
    ensures TreeOk(SplitPage(t, p, i, r, LeftInner(t.nodes[p]), RightInner(t.nodes[p], r), t.nodes[p].keys[MIDDLE]))
  {
    var n := t.nodes[p];
    InnerHalvesOk(t, p, i, r);
    SplitOk(t, p, i, r, LeftInner(n), RightInner(n, r), n.keys[MIDDLE]);
  }

  /** Both halves hang under the parent. */
  lemma HalvesHang(t: Tree, p: int, i: int, r: int, left: Node, right: Node, sep: int)
    requires CanSplit(t, p, i, r, left, right, sep)
    ensures
      var t' := SplitPage(t, p, i, r, left, right, sep);
      ParentOk(t', p) && ParentOk(t', r)
  {
    AddedIsThere(t.nodes[t.nodes[p].parentId], i, sep, r);
  }

  lemma InnerHalvesSpan(t: Tree, p: int, i: int, r: int)
    requires p in t.nodes && !t.nodes[p].isLeaf && |t.nodes[p].keys| + 1 == |t.nodes[p].children| == MAX_KEYS + 2
    requires CanSplit(t, p, i, r, LeftInner(t.nodes[p]), RightInner(t.nodes[p], r), t.nodes[p].keys[MIDDLE])
    ensures
      var n, s := t.nodes[p], t.shape[p];
      var left, right, sep := LeftInner(n), RightInner(n, r), n.keys[MIDDLE];
      var t' := SplitPage(t, p, i, r, left, right, sep);
      && Spans(t'.shape, s.level - 1, s.lo, sep, left.keys, left.children)
      && Spans(t'.shape, s.level - 1, sep, s.hi, right.keys, right.children)
  {
    var n, s := t.nodes[p], t.shape[p];
    var left, right, sep := LeftInner(n), RightInner(n, r), n.keys[MIDDLE];
    var t' := SplitPage(t, p, i, r, left, right, sep);
    assert Spans(t.shape, s.level - 1, s.lo, s.hi, n.keys, n.children);
    InnerHalvesOwned(t, p, i, r, left, right, sep);
    CutSpansSame(t.shape, t'.shape, s.level - 1, s.lo, s.hi, n.keys, n.children, MIDDLE);
  }

  ghost predicate SameInfos(shape: map<int, Info>, shape': map<int, Info>, children: seq<int>) {
    forall j :: 0 <= j < |children| ==>
      children[j] in shape' && children[j] in shape && shape'[children[j]] == shape[children[j]]
  }

  lemma CutSpansSame(shape: map<int, Info>, shape': map<int, Info>, level: int, lo: int, hi: int,
                     keys: seq<int>, children: seq<int>, m: int)
    requires Spans(shape, level, lo, hi, keys, children) && 0 <= m < |keys|
    requires SameInfos(shape, shape', children[..m + 1]) && SameInfos(shape, shape', children[m + 1..])
    ensures Spans(shape', level, lo, keys[m], keys[..m], children[..m + 1])
    ensures Spans(shape', level, keys[m], hi, keys[m + 1..], children[m + 1..])
  {
    CutSpans(shape, level, lo, hi, keys, children, m);
    SpansSame(shape, shape', level, lo, keys[m], keys[..m], children[..m + 1]);
    SpansSame(shape, shape', level, keys[m], hi, keys[m + 1..], children[m + 1..]);
  }

  lemma InnerHalvesOk(t: Tree, p: int, i: int, r: int)
    requires p in t.nodes && !t.nodes[p].isLeaf && |t.nodes[p].keys| + 1 == |t.nodes[p].children| == MAX_KEYS + 2
    requires CanSplit(t, p, i, r, LeftInner(t.nodes[p]), RightInner(t.nodes[p], r), t.nodes[p].keys[MIDDLE])
    ensures
      var t' := SplitPage(t, p, i, r, LeftInner(t.nodes[p]), RightInner(t.nodes[p], r), t.nodes[p].keys[MIDDLE]);
      PageOk(t', p) && PageOk(t', r)
  {
    var n := t.nodes[p];
    InnerHalvesSpan(t, p, i, r);
    InnerHalvesOwned(t, p, i, r, LeftInner(n), RightInner(n, r), n.keys[MIDDLE]);
    HalvesHang(t, p, i, r, LeftInner(n), RightInner(n, r), n.keys[MIDDLE]);
  }

  /** Each half of an inner page owns its children, whose intervals stay. */
  lemma InnerHalvesOwned(t: Tree, p: int, i: int, r: int, left: Node, right: Node, sep: int)
    requires CanSplit(t, p, i, r, left, right, sep) && !t.nodes[p].isLeaf
    ensures
      var t' := SplitPage(t, p, i, r, left, right, sep);
      && Owned(t'.nodes, left.children, p) && Owned(t'.nodes, right.children, r)
      && SameInfos(t.shape, t'.shape, left.children) && SameInfos(t.shape, t'.shape, right.children)
  {
    var n, s := t.nodes[p], t.shape[p];
    var t' := SplitPage(t, p, i, r, left, right, sep);
    ChildIs(t, n.parentId, i);
    forall j | 0 <= j < |left.children|
      ensures
        var c := left.children[j];
        c in t'.nodes && t'.nodes[c].parentId == p && c in t'.shape && c in t.shape && t'.shape[c] == t.shape[c]
    {
      assert left.children[j] == n.children[j];
      ChildIs(t, p, j);
      forall k | 0 <= k < |right.children| ensures right.children[k] != left.children[j] {
        assert right.children[k] == n.children[|left.children| + k];
        ChildrenDiffer(t.shape, s.level - 1, s.lo, s.hi, n.keys, n.children, j, |left.children| + k);
      }
    }
    forall j | 0 <= j < |right.children|
      ensures
        var c := right.children[j];
        c in t'.nodes && t'.nodes[c].parentId == r && c in t'.shape && c in t.shape && t'.shape[c] == t.shape[c]
    {
      assert right.children[j] == n.children[|left.children| + j];
      ChildIs(t, p, |left.children| + j);
    }
  }

  // ----- A new root

  /** A new root `r` over the old one, with no separator yet. */
  ghost function GrowRoot(t: Tree, r: int): Tree
    requires t.root in t.nodes && t.root in t.shape
  {
    t.(nodes := t.nodes[t.root := t.nodes[t.root].(parentId := r)]
                       [r := Node(false, r, INVALID_PAGE_ID, [], [], [t.root], INVALID_PAGE_ID)],
       shape := t.shape[r := Info(t.shape[t.root].level + 1, MIN_KEY, SUP_KEY)],
       root := r, under := r)
  }

  lemma GrowRootOk(t: Tree, r: int)
    requires TreeOk(t) && t.under == INVALID_PAGE_ID && r >= 0 && r !in t.shape
    requires |t.nodes[t.root].keys| >= MIN_KEYS
    ensures TreeOk(GrowRoot(t, r))
  {
    var t' := GrowRoot(t, r);
    assert PageOk(t, t.root);
    forall x | x in t'.shape ensures PageOk(t', x) {
      if x != r {
        assert PageOk(t, x);
        if !t.nodes[x].isLeaf {
          forall j | 0 <= j < |t.nodes[x].children|
            ensures
              var c := t.nodes[x].children[j];
              c in t.shape && c in t'.shape && t'.shape[c] == t.shape[c] && c in t'.nodes && t'.nodes[c].parentId == x
          {
            ChildIs(t, x, j);
          }
        }
        StillOk(t, t', x);
      } else {
        var level := t.shape[t.root].level;
        assert SpanAt(t'.shape, level, MIN_KEY, SUP_KEY, [], [t.root], 0);
      }
    }
  }
}
