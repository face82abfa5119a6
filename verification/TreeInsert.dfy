/** A page has been split and its parent does not know yet: what the pages look like then, and why
    telling the parent gives a good tree again, perhaps with the parent too full. */
module TreeInsert {
  import opened Collections
  import opened Pages
  import opened TreeModel
  import opened TreeEdits
  import opened TreeSplit

  /** The first position of `x`. */
  function IndexOf(s: seq<int>, x: int): (i: int)
    requires x in s
    ensures 0 <= i < |s| && s[i] == x && x !in s[..i]
  {
    if s[0] == x then 0
    else
      var i := 1 + IndexOf(s[1..], x);
      assert s[..i] == [s[0]] + s[1..][..i - 1];
      i
  }

  /** The parent of `left` learns of `right` behind it. */
  ghost function Attached(nodes: map<int, Node>, left: Node, sep: int, right: Node): map<int, Node>
    requires left.parentId in nodes && left.pageId in nodes[left.parentId].children
    requires |nodes[left.parentId].children| == |nodes[left.parentId].keys| + 1
  {
    var q := left.parentId;
    nodes[q := ChildAdded(nodes[q], IndexOf(nodes[q].children, left.pageId), sep, right.pageId)]
         [right.pageId := right.(parentId := q)]
  }

  /** A new root `r0` over both. */
  ghost function AttachedRoot(nodes: map<int, Node>, left: Node, sep: int, right: Node, r0: int): map<int, Node> {
    nodes[r0 := Node(false, r0, INVALID_PAGE_ID, [sep], [], [left.pageId, right.pageId], INVALID_PAGE_ID)]
         [left.pageId := left.(parentId := r0)][right.pageId := right.(parentId := r0)]
  }

  /** `right` has been split off `left`, and all would be well if their parent (or a new root `r0`) had it. */
  ghost predicate Pending(t: Tree, left: Node, sep: int, right: Node, r0: int) {
    && left.pageId in t.nodes && t.nodes[left.pageId] == left && Storable(left)
    && right.pageId in t.nodes && t.nodes[right.pageId] == right && Storable(right)
    && left.pageId != right.pageId && left.parentId == right.parentId
    && t.root in t.shape && left.pageId in t.shape
    && t.over == INVALID_PAGE_ID && t.under == INVALID_PAGE_ID
    && if left.parentId == INVALID_PAGE_ID then
         && r0 >= 0 && r0 !in t.nodes
         && TreeOk(t.(nodes := AttachedRoot(t.nodes, left, sep, right, r0), root := r0, over := r0))
       else
         var q := left.parentId;
         && q in t.nodes && t.nodes[q].pageId == q && !t.nodes[q].isLeaf && Storable(t.nodes[q])
         && q != left.pageId && q != right.pageId && left.pageId in t.nodes[q].children
         && TreeOk(t.(nodes := Attached(t.nodes, left, sep, right), over := q))
  }

  /** The pages and the shape after splitting page `p` of `t` but before the parent is told. */
  ghost function Torn(t: Tree, p: int, r: int, r0: int, left: Node, right: Node, sep: int): Tree
    requires p in t.nodes && p in t.shape
  {
    var s := t.shape[p];
    var cut := t.shape[p := s.(hi := sep)][r := Info(s.level, sep, s.hi)];
    t.(nodes := Reparent(t.nodes, right.children, r)[p := left][r := right],
       shape := if p == t.root then cut[r0 := Info(s.level + 1, MIN_KEY, SUP_KEY)] else cut,
       over := INVALID_PAGE_ID, under := INVALID_PAGE_ID)
  }

  /** A page that is too full and is being split into `left` and `right`. */
  ghost predicate Overfull(t: Tree, p: int, r: int, r0: int) {
    && TreeOk(t) && p in t.nodes && p in t.shape && PageOk(t, p) && t.over == p && t.under == INVALID_PAGE_ID
    && |t.nodes[p].keys| == MAX_KEYS + 1
    && r >= 0 && r !in t.nodes && r0 >= 0 && r0 !in t.nodes && r0 != r
  }

  lemma IndexOfChild(t: Tree, p: int)
    requires TreeOk(t) && p in t.shape && p != t.root
    ensures
      var q := t.nodes[p].parentId;
      && p in t.nodes && q in t.nodes && p in t.nodes[q].children
      && IndexOf(t.nodes[q].children, p) == IndexIn(t, p)
  {
    var q, i := t.nodes[p].parentId, IndexIn(t, p);
    ChildIs(t, q, IndexOf(t.nodes[q].children, p));
    assert PageOk(t, p);
    SiblingsApart(t, q, i, IndexOf(t.nodes[q].children, p), t.shape[p].lo);
  }

  lemma ReparentNone(nodes: map<int, Node>, p: int)
    ensures Reparent(nodes, [], p) == nodes
  {
  }

  // ----- The page has a parent

  lemma TornLeafPending(t: Tree, p: int, r: int, r0: int)
    requires Overfull(t, p, r, r0) && t.nodes[p].isLeaf && p != t.root
    ensures
      var n := t.nodes[p];
      |n.values| == MAX_KEYS + 1 &&
      Pending(Torn(t, p, r, r0, LeftLeaf(n, r), RightLeaf(n, r), n.keys[SPLIT]), LeftLeaf(n, r), n.keys[SPLIT],
              RightLeaf(n, r), r0)
  {
    var n := t.nodes[p];
    var left, right, sep := LeftLeaf(n, r), RightLeaf(n, r), n.keys[SPLIT];
    assert t.shape[p].lo <= n.keys[0] < sep;
    TornHasParent(t, p, r, r0, left, right, sep);
    SplitLeafOk(t, p, IndexIn(t, p), r);
    TornAttaches(t, p, r, r0, left, right, sep);
  }

  lemma TornInnerPending(t: Tree, p: int, r: int, r0: int)
    requires Overfull(t, p, r, r0) && !t.nodes[p].isLeaf && p != t.root
    ensures
      var n := t.nodes[p];
      |n.children| == MAX_KEYS + 2 &&
      Pending(Torn(t, p, r, r0, LeftInner(n), RightInner(n, r), n.keys[MIDDLE]), LeftInner(n), n.keys[MIDDLE],
              RightInner(n, r), r0)
  {
    var n := t.nodes[p];
    var left, right, sep := LeftInner(n), RightInner(n, r), n.keys[MIDDLE];
    assert left.children + right.children == n.children;
    TornHasParent(t, p, r, r0, left, right, sep);
    SplitInnerOk(t, p, IndexIn(t, p), r);
    TornAttaches(t, p, r, r0, left, right, sep);
  }

  lemma TornHasParent(t: Tree, p: int, r: int, r0: int, left: Node, right: Node, sep: int)
    requires Overfull(t, p, r, r0) && p != t.root
    requires left.isLeaf == right.isLeaf == t.nodes[p].isLeaf && left.pageId == p && right.pageId == r
    requires left.parentId == right.parentId == t.nodes[p].parentId
    requires left.children + right.children == t.nodes[p].children && t.shape[p].lo < sep < t.shape[p].hi
    ensures CanSplit(t, p, IndexIn(t, p), r, left, right, sep)
  {
    var i := IndexIn(t, p);
  }

  /** Telling the parent of a torn page is the split. */
  lemma TornAttaches(t: Tree, p: int, r: int, r0: int, left: Node, right: Node, sep: int)
    requires Overfull(t, p, r, r0) && p != t.root && CanSplit(t, p, IndexIn(t, p), r, left, right, sep)
    requires TreeOk(SplitPage(t, p, IndexIn(t, p), r, left, right, sep)) && Storable(left) && Storable(right)
    ensures Pending(Torn(t, p, r, r0, left, right, sep), left, sep, right, r0)
  {
    var q, i := t.nodes[p].parentId, IndexIn(t, p);
    var torn := Torn(t, p, r, r0, left, right, sep);
    IndexOfChild(t, p);
    ChildrenOfPage(t, p, left, right);
    assert PageOk(t, q);
    assert q !in right.children by {
      if q != t.root {
        var k := IndexIn(t, q);
      }
      assert t.nodes[q].parentId != p;
    }
    assert torn.nodes[q] == t.nodes[q];
    assert Attached(torn.nodes, left, sep, right) == SplitPage(t, p, i, r, left, right, sep).nodes;
    assert torn.(nodes := Attached(torn.nodes, left, sep, right), over := q) == SplitPage(t, p, i, r, left, right, sep);
  }

  // ----- The page is the root

  lemma TornRootLeafPending(t: Tree, r: int, r0: int)
    requires Overfull(t, t.root, r, r0) && t.nodes[t.root].isLeaf
    ensures
      var n := t.nodes[t.root];
      |n.values| == MAX_KEYS + 1 &&
      Pending(Torn(t, t.root, r, r0, LeftLeaf(n, r), RightLeaf(n, r), n.keys[SPLIT]),
              LeftLeaf(n, r), n.keys[SPLIT], RightLeaf(n, r), r0)
  {
    var p, n := t.root, t.nodes[t.root];
    var left, right, sep := LeftLeaf(n, r), RightLeaf(n, r), n.keys[SPLIT];
    assert t.shape[p].lo <= n.keys[0] < sep;
    GrowRootOk(t, r0);
    var g := GrowRoot(t, r0);
    assert PageOk(g, p) && PageOk(g, r0);
    SplitLeafOk(g, p, 0, r);
    TornRootAttaches(t, r, r0, left, right, sep);
  }

  lemma TornRootInnerPending(t: Tree, r: int, r0: int)
    requires Overfull(t, t.root, r, r0) && !t.nodes[t.root].isLeaf
    ensures
      var n := t.nodes[t.root];
      |n.children| == MAX_KEYS + 2 &&
      Pending(Torn(t, t.root, r, r0, LeftInner(n), RightInner(n, r), n.keys[MIDDLE]),
              LeftInner(n), n.keys[MIDDLE], RightInner(n, r), r0)
  {
    var p, n := t.root, t.nodes[t.root];
    var left, right, sep := LeftInner(n), RightInner(n, r), n.keys[MIDDLE];
    assert left.children + right.children == n.children;
    GrowRootOk(t, r0);
    var g := GrowRoot(t, r0);
    assert PageOk(g, p) && PageOk(g, r0);
    SplitInnerOk(g, p, 0, r);
    TornRootAttaches(t, r, r0, left, right, sep);
  }

  lemma TornRootNodes(t: Tree, r: int, r0: int, left: Node, right: Node, sep: int)
    requires Overfull(t, t.root, r, r0)
    requires left.pageId == t.root && right.pageId == r && left.children + right.children == t.nodes[t.root].children
    ensures
      var torn := Torn(t, t.root, r, r0, left, right, sep);
      var split := SplitPage(GrowRoot(t, r0), t.root, 0, r, left.(parentId := r0), right.(parentId := r0), sep);
      AttachedRoot(torn.nodes, left, sep, right, r0) == split.nodes
  {
    var p := t.root;
    ChildrenOfPage(t, p, left, right);
    assert t.nodes[p].parentId != p;
    assert p !in right.children;
    assert InsertAt([], 0, sep) == [sep] && InsertAt([p], 1, r) == [p, r];
  }

  lemma TornRootAttaches(t: Tree, r: int, r0: int, left: Node, right: Node, sep: int)
    requires Overfull(t, t.root, r, r0)
    requires left.pageId == t.root && right.pageId == r && Storable(left) && Storable(right)
    requires left.parentId == right.parentId == INVALID_PAGE_ID
    requires left.children + right.children == t.nodes[t.root].children
    requires
      var g := GrowRoot(t, r0);
      TreeOk(SplitPage(g, t.root, 0, r, left.(parentId := r0), right.(parentId := r0), sep))
    ensures Pending(Torn(t, t.root, r, r0, left, right, sep), left, sep, right, r0)
  {
    var torn := Torn(t, t.root, r, r0, left, right, sep);
    TornRootNodes(t, r, r0, left, right, sep);
    assert torn.(nodes := AttachedRoot(torn.nodes, left, sep, right, r0), root := r0, over := r0)
        == SplitPage(GrowRoot(t, r0), t.root, 0, r, left.(parentId := r0), right.(parentId := r0), sep);
  }

  lemma TornLeaf(t: Tree, p: int, r: int, r0: int)
    requires Overfull(t, p, r, r0) && t.nodes[p].isLeaf
    ensures
      var n := t.nodes[p];
      |n.values| == MAX_KEYS + 1 &&
      Pending(Torn(t, p, r, r0, LeftLeaf(n, r), RightLeaf(n, r), n.keys[SPLIT]), LeftLeaf(n, r), n.keys[SPLIT],
              RightLeaf(n, r), r0)
  {
    if p == t.root {
      TornRootLeafPending(t, r, r0);
    } else {
      TornLeafPending(t, p, r, r0);
    }
  }

  lemma TornInner(t: Tree, p: int, r: int, r0: int)
    requires Overfull(t, p, r, r0) && !t.nodes[p].isLeaf
    ensures
      var n := t.nodes[p];
      |n.children| == MAX_KEYS + 2 &&
      Pending(Torn(t, p, r, r0, LeftInner(n), RightInner(n, r), n.keys[MIDDLE]), LeftInner(n), n.keys[MIDDLE],
              RightInner(n, r), r0)
  {
    if p == t.root {
      TornRootInnerPending(t, r, r0);
    } else {
      TornInnerPending(t, p, r, r0);
    }
  }

  /** The children of a page that is too full can be written. */
  lemma ChildrenStorable(t: Tree, p: int)
    requires TreeOk(t) && p in t.shape && p in t.nodes && !t.nodes[p].isLeaf && t.over == p
    ensures forall c :: c in t.nodes[p].children ==>
              c in t.nodes && c != p && Storable(t.nodes[c]) && t.nodes[c].pageId == c
  {
    assert PageOk(t, p);
    forall c | c in t.nodes[p].children
      ensures c in t.nodes && c != p && Storable(t.nodes[c]) && t.nodes[c].pageId == c
    {
      var j :| 0 <= j < |t.nodes[p].children| && t.nodes[p].children[j] == c;
      ChildIs(t, p, j);
      assert PageOk(t, c);
    }
  }

  /** The parent that learns of a new child is one level above the old one, and not above the root. */
  lemma AttachedLevels(t: Tree, left: Node, sep: int, right: Node, r0: int)
    requires Pending(t, left, sep, right, r0) && left.parentId != INVALID_PAGE_ID
    ensures
      var q := left.parentId;
      q in t.shape && t.shape[left.pageId].level + 1 == t.shape[q].level <= t.shape[t.root].level
  {
    var q := left.parentId;
    var t' := t.(nodes := Attached(t.nodes, left, sep, right), over := q);
    var i := IndexOf(t.nodes[q].children, left.pageId);
    assert PageOk(t', q);
    ChildIs(t', q, i);
  }

  lemma PutSizes(t: Tree, p: int, i: int, k: int, v: int)
    requires p in t.nodes && 0 <= i <= |t.nodes[p].keys| && i <= |t.nodes[p].values| && t.nodes[p].isLeaf
    requires TreeOk(PutKey(t, p, i, k, v)) && |PutNode(t.nodes[p], i, k, v).keys| > MAX_KEYS
    ensures p in t.shape && |PutNode(t.nodes[p], i, k, v).keys| == |PutNode(t.nodes[p], i, k, v).values| == MAX_KEYS + 1
  {
    assert PageOk(PutKey(t, p, i, k, v), p);
  }

  /** What the leaf's two halves and the map are when the parent is about to be told. */
  lemma PutAndTear(t: Tree, p: int, i: int, k: int, v: int, r: int, r0: int)
    requires p in t.nodes && 0 <= i <= |t.nodes[p].keys| && i <= |t.nodes[p].values| && t.nodes[p].isLeaf
    requires t.over == INVALID_PAGE_ID && t.under == INVALID_PAGE_ID
    requires TreeOk(PutKey(t, p, i, k, v)) && |PutNode(t.nodes[p], i, k, v).keys| > MAX_KEYS
    requires r >= 0 && r !in t.nodes && r0 >= 0 && r0 !in t.nodes && r0 != r && p in t.shape
    ensures
      var n := PutNode(t.nodes[p], i, k, v);
      |n.keys| == |n.values| == MAX_KEYS + 1 &&
      var left, right, sep := LeftLeaf(n, r), RightLeaf(n, r), n.keys[SPLIT];
      var torn := Torn(PutKey(t, p, i, k, v), p, r, r0, left, right, sep);
      && torn == Tree(t.nodes[p := left][r := right], torn.shape, t.root, t.contents[k := v], INVALID_PAGE_ID,
                      INVALID_PAGE_ID)
      && Pending(torn, left, sep, right, r0)
  {
    var t' := PutKey(t, p, i, k, v);
    assert PageOk(t', p);
    TornLeaf(t', p, r, r0);
    ReparentNone(t'.nodes, r);
  }

  /** The same for an inner page, from which the level of its left half can be read off. */
  lemma TearInnerPage(t: Tree, p: int, nodes: map<int, Node>, r: int, r0: int)
    requires TreeOk(t) && p in t.nodes && p in t.shape && t.over == p && t.under == INVALID_PAGE_ID
    requires !t.nodes[p].isLeaf && |t.nodes[p].keys| > MAX_KEYS
    requires p in nodes && t.nodes == nodes[p := t.nodes[p]]
    requires r >= 0 && r !in nodes && r0 >= 0 && r0 !in nodes && r0 != r
    ensures
      var n := t.nodes[p];
      |n.keys| + 1 == |n.children| == MAX_KEYS + 2 &&
      var left, right, sep := LeftInner(n), RightInner(n, r), n.keys[MIDDLE];
      var torn := Torn(t, p, r, r0, left, right, sep);
      && torn == Tree(Reparent(nodes, right.children, r)[p := left][r := right], torn.shape, t.root, t.contents,
                      INVALID_PAGE_ID, INVALID_PAGE_ID)
      && torn.root in torn.shape && p in torn.shape && t.root in t.shape
      && torn.shape[torn.root].level == t.shape[t.root].level && torn.shape[p].level == t.shape[p].level
      && Pending(torn, left, sep, right, r0)
  {
    assert PageOk(t, p);
    TornInner(t, p, r, r0);
  }
}
