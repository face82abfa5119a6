/** The repairs of a page that is one key short, in the words of the code that writes them back. */
module TreeDelete {
  import opened Pages
  import opened TreeModel
  import opened TreeEdits
  import opened TreeSplit
  import opened TreeInsert
  import opened TreeMerge

  /** Two neighbours and their parent as the code holds them, one of the two one key short. */
  ghost predicate Beside(t: Tree, parent: Node, i: int, left: Node, right: Node) {
    && Neighbours(t, parent.pageId, i, left.pageId, right.pageId)
    && t.nodes[parent.pageId] == parent && t.nodes[left.pageId] == left && t.nodes[right.pageId] == right
    && t.nodes.Keys == t.shape.Keys
  }

  ghost predicate Looked(k: int) { true }

  /** `Beside` as a fact to pass around, opened only where `Looked` is mentioned. */
  ghost predicate Held(t: Tree, parent: Node, i: int, left: Node, right: Node) {
    forall k {:trigger Looked(k)} :: Looked(k) ==> Beside(t, parent, i, left, right)
  }

  ghost predicate IsNeighbour(t: Tree, p: int, x: int)
    requires p in t.nodes
  {
    x in t.nodes && x != p && x != t.nodes[p].parentId && t.nodes[x].pageId == x &&
      t.nodes[x].isLeaf == t.nodes[p].isLeaf
  }

  /** A page other than the root has a neighbour on one side at least. */
  lemma HasNeighbour(t: Tree, p: int)
    requires TreeOk(t) && p in t.shape && p != t.root && t.over == INVALID_PAGE_ID && t.under == p
    ensures
      && p in t.nodes && t.nodes[p].parentId in t.nodes
      && var parent := t.nodes[t.nodes[p].parentId];
      && parent.pageId == t.nodes[p].parentId && parent.pageId != p && p in parent.children
      && |parent.children| >= 2
      && var i := IndexOf(parent.children, p);
      && (i > 0 ==>
            && IsNeighbour(t, p, parent.children[i - 1])
            && Held(t, parent, i - 1, t.nodes[parent.children[i - 1]], t.nodes[p]))
      && (i + 1 < |parent.children| ==>
            && IsNeighbour(t, p, parent.children[i + 1])
            && Held(t, parent, i, t.nodes[p], t.nodes[parent.children[i + 1]]))
  {
    IndexOfChild(t, p);
    var q, i := t.nodes[p].parentId, IndexIn(t, p);
    assert PageOk(t, q);
    if i > 0 {
      AreNeighbours(t, q, i - 1);
    }
    if i < |t.nodes[q].keys| {
      AreNeighbours(t, q, i);
    }
  }

  /** A leaf without one of its keys, before any repair. */
  lemma Dropped(t: Tree, p: int, key: int, i: int) returns (t': Tree)
    requires Whole(t) && t.root != INVALID_PAGE_ID && Knows(t, p, key)
    requires 0 <= i < |t.nodes[p].keys| && t.nodes[p].keys[i] == key
    ensures TreeOk(t')
    ensures t' == t.(nodes := t.nodes[p := DropNode(t.nodes[p], i)], contents := t.contents - {key}, under := p)
  {
    DropKeyOk(t, p, i);
    t' := DropKey(t, p, i);
  }

  lemma WholeStorable(t: Tree, p: int)
    requires Whole(t) && t.root != INVALID_PAGE_ID && p in t.nodes
    ensures Storable(t.nodes[p])
  {
    assert PageOk(t, p);
  }

  lemma HeldSizes(t: Tree, parent: Node, i: int, left: Node, right: Node)
    requires Held(t, parent, i, left, right)
    ensures MIN_KEYS - 1 <= |left.keys| <= MAX_KEYS && MIN_KEYS - 1 <= |right.keys| <= MAX_KEYS
    ensures t.under != left.pageId ==> MIN_KEYS <= |left.keys|
    ensures t.under != right.pageId ==> MIN_KEYS <= |right.keys|
    ensures if left.isLeaf then
              |left.values| == |left.keys| && |right.values| == |right.keys| && left.children == right.children == []
            else |left.children| == |left.keys| + 1 && |right.children| == |right.keys| + 1
    ensures left.pageId != right.pageId && left.pageId != parent.pageId && right.pageId != parent.pageId
    ensures left.isLeaf == right.isLeaf && !parent.isLeaf && |parent.keys| <= MAX_KEYS
    ensures 0 <= i < |parent.keys| && |parent.children| == |parent.keys| + 1
  {
    assert Looked(0);
  }

  /** The parent is above its two children, and the tree as high as before. */
  ghost predicate SameHeight(t: Tree, t': Tree, parent: int, left: int, right: int) {
    && t.root in t.shape && t.root in t'.shape && t'.shape[t.root].level == t.shape[t.root].level
    && left in t.shape && right in t.shape && parent in t'.shape
    && t.shape[left].level == t.shape[right].level < t'.shape[parent].level <= t.shape[t.root].level
  }

  /** A page in use is one of the tree's, and not above its root. */
  lemma PageLevel(t: Tree, p: int)
    requires TreeOk(t) && p in t.nodes
    ensures p in t.shape && t.root in t.nodes && t.root != INVALID_PAGE_ID && t.shape[p].level <= t.shape[t.root].level
    ensures t.nodes[p].pageId == p
    ensures !t.nodes[p].isLeaf && p == t.root ==> |t.nodes[p].children| == |t.nodes[p].keys| + 1
  {
    assert PageOk(t, p) && PageOk(t, t.root);
  }

  /** The children of two neighbours can be written, and are not the pages at hand. */
  lemma HeldChildren(t: Tree, parent: Node, i: int, left: Node, right: Node)
    requires Held(t, parent, i, left, right)
    ensures left.pageId in t.nodes && right.pageId in t.nodes && parent.pageId in t.nodes
    ensures forall c :: c in left.children || c in right.children ==>
              && c in t.nodes && Storable(t.nodes[c]) && t.nodes[c].pageId == c
              && c != left.pageId && c != right.pageId && c != parent.pageId
  {
    assert Looked(0);
    forall c | c in left.children || c in right.children
      ensures c in t.nodes && Storable(t.nodes[c]) && t.nodes[c].pageId == c
      ensures c != left.pageId && c != right.pageId && c != parent.pageId
    {
      ChildOfTwo(t, parent.pageId, i, left.pageId, right.pageId, left, right, c);
      assert PageOk(t, c);
    }
  }

  // ----- Leaves

  function LentLeft(l: Node): Node
    requires |l.keys| == |l.values| > 0
  {
    l.(keys := l.keys[..|l.keys| - 1], values := l.values[..|l.keys| - 1])
  }

  function TookLeft(l: Node, r: Node): Node
    requires |l.keys| == |l.values| > 0
  {
    r.(keys := [l.keys[|l.keys| - 1]] + r.keys, values := [l.values[|l.keys| - 1]] + r.values)
  }

  function TookRight(l: Node, r: Node): Node
    requires |r.keys| == |r.values| > 0
  {
    l.(keys := l.keys + [r.keys[0]], values := l.values + [r.values[0]])
  }

  function LentRight(r: Node): Node
    requires |r.keys| == |r.values| > 0
  {
    r.(keys := r.keys[1..], values := r.values[1..])
  }

  function Bordered(parent: Node, i: int, sep: int): Node
    requires 0 <= i < |parent.keys|
  {
    parent.(keys := parent.keys[i := sep])
  }

  lemma LendFromLeftLeaf(t: Tree, parent: Node, i: int, left: Node, right: Node) returns (t': Tree)
    requires Held(t, parent, i, left, right) && left.isLeaf && t.under == right.pageId
    requires |right.keys| < MIN_KEYS < |left.keys|
    ensures 0 <= i < |parent.keys| && |left.keys| == |left.values|
    ensures
      var l, r := LentLeft(left), TookLeft(left, right);
      var sep := r.keys[0];
      && Whole(t')
      && t' == t.(nodes := t.nodes[l.pageId := l][r.pageId := r][parent.pageId := Bordered(parent, i, sep)],
                  shape := t'.shape, under := INVALID_PAGE_ID)
  {
    assert Looked(0);
    HeldSizes(t, parent, i, left, right);
    var keys, values, m := left.keys + right.keys, left.values + right.values, |left.keys| - 1;
    MoveLeafOk(t, parent.pageId, i, left.pageId, right.pageId, m);
    t' := MoveBorder(t, parent.pageId, i, left.pageId, right.pageId, LentLeft(left), TookLeft(left, right), keys[m]);
    assert LeftOf(left, keys, values, m) == LentLeft(left);
    assert RightOf(right, keys, values, m) == TookLeft(left, right);
  }

  lemma LendFromRightLeaf(t: Tree, parent: Node, i: int, left: Node, right: Node) returns (t': Tree)
    requires Held(t, parent, i, left, right) && left.isLeaf && t.under == left.pageId
    requires |left.keys| < MIN_KEYS < |right.keys|
    ensures 0 <= i < |parent.keys| && |right.keys| == |right.values|
    ensures
      var l, r := TookRight(left, right), LentRight(right);
      var sep := r.keys[0];
      && Whole(t')
      && t' == t.(nodes := t.nodes[l.pageId := l][r.pageId := r][parent.pageId := Bordered(parent, i, sep)],
                  shape := t'.shape, under := INVALID_PAGE_ID)
  {
    assert Looked(0);
    HeldSizes(t, parent, i, left, right);
    var keys, values, m := left.keys + right.keys, left.values + right.values, |left.keys| + 1;
    MoveLeafOk(t, parent.pageId, i, left.pageId, right.pageId, m);
    t' := MoveBorder(t, parent.pageId, i, left.pageId, right.pageId, TookRight(left, right), LentRight(right), keys[m]);
    assert LeftOf(left, keys, values, m) == TookRight(left, right);
    assert RightOf(right, keys, values, m) == LentRight(right);
  }

  lemma MergeLeaves(t: Tree, parent: Node, i: int, left: Node, right: Node) returns (t': Tree)
    requires Held(t, parent, i, left, right) && left.isLeaf && |left.keys| + |right.keys| <= MAX_KEYS
    ensures 0 <= i < |parent.keys| && i + 1 < |parent.children|
    ensures
      var l, q := MergedLeaf(left, right), ChildRemoved(parent, i);
      && TreeOk(t')
      && t' == t.(nodes := t.nodes[l.pageId := l][q.pageId := q] - {right.pageId},
                  shape := t'.shape, under := q.pageId)
      && SameHeight(t, t', parent.pageId, left.pageId, right.pageId)
  {
    assert Looked(0);
    HeldSizes(t, parent, i, left, right);
    MergeLeafOk(t, parent.pageId, i, left.pageId, right.pageId);
    t' := MergePages(t, parent.pageId, i, left.pageId, right.pageId, MergedLeaf(left, right));
  }

  lemma AbsorbedNodes(nodes: map<int, Node>, left: Node, right: Node, merged: Node, parent: Node)
    requires merged.pageId == left.pageId && left.pageId in nodes && right.pageId in nodes
    ensures
      var written :=
        nodes[left.pageId := left][right.pageId := right][merged.pageId := merged][parent.pageId := parent];
      written - {right.pageId} == nodes[merged.pageId := merged][parent.pageId := parent] - {right.pageId}
  {
  }

  // ----- Inner pages

  function InnerLentLeft(l: Node): Node
    requires 0 < |l.keys| == |l.children| - 1
  {
    l.(keys := l.keys[..|l.keys| - 1], children := l.children[..|l.keys|])
  }

  function InnerTookLeft(l: Node, sep: int, r: Node): Node
    requires 0 < |l.keys| == |l.children| - 1
  {
    r.(keys := [sep] + r.keys, children := [l.children[|l.keys|]] + r.children)
  }

  function InnerTookRight(l: Node, sep: int, r: Node): Node
    requires |r.children| > 0
  {
    l.(keys := l.keys + [sep], children := l.children + [r.children[0]])
  }

  function InnerLentRight(r: Node): Node
    requires 0 < |r.keys| == |r.children| - 1
  {
    r.(keys := r.keys[1..], children := r.children[1..])
  }

  /** Only the child that changes hands gets a new parent. */
  lemma Regrouped(nodes: map<int, Node>, lc: seq<int>, c: int, rc: seq<int>, d: int, moved: int, owner: int)
    requires forall x :: x in lc ==> x !in rc
    requires if owner == c then moved in lc else owner == d && moved in rc
    requires forall x :: x in lc && x != moved && x in nodes ==> nodes[x].parentId == c
    requires forall x :: x in rc && x != moved && x in nodes ==> nodes[x].parentId == d
    ensures Reparent(Reparent(nodes, lc, c), rc, d) == Reparent(nodes, [moved], owner)
  {
  }

  lemma LendFromLeftInner(t: Tree, parent: Node, i: int, left: Node, right: Node) returns (t': Tree)
    requires Held(t, parent, i, left, right) && !left.isLeaf && t.under == right.pageId
    requires |right.keys| < MIN_KEYS < |left.keys|
    ensures 0 <= i < |parent.keys| && |left.children| == |left.keys| + 1
    ensures
      var l, r := InnerLentLeft(left), InnerTookLeft(left, parent.keys[i], right);
      var sep := left.keys[|left.keys| - 1];
      && Whole(t')
      && t' == t.(nodes := Reparent(t.nodes, [r.children[0]], r.pageId)
                           [l.pageId := l][r.pageId := r][parent.pageId := Bordered(parent, i, sep)],
                  shape := t'.shape, under := INVALID_PAGE_ID)
  {
    assert Looked(0);
    HeldSizes(t, parent, i, left, right);
    var keys, children := JoinedKeys(t, parent.pageId, i, left.pageId, right.pageId), left.children + right.children;
    var m := |left.keys| - 1;
    MoveInnerOk(t, parent.pageId, i, left.pageId, right.pageId, m);
    t' := MoveBorder(t, parent.pageId, i, left.pageId, right.pageId,
                     InnerLentLeft(left), InnerTookLeft(left, parent.keys[i], right), keys[m]);
    assert LeftPart(left, keys, children, m) == InnerLentLeft(left);
    assert RightPart(right, keys, children, m) == InnerTookLeft(left, parent.keys[i], right);
    PartedOwners(t, parent, i, left, right, m + 1);
    assert children[m + 1..][0] == children[m + 1];
    Regrouped(t.nodes, children[..m + 1], left.pageId, children[m + 1..], right.pageId, children[m + 1], right.pageId);
  }

  /** Cutting the joined children elsewhere leaves two parts that do not meet, and apart from those
      between the old and the new cut each child has its owner's page as its parent. */
  lemma PartedOwners(t: Tree, parent: Node, i: int, left: Node, right: Node, m: int)
    requires Held(t, parent, i, left, right) && !left.isLeaf && 0 <= m <= |left.children| + |right.children|
    ensures
      var children := left.children + right.children;
      && (forall x :: x in children[..m] ==> x !in children[m..])
      && (forall j :: 0 <= j < |children| ==>
            && children[j] in t.nodes
            && t.nodes[children[j]].parentId == if j < |left.children| then left.pageId else right.pageId)
  {
    assert Looked(0);
    var c, d := left.pageId, right.pageId;
    var keys, children := JoinedKeys(t, parent.pageId, i, c, d), left.children + right.children;
    var level := t.shape[c].level - 1;
    JoinSpans(t.shape, level, t.shape[c].lo, t.shape[d].lo, t.shape[d].hi, left.keys, left.children, right.keys,
              right.children);
    ApartChildren(t.shape, level, t.shape[c].lo, t.shape[d].hi, keys, children, m);
  }

  lemma LendFromRightInner(t: Tree, parent: Node, i: int, left: Node, right: Node) returns (t': Tree)
    requires Held(t, parent, i, left, right) && !left.isLeaf && t.under == left.pageId
    requires |left.keys| < MIN_KEYS < |right.keys|
    ensures 0 <= i < |parent.keys| && |right.children| == |right.keys| + 1
    ensures
      var l, r := InnerTookRight(left, parent.keys[i], right), InnerLentRight(right);
      var sep := right.keys[0];
      && Whole(t')
      && t' == t.(nodes := Reparent(t.nodes, [right.children[0]], l.pageId)
                           [l.pageId := l][r.pageId := r][parent.pageId := Bordered(parent, i, sep)],
                  shape := t'.shape, under := INVALID_PAGE_ID)
  {
    assert Looked(0);
    HeldSizes(t, parent, i, left, right);
    var keys, children := JoinedKeys(t, parent.pageId, i, left.pageId, right.pageId), left.children + right.children;
    var m := |left.keys| + 1;
    MoveInnerOk(t, parent.pageId, i, left.pageId, right.pageId, m);
    t' := MoveBorder(t, parent.pageId, i, left.pageId, right.pageId,
                     InnerTookRight(left, parent.keys[i], right), InnerLentRight(right), keys[m]);
    assert LeftPart(left, keys, children, m) == InnerTookRight(left, parent.keys[i], right);
    assert RightPart(right, keys, children, m) == InnerLentRight(right);
    PartedOwners(t, parent, i, left, right, m + 1);
    assert children[..m + 1][m] == children[m];
    Regrouped(t.nodes, children[..m + 1], left.pageId, children[m + 1..], right.pageId, children[m], left.pageId);
  }

  lemma MergeInners(t: Tree, parent: Node, i: int, left: Node, right: Node) returns (t': Tree)
    requires Held(t, parent, i, left, right) && !left.isLeaf && |left.keys| + |right.keys| + 1 <= MAX_KEYS
    ensures 0 <= i < |parent.keys| && i + 1 < |parent.children|
    ensures
      var l, q := MergedInner(left, parent.keys[i], right), ChildRemoved(parent, i);
      && TreeOk(t')
      && t' == t.(nodes := Reparent(t.nodes, right.children, l.pageId)[l.pageId := l][q.pageId := q] - {right.pageId},
                  shape := t'.shape, under := q.pageId)
      && SameHeight(t, t', parent.pageId, left.pageId, right.pageId)
  {
    assert Looked(0);
    HeldSizes(t, parent, i, left, right);
    MergeInnerOk(t, parent.pageId, i, left.pageId, right.pageId);
    t' := MergePages(t, parent.pageId, i, left.pageId, right.pageId, MergedInner(left, parent.keys[i], right));
    var both := left.children + right.children;
    PartedOwners(t, parent, i, left, right, 0);
    assert forall x :: x in both <==> x in left.children || x in right.children;
    assert forall j :: 0 <= j < |left.children| ==> left.children[j] == both[j];
    assert Reparent(t.nodes, both, left.pageId) == Reparent(t.nodes, right.children, left.pageId);
  }
}
