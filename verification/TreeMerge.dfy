/** Moving the border between two neighbours, merging them, and collapsing a root without keys. */
module TreeMerge {
  import opened Collections
  import opened Pages
  import opened TreeModel
  import opened TreeEdits
  import opened TreeSplit

  /** `c` and `d` are children `i` and `i + 1` of `q`, one of which may be too short. */
  ghost predicate Neighbours(t: Tree, q: int, i: int, c: int, d: int) {
    && TreeOk(t) && q in t.shape && q in t.nodes && PageOk(t, q) && !t.nodes[q].isLeaf
    && 0 <= i < |t.nodes[q].keys| && |t.nodes[q].children| == |t.nodes[q].keys| + 1
    && t.nodes[q].children[i] == c && t.nodes[q].children[i + 1] == d
    && c in t.shape && c in t.nodes && d in t.shape && d in t.nodes && c != d && c != q && d != q
    && PageOk(t, c) && PageOk(t, d) && c != t.root && d != t.root
    && t.nodes[c].parentId == q && t.nodes[d].parentId == q
    && t.shape[c].level == t.shape[d].level == t.shape[q].level - 1
    && t.shape[c].hi == t.shape[d].lo == t.nodes[q].keys[i]
    && t.nodes[c].isLeaf == t.nodes[d].isLeaf
    && t.over == INVALID_PAGE_ID && (t.under == c || t.under == d)
  }

  lemma AreNeighbours(t: Tree, q: int, i: int)
    requires TreeOk(t) && q in t.shape && q in t.nodes && PageOk(t, q) && !t.nodes[q].isLeaf
    requires 0 <= i < |t.nodes[q].keys| && |t.nodes[q].children| == |t.nodes[q].keys| + 1
    requires t.over == INVALID_PAGE_ID && (t.under == t.nodes[q].children[i] || t.under == t.nodes[q].children[i + 1])
    ensures Neighbours(t, q, i, t.nodes[q].children[i], t.nodes[q].children[i + 1])
  {
    ChildIs(t, q, i);
    ChildIs(t, q, i + 1);
    assert PageOk(t, t.nodes[q].children[i]) && PageOk(t, t.nodes[q].children[i + 1]);
  }

  /** Only `c` links to the leaf `d` behind it. */
  lemma LinksTo(t: Tree, q: int, i: int, c: int, d: int, x: int)
    requires Neighbours(t, q, i, c, d) && t.nodes[c].isLeaf
    requires x in t.shape && x in t.nodes && t.nodes[x].isLeaf && t.nodes[x].nextLeaf == d && PageOk(t, x)
    ensures x == c
  {
    OnePerLevel(t, x, c, t.shape[d].lo - 1);
  }

  lemma LinkedNeighbours(t: Tree, q: int, i: int, c: int, d: int)
    requires Neighbours(t, q, i, c, d) && t.nodes[c].isLeaf
    ensures t.nodes[c].nextLeaf == d
  {
    var x := t.nodes[c].nextLeaf;
    assert t.shape[c].hi < SUP_KEY;
    assert PageOk(t, x);
    OnePerLevel(t, x, d, t.shape[d].lo);
  }

  // ----- Moving the border

  ghost function MoveBorder(t: Tree, q: int, i: int, c: int, d: int, left: Node, right: Node, sep: int): Tree
    requires q in t.nodes && 0 <= i < |t.nodes[q].keys| && c in t.shape && d in t.shape
  {
    var n := t.nodes[q];
    t.(nodes := Reparent(Reparent(t.nodes, left.children, c), right.children, d)[c := left][d := right]
                [q := n.(keys := n.keys[i := sep])],
       shape := t.shape[c := t.shape[c].(hi := sep)][d := t.shape[d].(lo := sep)],
       under := INVALID_PAGE_ID)
  }

  ghost predicate CanMove(t: Tree, q: int, i: int, c: int, d: int, left: Node, right: Node, sep: int) {
    && Neighbours(t, q, i, c, d)
    && left.isLeaf == right.isLeaf == t.nodes[c].isLeaf
    && left.pageId == c && right.pageId == d && left.parentId == right.parentId == q
    && left.children + right.children == t.nodes[c].children + t.nodes[d].children
    && t.shape[c].lo < sep < t.shape[d].hi
  }

  /** The children of two neighbours belong to them, whichever of the two gets them. */
  lemma ChildrenOfTwo(t: Tree, q: int, i: int, c: int, d: int, left: Node, right: Node)
    requires Neighbours(t, q, i, c, d) && left.children + right.children == t.nodes[c].children + t.nodes[d].children
    ensures forall x :: x in left.children || x in right.children ==>
              x in t.nodes && (t.nodes[x].parentId == c || t.nodes[x].parentId == d) && x != q && x != c && x != d
    ensures forall x :: x in t.nodes[c].children || x in t.nodes[d].children <==>
              x in left.children || x in right.children
  {
    var both := left.children + right.children;
    forall x | x in both
      ensures x in t.nodes && (t.nodes[x].parentId == c || t.nodes[x].parentId == d) && x != q && x != c && x != d
    {
      var j :| 0 <= j < |both| && both[j] == x;
      if j < |t.nodes[c].children| {
        ChildIs(t, c, j);
      } else {
        ChildIs(t, d, j - |t.nodes[c].children|);
      }
    }
    assert forall x :: x in both <==> x in left.children || x in right.children;
    assert forall x :: x in t.nodes[c].children + t.nodes[d].children <==>
      x in t.nodes[c].children || x in t.nodes[d].children;
  }

  lemma ChildOfTwo(t: Tree, q: int, i: int, c: int, d: int, left: Node, right: Node, x: int)
    requires Neighbours(t, q, i, c, d) && left.children + right.children == t.nodes[c].children + t.nodes[d].children
    requires x in left.children || x in right.children
    ensures x in t.shape && x in t.nodes && (t.nodes[x].parentId == c || t.nodes[x].parentId == d)
    ensures x != q && x != c && x != d
  {
    ChildrenOfTwo(t, q, i, c, d, left, right);
  }

  lemma MoveParentOk(t: Tree, q: int, i: int, c: int, d: int, left: Node, right: Node, sep: int)
    requires CanMove(t, q, i, c, d, left, right, sep)
    ensures PageOk(MoveBorder(t, q, i, c, d, left, right, sep), q)
  {
    var n, s := t.nodes[q], t.shape[q];
    var t' := MoveBorder(t, q, i, c, d, left, right, sep);
    SpansMove(t.shape, s.level - 1, s.lo, s.hi, n.keys, n.children, i, sep);
    ChildrenOfTwo(t, q, i, c, d, left, right);
    forall j | 0 <= j < |n.children| ensures n.children[j] in t'.nodes && t'.nodes[n.children[j]].parentId == q {
      ChildIs(t, q, j);
    }
    if q != t.root {
      var k := IndexIn(t, q);
    }
  }

  lemma MoveBystanderOk(t: Tree, q: int, i: int, c: int, d: int, left: Node, right: Node, sep: int, x: int)
    requires CanMove(t, q, i, c, d, left, right, sep) && x in t.shape && x != q && x != c && x != d
    ensures PageOk(MoveBorder(t, q, i, c, d, left, right, sep), x)
  {
    var t' := MoveBorder(t, q, i, c, d, left, right, sep);
    var n := t.nodes[x];
    assert PageOk(t, x);
    ChildrenOfTwo(t, q, i, c, d, left, right);
    if n.isLeaf {
      if n.nextLeaf == d {
        assert PageOk(t, d);
        LinksTo(t, q, i, c, d, x);
      }
    }
    StillOk(t, t', x);
  }

  lemma MoveOk(t: Tree, q: int, i: int, c: int, d: int, left: Node, right: Node, sep: int)
    requires CanMove(t, q, i, c, d, left, right, sep)
    requires PageOk(MoveBorder(t, q, i, c, d, left, right, sep), c)
    requires PageOk(MoveBorder(t, q, i, c, d, left, right, sep), d)
    ensures Whole(MoveBorder(t, q, i, c, d, left, right, sep))
  {
    var t' := MoveBorder(t, q, i, c, d, left, right, sep);
    MoveParentOk(t, q, i, c, d, left, right, sep);
    forall x | x in t'.shape ensures PageOk(t', x) {
      if x != q && x != c && x != d {
        MoveBystanderOk(t, q, i, c, d, left, right, sep, x);
      }
    }
  }

  /** The two halves of the keys and values of two neighbouring leaves, cut before position `m`. */
  function LeftOf(n: Node, keys: seq<int>, values: seq<int>, m: int): Node
    requires 0 <= m <= |keys| == |values|
  {
    n.(keys := keys[..m], values := values[..m])
  }

  function RightOf(n: Node, keys: seq<int>, values: seq<int>, m: int): Node
    requires 0 <= m <= |keys| == |values|
  {
    n.(keys := keys[m..], values := values[m..])
  }

  lemma MoveLeafOk(t: Tree, q: int, i: int, c: int, d: int, m: int)
    requires Neighbours(t, q, i, c, d) && t.nodes[c].isLeaf
    requires |t.nodes[c].keys| == |t.nodes[c].values| && |t.nodes[d].keys| == |t.nodes[d].values|
    requires MIN_KEYS <= m <= MAX_KEYS && MIN_KEYS <= |t.nodes[c].keys| + |t.nodes[d].keys| - m <= MAX_KEYS
    ensures
      var l, r := t.nodes[c], t.nodes[d];
      var keys, values := l.keys + r.keys, l.values + r.values;
      Whole(MoveBorder(t, q, i, c, d, LeftOf(l, keys, values, m), RightOf(r, keys, values, m), keys[m]))
  {
    var l, r := t.nodes[c], t.nodes[d];
    var keys, values := l.keys + r.keys, l.values + r.values;
    var left, right, sep := LeftOf(l, keys, values, m), RightOf(r, keys, values, m), keys[m];
    JoinHolds(t.contents, t.shape[c].lo, t.shape[d].lo, t.shape[d].hi, l.keys, l.values, r.keys, r.values);
    assert t.shape[c].lo <= keys[0] < keys[m];
    CutHolds(t.contents, t.shape[c].lo, sep, t.shape[d].hi, keys, values, m);
    MovedLeavesOk(t, q, i, c, d, left, right, sep);
    MoveOk(t, q, i, c, d, left, right, sep);
  }

  lemma MovedLeavesOk(t: Tree, q: int, i: int, c: int, d: int, left: Node, right: Node, sep: int)
    requires CanMove(t, q, i, c, d, left, right, sep) && t.nodes[c].isLeaf
    requires left.children == right.children == []
    requires left.nextLeaf == t.nodes[c].nextLeaf && right.nextLeaf == t.nodes[d].nextLeaf
    requires MIN_KEYS <= |left.keys| <= MAX_KEYS && MIN_KEYS <= |right.keys| <= MAX_KEYS
    requires Holds(t.contents, t.shape[c].lo, sep, left.keys, left.values)
    requires Holds(t.contents, sep, t.shape[d].hi, right.keys, right.values)
    ensures
      var t' := MoveBorder(t, q, i, c, d, left, right, sep);
      PageOk(t', c) && PageOk(t', d)
  {
    LinkedNeighbours(t, q, i, c, d);
  }

  /** The two parts of the keys and children of two neighbouring inner pages around key `m`. */
  function LeftPart(n: Node, keys: seq<int>, children: seq<int>, m: int): Node
    requires 0 <= m < |keys| && |children| == |keys| + 1
  {
    n.(keys := keys[..m], children := children[..m + 1])
  }

  function RightPart(n: Node, keys: seq<int>, children: seq<int>, m: int): Node
    requires 0 <= m < |keys| && |children| == |keys| + 1
  {
    n.(keys := keys[m + 1..], children := children[m + 1..])
  }

  /** Keys and children of two neighbours with the separator between them. */
  ghost function JoinedKeys(t: Tree, q: int, i: int, c: int, d: int): seq<int>
    requires q in t.nodes && 0 <= i < |t.nodes[q].keys| && c in t.nodes && d in t.nodes
  {
    t.nodes[c].keys + [t.nodes[q].keys[i]] + t.nodes[d].keys
  }

  lemma MoveInnerSpans(t: Tree, q: int, i: int, c: int, d: int, m: int)
    requires Neighbours(t, q, i, c, d) && !t.nodes[c].isLeaf
    requires 0 <= m < |JoinedKeys(t, q, i, c, d)|
    ensures
      var keys, children := JoinedKeys(t, q, i, c, d), t.nodes[c].children + t.nodes[d].children;
      var level := t.shape[c].level - 1;
      && |children| == |keys| + 1 && t.shape[c].lo < keys[m] < t.shape[d].hi
      && Spans(t.shape, level, t.shape[c].lo, keys[m], keys[..m], children[..m + 1])
      && Spans(t.shape, level, keys[m], t.shape[d].hi, keys[m + 1..], children[m + 1..])
  {
    var keys, children := JoinedKeys(t, q, i, c, d), t.nodes[c].children + t.nodes[d].children;
    var level := t.shape[c].level - 1;
    JoinSpans(t.shape, level, t.shape[c].lo, t.shape[d].lo, t.shape[d].hi,
              t.nodes[c].keys, t.nodes[c].children, t.nodes[d].keys, t.nodes[d].children);
    CutSpans(t.shape, level, t.shape[c].lo, t.shape[d].hi, keys, children, m);
  }

  /** After the move each child names the neighbour that has it, and keeps its interval. */
  lemma MovedChildren(t: Tree, q: int, i: int, c: int, d: int, left: Node, right: Node, sep: int)
    requires CanMove(t, q, i, c, d, left, right, sep) && !t.nodes[c].isLeaf
    requires forall x :: x in left.children ==> x !in right.children
    ensures
      var t' := MoveBorder(t, q, i, c, d, left, right, sep);
      && Owned(t'.nodes, right.children, d) && Owned(t'.nodes, left.children, c)
      && (forall x :: x in left.children || x in right.children ==>
          x in t.shape && x in t'.shape && t'.shape[x] == t.shape[x])
  {
    var t' := MoveBorder(t, q, i, c, d, left, right, sep);
    forall j | 0 <= j < |left.children|
      ensures left.children[j] in t'.nodes && t'.nodes[left.children[j]].parentId == c
    {
      ChildOfTwo(t, q, i, c, d, left, right, left.children[j]);
    }
    forall j | 0 <= j < |right.children|
      ensures right.children[j] in t'.nodes && t'.nodes[right.children[j]].parentId == d
    {
      ChildOfTwo(t, q, i, c, d, left, right, right.children[j]);
    }
    forall x | x in left.children || x in right.children
      ensures x in t.shape && x in t'.shape && t'.shape[x] == t.shape[x]
    {
      ChildOfTwo(t, q, i, c, d, left, right, x);
    }
  }

  lemma ApartChildren(shape: map<int, Info>, level: int, lo: int, hi: int, keys: seq<int>, children: seq<int>, m: int)
    requires Spans(shape, level, lo, hi, keys, children) && 0 <= m <= |children|
    ensures forall x :: x in children[..m] ==> x !in children[m..]
  {
    forall x | x in children[..m] ensures x !in children[m..] {
      var j :| 0 <= j < m && children[j] == x;
      forall k | 0 <= k < |children| - m ensures children[m..][k] != x {
        ChildrenDiffer(shape, level, lo, hi, keys, children, j, m + k);
      }
    }
  }

  lemma MoveInnerOk(t: Tree, q: int, i: int, c: int, d: int, m: int)
    requires Neighbours(t, q, i, c, d) && !t.nodes[c].isLeaf
    requires |t.nodes[c].children| == |t.nodes[c].keys| + 1 && |t.nodes[d].children| == |t.nodes[d].keys| + 1
    requires MIN_KEYS <= m <= MAX_KEYS && MIN_KEYS <= |t.nodes[c].keys| + |t.nodes[d].keys| - m <= MAX_KEYS
    ensures
      var keys, children := JoinedKeys(t, q, i, c, d), t.nodes[c].children + t.nodes[d].children;
      Whole(MoveBorder(t, q, i, c, d, LeftPart(t.nodes[c], keys, children, m),
                       RightPart(t.nodes[d], keys, children, m), keys[m]))
  {
    var keys, children := JoinedKeys(t, q, i, c, d), t.nodes[c].children + t.nodes[d].children;
    var left, right, sep := LeftPart(t.nodes[c], keys, children, m), RightPart(t.nodes[d], keys, children, m), keys[m];
    MoveInnerSpans(t, q, i, c, d, m);
    MovedInnerOk(t, q, i, c, d, left, right, sep);
    MoveOk(t, q, i, c, d, left, right, sep);
  }

  lemma MovedInnerOk(t: Tree, q: int, i: int, c: int, d: int, left: Node, right: Node, sep: int)
    requires CanMove(t, q, i, c, d, left, right, sep) && !t.nodes[c].isLeaf
    requires left.values == right.values == [] && left.nextLeaf == right.nextLeaf == INVALID_PAGE_ID
    requires MIN_KEYS <= |left.keys| <= MAX_KEYS && MIN_KEYS <= |right.keys| <= MAX_KEYS
    requires Spans(t.shape, t.shape[c].level - 1, t.shape[c].lo, sep, left.keys, left.children)
    requires Spans(t.shape, t.shape[c].level - 1, sep, t.shape[d].hi, right.keys, right.children)
    ensures
      var t' := MoveBorder(t, q, i, c, d, left, right, sep);
      PageOk(t', c) && PageOk(t', d)
  {
    var t' := MoveBorder(t, q, i, c, d, left, right, sep);
    var level := t.shape[c].level - 1;
    JoinSpans(t.shape, level, t.shape[c].lo, sep, t.shape[d].hi, left.keys, left.children, right.keys, right.children);
    var both := left.children + right.children;
    ApartChildren(t.shape, level, t.shape[c].lo, t.shape[d].hi, left.keys + [sep] + right.keys, both, |left.children|);
    assert both[..|left.children|] == left.children && both[|left.children|..] == right.children;
    MovedChildren(t, q, i, c, d, left, right, sep);
    SpansSame(t.shape, t'.shape, level, t.shape[c].lo, sep, left.keys, left.children);
    SpansSame(t.shape, t'.shape, level, sep, t.shape[d].hi, right.keys, right.children);
  }

  // ----- Merging two neighbours

  function ChildRemoved(n: Node, i: int): Node
    requires 0 <= i < |n.keys| && i + 1 < |n.children|
  {
    n.(keys := RemoveAt(n.keys, i), children := RemoveAt(n.children, i + 1))
  }

  /** `c` becomes `left`, `d` goes away, and `q` loses the separator between them. */
  ghost function MergePages(t: Tree, q: int, i: int, c: int, d: int, left: Node): Tree
    requires q in t.nodes && 0 <= i < |t.nodes[q].keys| && i + 1 < |t.nodes[q].children| && c in t.shape && d in t.shape
  {
    t.(nodes := Reparent(t.nodes, left.children, c)[c := left][q := ChildRemoved(t.nodes[q], i)] - {d},
       shape := t.shape[c := t.shape[c].(hi := t.shape[d].hi)] - {d},
       under := q)
  }

  ghost predicate CanMerge(t: Tree, q: int, i: int, c: int, d: int, left: Node) {
    && Neighbours(t, q, i, c, d)
    && left.isLeaf == t.nodes[c].isLeaf && left.pageId == c && left.parentId == q
    && left.children == t.nodes[c].children + t.nodes[d].children
  }

  lemma ParentStays(t: Tree, q: int, i: int, c: int, d: int, x: int)
    requires Neighbours(t, q, i, c, d) && x in t.shape && x in t.nodes && x != d && t.nodes[x].parentId == q
    requires x != t.root
    ensures x in ChildRemoved(t.nodes[q], i).children
  {
    var n := t.nodes[q];
    var k := IndexIn(t, x);
    RemoveAtAt(n.children, i + 1, if k <= i then k else k - 1);
  }

  lemma MergeParentOk(t: Tree, q: int, i: int, c: int, d: int, left: Node)
    requires CanMerge(t, q, i, c, d, left)
    ensures PageOk(MergePages(t, q, i, c, d, left), q)
  {
    var n, s := t.nodes[q], t.shape[q];
    var t' := MergePages(t, q, i, c, d, left);
    var n' := t'.nodes[q];
    SpansMerge(t.shape, s.level - 1, s.lo, s.hi, n.keys, n.children, i);
    ChildrenOfTwo(t, q, i, c, d, left, left.(children := []));
    forall j | 0 <= j < |n'.children| ensures n'.children[j] in t'.nodes && t'.nodes[n'.children[j]].parentId == q {
      RemoveAtAt(n.children, i + 1, j);
      var was := if j <= i then j else j + 1;
      ChildIs(t, q, was);
      ChildrenDiffer(t.shape, s.level - 1, s.lo, s.hi, n.keys, n.children, i + 1, was);
    }
    if q != t.root {
      var k := IndexIn(t, q);
    }
  }

  lemma MergeBystanderOk(t: Tree, q: int, i: int, c: int, d: int, left: Node, x: int)
    requires CanMerge(t, q, i, c, d, left) && x in t.shape && x != q && x != c && x != d
    ensures PageOk(MergePages(t, q, i, c, d, left), x)
  {
    var t' := MergePages(t, q, i, c, d, left);
    assert PageOk(t, x);
    MergeBystanderParent(t, q, i, c, d, left, x);
    if t.nodes[x].isLeaf {
      MergeBystanderNext(t, q, i, c, d, left, x);
    } else {
      MergeBystanderChildren(t, q, i, c, d, left, x);
    }
    StillOk(t, t', x);
  }

  lemma MergeBystanderParent(t: Tree, q: int, i: int, c: int, d: int, left: Node, x: int)
    requires CanMerge(t, q, i, c, d, left) && x in t.shape && x != q && x != c && x != d && PageOk(t, x)
    ensures
      var t' := MergePages(t, q, i, c, d, left);
      x in t'.nodes && t'.nodes[x] == t.nodes[x].(parentId := t'.nodes[x].parentId) && ParentOk(t', x)
  {
    ChildrenOfTwo(t, q, i, c, d, left, left.(children := []));
    if x != t.root && t.nodes[x].parentId == q {
      ParentStays(t, q, i, c, d, x);
    }
  }

  lemma MergeBystanderNext(t: Tree, q: int, i: int, c: int, d: int, left: Node, x: int)
    requires CanMerge(t, q, i, c, d, left) && x in t.shape && x != q && x != c && x != d && PageOk(t, x)
    requires t.nodes[x].isLeaf && x in MergePages(t, q, i, c, d, left).nodes
    requires MergePages(t, q, i, c, d, left).nodes[x].nextLeaf == t.nodes[x].nextLeaf
    ensures NextOk(MergePages(t, q, i, c, d, left), x)
  {
    if t.nodes[x].nextLeaf == d {
      LinksTo(t, q, i, c, d, x);
    }
  }

  lemma MergeBystanderChildren(t: Tree, q: int, i: int, c: int, d: int, left: Node, x: int)
    requires CanMerge(t, q, i, c, d, left) && x in t.shape && x != q && x != c && x != d && PageOk(t, x)
    requires !t.nodes[x].isLeaf
    ensures SameChildren(t, MergePages(t, q, i, c, d, left), x)
  {
    var t' := MergePages(t, q, i, c, d, left);
    ChildrenOfTwo(t, q, i, c, d, left, left.(children := []));
    forall j | 0 <= j < |t.nodes[x].children|
      ensures
        var y := t.nodes[x].children[j];
        y in t.shape && y in t'.shape && t'.shape[y] == t.shape[y] && y in t'.nodes && t'.nodes[y].parentId == x
    {
      ChildIs(t, x, j);
    }
  }

  lemma MergeOk(t: Tree, q: int, i: int, c: int, d: int, left: Node)
    requires CanMerge(t, q, i, c, d, left)
    requires PageOk(MergePages(t, q, i, c, d, left), c)
    ensures TreeOk(MergePages(t, q, i, c, d, left))
  {
    var t' := MergePages(t, q, i, c, d, left);
    MergeParentOk(t, q, i, c, d, left);
    forall x | x in t'.shape ensures PageOk(t', x) {
      if x != q && x != c {
        MergeBystanderOk(t, q, i, c, d, left, x);
      }
    }
  }

  function MergedLeaf(l: Node, r: Node): Node {
    l.(keys := l.keys + r.keys, values := l.values + r.values, nextLeaf := r.nextLeaf)
  }

  function MergedInner(l: Node, sep: int, r: Node): Node {
    l.(keys := l.keys + [sep] + r.keys, children := l.children + r.children)
  }

  lemma MergeLeafOk(t: Tree, q: int, i: int, c: int, d: int)
    requires Neighbours(t, q, i, c, d) && t.nodes[c].isLeaf
    requires |t.nodes[c].keys| + |t.nodes[d].keys| <= MAX_KEYS
    ensures TreeOk(MergePages(t, q, i, c, d, MergedLeaf(t.nodes[c], t.nodes[d])))
  {
    var l, r := t.nodes[c], t.nodes[d];
    JoinHolds(t.contents, t.shape[c].lo, t.shape[d].lo, t.shape[d].hi, l.keys, l.values, r.keys, r.values);
    ParentStays(t, q, i, c, d, c);
    LinkedNeighbours(t, q, i, c, d);
    MergeOk(t, q, i, c, d, MergedLeaf(l, r));
  }

  lemma MergeInnerOk(t: Tree, q: int, i: int, c: int, d: int)
    requires Neighbours(t, q, i, c, d) && !t.nodes[c].isLeaf
    requires |t.nodes[c].keys| + |t.nodes[d].keys| + 1 <= MAX_KEYS
    ensures TreeOk(MergePages(t, q, i, c, d, MergedInner(t.nodes[c], t.nodes[q].keys[i], t.nodes[d])))
  {
    var l, r, sep := t.nodes[c], t.nodes[d], t.nodes[q].keys[i];
    var left := MergedInner(l, sep, r);
    var t' := MergePages(t, q, i, c, d, left);
    var level, lo, hi := t.shape[c].level - 1, t.shape[c].lo, t.shape[d].hi;
    JoinSpans(t.shape, level, lo, t.shape[d].lo, hi, l.keys, l.children, r.keys, r.children);
    ChildrenOfTwo(t, q, i, c, d, left, left.(children := []));
    forall j | 0 <= j < |left.children|
      ensures
        var x := left.children[j];
        x in t'.shape && x in t.shape && t'.shape[x] == t.shape[x] && x in t'.nodes && t'.nodes[x].parentId == c
    {
      assert left.children[j] in left.children;
    }
    SpansSame(t.shape, t'.shape, level, lo, hi, left.keys, left.children);
    ParentStays(t, q, i, c, d, c);
    MergeOk(t, q, i, c, d, left);
  }

  // ----- A root without keys

  /** The only child of the root becomes the root. */
  ghost function CollapseRoot(t: Tree, c: int): Tree
    requires c in t.nodes
  {
    t.(nodes := t.nodes[c := t.nodes[c].(parentId := INVALID_PAGE_ID)] - {t.root}, shape := t.shape - {t.root},
       root := c, under := INVALID_PAGE_ID)
  }

  lemma CollapseRootOk(t: Tree, c: int)
    requires TreeOk(t) && t.over == INVALID_PAGE_ID && t.under == t.root
    requires t.root in t.nodes && !t.nodes[t.root].isLeaf && t.nodes[t.root].keys == []
    requires t.nodes[t.root].children == [c]
    ensures c in t.nodes && Whole(CollapseRoot(t, c))
  {
    assert PageOk(t, t.root);
    ChildIs(t, t.root, 0);
    assert PageOk(t, c);
    var t' := CollapseRoot(t, c);
    forall x | x in t'.shape ensures PageOk(t', x) {
      assert PageOk(t, x);
      if x != t.root {
        BelowRoot(t, x);
        if !t.nodes[x].isLeaf {
          forall j | 0 <= j < |t.nodes[x].children|
            ensures
              var y := t.nodes[x].children[j];
              y in t.shape && y in t'.shape && t'.shape[y] == t.shape[y] && y in t'.nodes && t'.nodes[y].parentId == x
          {
            ChildIs(t, x, j);
          }
        }
        StillOk(t, t', x);
      }
    }
  }
}
