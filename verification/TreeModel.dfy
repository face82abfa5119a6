/** What the pages of the B+ tree must look like, stated page by page. The ghost `shape` gives every
    tree page its level and the half-open interval of keys it is responsible for; separators are the
    ends of those intervals, so a separator may well lie below the least key on its right. */
module TreeModel {
  import opened Pages

  const MAX_KEYS := 4
  const MIN_KEYS := MAX_KEYS / 2

  // Keys are 64-bit integers; SUP_KEY is one past the largest.
  const MIN_KEY := -0x8000_0000_0000_0000
  const SUP_KEY := 0x8000_0000_0000_0000

  predicate IsKey(k: int) { MIN_KEY <= k < SUP_KEY }

  datatype Info = Info(level: nat, lo: int, hi: int)

  /** The stored nodes, their ghost shape, the root, the map stored, and the page that may be
      one key too full or one key too short (or INVALID_PAGE_ID). */
  datatype Tree = Tree(
    nodes: map<int, Node>,
    shape: map<int, Info>,
    root: int,
    contents: map<int, int>,
    over: int,
    under: int)

  predicate Ascending(s: seq<int>) {
    forall i, j :: 0 <= i < j < |s| ==> s[i] < s[j]
  }

  /** The lower and upper end of the interval of the i-th child. */
  function LoOf(keys: seq<int>, lo: int, i: int): int
    requires 0 <= i <= |keys|
  {
    if i == 0 then lo else keys[i - 1]
  }

  function HiOf(keys: seq<int>, hi: int, i: int): int
    requires 0 <= i <= |keys|
  {
    if i == |keys| then hi else keys[i]
  }

  /** What the node codec accepts. */
  predicate Storable(n: Node) {
    && |n.keys| <= MAX_KEYS
    && (if n.isLeaf then |n.values| == |n.keys| else |n.children| == |n.keys| + 1)
  }

  ghost predicate SizeOk(t: Tree, p: int)
    requires p in t.nodes
  {
    var n := t.nodes[p];
    && |n.keys| <= (if p == t.over then MAX_KEYS + 1 else MAX_KEYS)
    && (p != t.root ==> |n.keys| >= (if p == t.under then MIN_KEYS - 1 else MIN_KEYS))
    && (p == t.root && !n.isLeaf ==> |n.keys| >= (if p == t.under then 0 else 1))
  }

  /** The keys and values are exactly what the map stores in [lo, hi), in order. */
  ghost predicate Holds(m: map<int, int>, lo: int, hi: int, keys: seq<int>, values: seq<int>) {
    && |values| == |keys| && Ascending(keys)
    && (forall j :: 0 <= j < |keys| ==> lo <= keys[j] < hi && keys[j] in m && m[keys[j]] == values[j])
    && (forall k :: k in m && lo <= k < hi ==> k in keys)
  }

  /** Child `i` is at the given level and owns the i-th of the intervals the keys cut [lo, hi) into. */
  ghost predicate SpanAt(shape: map<int, Info>, level: int, lo: int, hi: int, keys: seq<int>, children: seq<int>,
                         i: int)
    requires 0 <= i < |children| == |keys| + 1
  {
    var c := children[i];
    c in shape && shape[c].level == level && shape[c].lo == LoOf(keys, lo, i) && shape[c].hi == HiOf(keys, hi, i)
  }

  ghost predicate Spans(shape: map<int, Info>, level: int, lo: int, hi: int, keys: seq<int>, children: seq<int>) {
    && |children| == |keys| + 1 && Ascending(keys)
    && (forall j :: 0 <= j < |keys| ==> lo < keys[j] < hi)
    && (forall i {:trigger SpanAt(shape, level, lo, hi, keys, children, i)} :: 0 <= i < |children| ==>
          SpanAt(shape, level, lo, hi, keys, children, i))
  }

  /** The children name `p` as their parent. */
  ghost predicate Owned(nodes: map<int, Node>, children: seq<int>, p: int) {
    forall i :: 0 <= i < |children| ==> children[i] in nodes && nodes[children[i]].parentId == p
  }

  /** The leaf links to the one that continues its interval. */
  ghost predicate NextOk(t: Tree, p: int)
    requires p in t.nodes && p in t.shape
  {
    var n, i := t.nodes[p], t.shape[p];
    if i.hi == SUP_KEY then n.nextLeaf == INVALID_PAGE_ID
    else
      && n.nextLeaf in t.shape && n.nextLeaf in t.nodes && t.nodes[n.nextLeaf].isLeaf
      && t.shape[n.nextLeaf].lo == i.hi
  }

  ghost predicate LeafOk(t: Tree, p: int)
    requires p in t.nodes && p in t.shape
  {
    var n, i := t.nodes[p], t.shape[p];
    i.level == 0 && n.children == [] && Holds(t.contents, i.lo, i.hi, n.keys, n.values) && NextOk(t, p)
  }

  ghost predicate InnerOk(t: Tree, p: int)
    requires p in t.nodes && p in t.shape
  {
    var n, i := t.nodes[p], t.shape[p];
    && i.level > 0 && n.values == [] && n.nextLeaf == INVALID_PAGE_ID
    && Spans(t.shape, i.level - 1, i.lo, i.hi, n.keys, n.children) && Owned(t.nodes, n.children, p)
  }

  ghost predicate ParentOk(t: Tree, p: int)
    requires p in t.nodes && p in t.shape
  {
    if p == t.root then
      t.nodes[p].parentId == INVALID_PAGE_ID && t.shape[p].lo == MIN_KEY && t.shape[p].hi == SUP_KEY
    else
      var q := t.nodes[p].parentId;
      q in t.shape && q in t.nodes && !t.nodes[q].isLeaf && p in t.nodes[q].children
  }

  ghost predicate PageOk(t: Tree, p: int) {
    && p in t.nodes && p in t.shape && t.root in t.shape
    && p >= 0 && t.nodes[p].pageId == p
    && t.shape[p].level <= t.shape[t.root].level
    && MIN_KEY <= t.shape[p].lo < t.shape[p].hi <= SUP_KEY
    && SizeOk(t, p)
    && (if t.nodes[p].isLeaf then LeafOk(t, p) else InnerOk(t, p))
    && ParentOk(t, p)
  }

  ghost predicate TreeOk(t: Tree) {
    && t.nodes.Keys == t.shape.Keys && t.root in t.shape
    && (forall p {:trigger PageOk(t, p)} :: p in t.shape ==> PageOk(t, p))
    && (forall k :: k in t.contents ==> IsKey(k))
  }

  /** A tree no page of which is too full or too short, or no tree at all. */
  ghost predicate Whole(t: Tree) {
    && t.over == INVALID_PAGE_ID && t.under == INVALID_PAGE_ID
    && if t.root == INVALID_PAGE_ID then t.nodes == map[] && t.shape == map[] && t.contents == map[] else TreeOk(t)
  }

  /** What a leaf says about a key of its interval is what the map says. */
  ghost predicate Knows(t: Tree, p: int, k: int) {
    && p >= 0 && p in t.shape && p in t.nodes && t.nodes[p].pageId == p && t.nodes[p].isLeaf && Covers(t.shape[p], k)
    && Ascending(t.nodes[p].keys) && |t.nodes[p].values| == |t.nodes[p].keys|
    && (k in t.nodes[p].keys <==> k in t.contents)
    && (forall i :: 0 <= i < |t.nodes[p].keys| && t.nodes[p].keys[i] == k ==>
          k in t.contents && t.nodes[p].values[i] == t.contents[k])
  }

  // ----- Intervals

  ghost predicate Covers(i: Info, k: int) { i.lo <= k < i.hi }

  /** Child `i` of `p`: one level down, with the i-th interval and `p` as its parent. */
  lemma ChildIs(t: Tree, p: int, i: int)
    requires PageOk(t, p) && !t.nodes[p].isLeaf && 0 <= i < |t.nodes[p].children|
    ensures |t.nodes[p].children| == |t.nodes[p].keys| + 1
    ensures
      var n, s := t.nodes[p], t.shape[p];
      var c := n.children[i];
      && c in t.shape && c in t.nodes && t.nodes[c].parentId == p && t.shape[c].level == s.level - 1
      && t.shape[c].lo == LoOf(n.keys, s.lo, i) && t.shape[c].hi == HiOf(n.keys, s.hi, i)
  {
    var n, s := t.nodes[p], t.shape[p];
    assert SpanAt(t.shape, s.level - 1, s.lo, s.hi, n.keys, n.children, i);
  }

  /** Position of a child among its parent's children. */
  ghost function IndexIn(t: Tree, p: int): (i: int)
    requires TreeOk(t) && p in t.shape && p != t.root
    ensures
      var q := t.nodes[p].parentId;
      && q in t.shape && q in t.nodes && !t.nodes[q].isLeaf && PageOk(t, q)
      && 0 <= i < |t.nodes[q].children| && t.nodes[q].children[i] == p
      && |t.nodes[q].children| == |t.nodes[q].keys| + 1 && t.shape[q].level == t.shape[p].level + 1
      && t.shape[p].lo == LoOf(t.nodes[q].keys, t.shape[q].lo, i)
      && t.shape[p].hi == HiOf(t.nodes[q].keys, t.shape[q].hi, i)
  {
    assert PageOk(t, p);
    var q := t.nodes[p].parentId;
    assert PageOk(t, q);
    var i :| 0 <= i < |t.nodes[q].children| && t.nodes[q].children[i] == p;
    ChildIs(t, q, i);
    i
  }

  /** Children's intervals do not meet. */
  lemma SiblingsApart(t: Tree, q: int, i: int, j: int, k: int)
    requires PageOk(t, q) && !t.nodes[q].isLeaf
    requires 0 <= i < |t.nodes[q].children| && 0 <= j < |t.nodes[q].children|
    requires t.nodes[q].children[i] in t.shape && t.nodes[q].children[j] in t.shape
    requires Covers(t.shape[t.nodes[q].children[i]], k) && Covers(t.shape[t.nodes[q].children[j]], k)
    ensures i == j
  {
    ChildIs(t, q, i);
    ChildIs(t, q, j);
  }

  lemma ParentCovers(t: Tree, p: int, k: int)
    requires TreeOk(t) && p in t.shape && p != t.root && Covers(t.shape[p], k)
    ensures
      var q := t.nodes[p].parentId;
      p in t.nodes && q in t.shape && t.shape[q].level == t.shape[p].level + 1 && Covers(t.shape[q], k)
  {
    var i := IndexIn(t, p);
  }

  lemma BelowRoot(t: Tree, p: int)
    requires TreeOk(t) && p in t.shape
    ensures p == t.root || t.shape[p].level < t.shape[t.root].level
  {
    if p != t.root {
      var i := IndexIn(t, p);
    }
  }

  /** Two pages of one level that cover a common key are the same page. */
  lemma {:induction false} OnePerLevel(t: Tree, p: int, q: int, k: int)
    requires TreeOk(t) && p in t.shape && q in t.shape && t.shape[p].level == t.shape[q].level
    requires Covers(t.shape[p], k) && Covers(t.shape[q], k)
    ensures p == q
    decreases t.shape[t.root].level - t.shape[p].level
  {
    BelowRoot(t, p);
    BelowRoot(t, q);
    if p != t.root && q != t.root {
      ParentCovers(t, p, k);
      ParentCovers(t, q, k);
      assert PageOk(t, t.nodes[p].parentId);
      OnePerLevel(t, t.nodes[p].parentId, t.nodes[q].parentId, k);
      SiblingsApart(t, t.nodes[p].parentId, IndexIn(t, p), IndexIn(t, q), k);
    }
  }

  /** A separator of `p` never falls strictly inside the interval of a page below `p`'s level. */
  lemma {:induction false} SeparatorOutside(t: Tree, p: int, i: int, q: int)
    requires TreeOk(t) && p in t.shape && q in t.shape && t.shape[q].level < t.shape[p].level
    requires p in t.nodes && 0 <= i < |t.nodes[p].keys| && !t.nodes[p].isLeaf
    ensures !(t.shape[q].lo < t.nodes[p].keys[i] < t.shape[q].hi)
    decreases t.shape[p].level - t.shape[q].level
  {
    assert PageOk(t, p) && PageOk(t, q);
    var s := t.nodes[p].keys[i];
    var j := IndexIn(t, q);
    var r := t.nodes[q].parentId;
    if t.shape[r].level < t.shape[p].level {
      SeparatorOutside(t, p, i, r);
    } else if Covers(t.shape[q], s) {
      OnePerLevel(t, p, r, s);
    }
  }
}
