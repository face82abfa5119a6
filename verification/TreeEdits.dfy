/** The edits the tree operations are made of, on values: each turns a good tree into a good tree
    and says what it does to the map. */
module TreeEdits {
  import opened Collections
  import opened Pages
  import opened TreeModel

  // ----- Positions

  /** Position of the first key not below `k`. */
  ghost predicate LowerBound(keys: seq<int>, k: int, i: int) {
    && 0 <= i <= |keys|
    && (forall j :: 0 <= j < i ==> keys[j] < k)
    && (forall j :: i <= j < |keys| ==> k <= keys[j])
  }

  /** Number of keys not above `k`. */
  ghost predicate UpperBound(keys: seq<int>, k: int, i: int) {
    && 0 <= i <= |keys|
    && (forall j :: 0 <= j < i ==> keys[j] <= k)
    && (forall j :: i <= j < |keys| ==> k < keys[j])
  }

  // ----- Pages an edit leaves alone

  ghost predicate SameContents(t: Tree, t': Tree, i: Info) {
    forall k :: i.lo <= k < i.hi ==>
      (k in t.contents <==> k in t'.contents) && (k in t.contents ==> t'.contents[k] == t.contents[k])
  }

  /** The children keep their places. */
  ghost predicate SameChildren(t: Tree, t': Tree, p: int)
    requires p in t.nodes
  {
    forall i :: 0 <= i < |t.nodes[p].children| ==>
      var c := t.nodes[p].children[i];
      c in t.shape && c in t'.shape && t'.shape[c] == t.shape[c] && c in t'.nodes && t'.nodes[c].parentId == p
  }

  lemma SpansSame(shape: map<int, Info>, shape': map<int, Info>, level: int, lo: int, hi: int,
                  keys: seq<int>, children: seq<int>)
    requires Spans(shape, level, lo, hi, keys, children)
    requires forall i :: 0 <= i < |children| ==>
               children[i] in shape' && (children[i] in shape ==> shape'[children[i]] == shape[children[i]])
    ensures Spans(shape', level, lo, hi, keys, children)
  {
    forall i | 0 <= i < |children| ensures SpanAt(shape', level, lo, hi, keys, children, i) {
      assert SpanAt(shape, level, lo, hi, keys, children, i);
    }
  }

  /** A page keeps its node, except perhaps its parent, and its interval, and its surroundings fit. */
  lemma StillOk(t: Tree, t': Tree, p: int)
    requires PageOk(t, p) && p in t'.nodes && p in t'.shape && t'.root in t'.shape
    requires t'.nodes[p] == t.nodes[p].(parentId := t'.nodes[p].parentId) && t'.shape[p] == t.shape[p]
    requires t'.shape[p].level <= t'.shape[t'.root].level
    requires SizeOk(t', p)
    requires t.nodes[p].isLeaf ==> SameContents(t, t', t.shape[p]) && NextOk(t', p)
    requires !t.nodes[p].isLeaf ==> SameChildren(t, t', p)
    requires ParentOk(t', p)
    ensures PageOk(t', p)
  {
    var n, s := t.nodes[p], t.shape[p];
    if !n.isLeaf {
      SpansSame(t.shape, t'.shape, s.level - 1, s.lo, s.hi, n.keys, n.children);
    }
  }

  // ----- Keys in a leaf

  function PutNode(n: Node, i: int, k: int, v: int): Node
    requires 0 <= i <= |n.keys| && i <= |n.values|
  {
    n.(keys := InsertAt(n.keys, i, k), values := InsertAt(n.values, i, v))
  }

  function PutKey(t: Tree, p: int, i: int, k: int, v: int): Tree
    requires p in t.nodes && 0 <= i <= |t.nodes[p].keys| && i <= |t.nodes[p].values|
  {
    t.(nodes := t.nodes[p := PutNode(t.nodes[p], i, k, v)], contents := t.contents[k := v], over := p)
  }

  lemma PutKeyAscends(keys: seq<int>, i: int, k: int)
    requires Ascending(keys) && LowerBound(keys, k, i) && k !in keys
    ensures Ascending(InsertAt(keys, i, k))
    ensures forall x :: x in InsertAt(keys, i, k) <==> x == k || x in keys
  {
    var keys' := InsertAt(keys, i, k);
    forall a, b | 0 <= a < b < |keys'| ensures keys'[a] < keys'[b] {
      InsertAtAt(keys, i, k, a);
      InsertAtAt(keys, i, k, b);
    }
  }

  lemma PutLeafOk(t: Tree, p: int, i: int, k: int, v: int)
    requires PageOk(t, p) && t.over == INVALID_PAGE_ID && t.under == INVALID_PAGE_ID
    requires t.nodes[p].isLeaf && Covers(t.shape[p], k)
    requires LowerBound(t.nodes[p].keys, k, i) && k !in t.nodes[p].keys
    requires NextOk(PutKey(t, p, i, k, v), p) && ParentOk(PutKey(t, p, i, k, v), p)
    ensures PageOk(PutKey(t, p, i, k, v), p)
  {
    var n, t' := t.nodes[p], PutKey(t, p, i, k, v);
    PutKeyAscends(n.keys, i, k);
    var n' := t'.nodes[p];
    forall j | 0 <= j < |n'.keys|
      ensures t.shape[p].lo <= n'.keys[j] < t.shape[p].hi
      ensures n'.keys[j] in t'.contents && t'.contents[n'.keys[j]] == n'.values[j]
    {
      InsertAtAt(n.keys, i, k, j);
      InsertAtAt(n.values, i, v, j);
    }
  }

  lemma PutKeyOk(t: Tree, p: int, i: int, k: int, v: int)
    requires TreeOk(t) && t.over == INVALID_PAGE_ID && t.under == INVALID_PAGE_ID
    requires p in t.nodes && t.nodes[p].isLeaf && Covers(t.shape[p], k)
    requires LowerBound(t.nodes[p].keys, k, i) && k !in t.nodes[p].keys
    ensures i <= |t.nodes[p].values| && TreeOk(PutKey(t, p, i, k, v))
  {
    assert PageOk(t, p);
    var t' := PutKey(t, p, i, k, v);
    forall q | q in t'.shape ensures PageOk(t', q) {
      assert PageOk(t, q);
      if q != p {
        if t.nodes[q].isLeaf && Covers(t.shape[q], k) {
          OnePerLevel(t, p, q, k);
        }
        StillOk(t, t', q);
      } else {
        PutLeafOk(t, p, i, k, v);
      }
    }
  }

  function DropNode(n: Node, i: int): Node
    requires 0 <= i < |n.keys| && i < |n.values|
  {
    n.(keys := RemoveAt(n.keys, i), values := RemoveAt(n.values, i))
  }

  function DropKey(t: Tree, p: int, i: int): Tree
    requires p in t.nodes && 0 <= i < |t.nodes[p].keys| && i < |t.nodes[p].values|
  {
    var n := t.nodes[p];
    t.(nodes := t.nodes[p := DropNode(n, i)], contents := t.contents - {n.keys[i]}, under := p)
  }

  lemma DropKeyHolds(m: map<int, int>, lo: int, hi: int, keys: seq<int>, values: seq<int>, i: int)
    requires Holds(m, lo, hi, keys, values) && 0 <= i < |keys|
    ensures Holds(m - {keys[i]}, lo, hi, RemoveAt(keys, i), RemoveAt(values, i))
  {
    var keys', m' := RemoveAt(keys, i), m - {keys[i]};
    forall j | 0 <= j < |keys'|
      ensures lo <= keys'[j] < hi && keys'[j] in m' && m'[keys'[j]] == RemoveAt(values, i)[j]
    {
      RemoveAtAt(keys, i, j);
      RemoveAtAt(values, i, j);
    }
    forall a, b | 0 <= a < b < |keys'| ensures keys'[a] < keys'[b] {
      RemoveAtAt(keys, i, a);
      RemoveAtAt(keys, i, b);
    }
    forall k | k in m' && lo <= k < hi ensures k in keys' {
      var j :| 0 <= j < |keys| && keys[j] == k;
      RemoveAtAt(keys, i, if j < i then j else j - 1);
    }
  }

  lemma DropKeyOk(t: Tree, p: int, i: int)
    requires TreeOk(t) && t.over == INVALID_PAGE_ID && t.under == INVALID_PAGE_ID
    requires p in t.shape && p in t.nodes && t.nodes[p].isLeaf && 0 <= i < |t.nodes[p].keys|
    ensures i < |t.nodes[p].values| && TreeOk(DropKey(t, p, i))
  {
    assert PageOk(t, p);
    var n, s := t.nodes[p], t.shape[p];
    var t' := DropKey(t, p, i);
    DropKeyHolds(t.contents, s.lo, s.hi, n.keys, n.values, i);
    forall q | q in t'.shape ensures PageOk(t', q) {
      assert PageOk(t, q);
      if q != p {
        if t.nodes[q].isLeaf && Covers(t.shape[q], n.keys[i]) {
          OnePerLevel(t, p, q, n.keys[i]);
        }
        StillOk(t, t', q);
      }
    }
  }

  /** A tree with no page out of size is whole. */
  lemma Settle(t: Tree)
    requires TreeOk(t)
    requires t.over != INVALID_PAGE_ID && t.over in t.nodes ==> |t.nodes[t.over].keys| <= MAX_KEYS
    requires t.under != INVALID_PAGE_ID && t.under in t.nodes ==>
      |t.nodes[t.under].keys| >= if t.under != t.root then MIN_KEYS else if t.nodes[t.under].isLeaf then 0 else 1
    ensures Whole(t.(over := INVALID_PAGE_ID, under := INVALID_PAGE_ID))
  {
    var t' := t.(over := INVALID_PAGE_ID, under := INVALID_PAGE_ID);
    assert PageOk(t, t.root);
    forall q | q in t'.shape ensures PageOk(t', q) {
      assert PageOk(t, q);
      StillOk(t, t', q);
    }
  }

  /** A tree of one leaf with one key. */
  lemma SingleLeafIsWhole(p: int, k: int, v: int)
    requires p >= 0 && IsKey(k)
    ensures Whole(Tree(map[p := Node(true, p, INVALID_PAGE_ID, [k], [v], [], INVALID_PAGE_ID)],
                       map[p := Info(0, MIN_KEY, SUP_KEY)], p, map[k := v], INVALID_PAGE_ID, INVALID_PAGE_ID))
  {
    var t := Tree(map[p := Node(true, p, INVALID_PAGE_ID, [k], [v], [], INVALID_PAGE_ID)],
                  map[p := Info(0, MIN_KEY, SUP_KEY)], p, map[k := v], INVALID_PAGE_ID, INVALID_PAGE_ID);
    assert PageOk(t, p);
  }

  // ----- Cutting and joining what a page holds

  lemma JoinHolds(m: map<int, int>, lo: int, s: int, hi: int, k1: seq<int>, v1: seq<int>, k2: seq<int>, v2: seq<int>)
    requires Holds(m, lo, s, k1, v1) && Holds(m, s, hi, k2, v2) && lo <= s <= hi
    ensures Holds(m, lo, hi, k1 + k2, v1 + v2)
  {
  }

  lemma CutHoldsLeft(m: map<int, int>, lo: int, s: int, hi: int, keys: seq<int>, values: seq<int>, c: int)
    requires Holds(m, lo, hi, keys, values) && 0 <= c <= |keys| && s <= hi
    requires c > 0 ==> keys[c - 1] < s
    requires c < |keys| ==> s <= keys[c]
    ensures Holds(m, lo, s, keys[..c], values[..c])
  {
    forall k | k in m && lo <= k < s ensures k in keys[..c] {
      var j :| 0 <= j < |keys| && keys[j] == k;
      assert j < c;
      assert keys[..c][j] == k;
    }
  }

  lemma CutHoldsRight(m: map<int, int>, lo: int, s: int, hi: int, keys: seq<int>, values: seq<int>, c: int)
    requires Holds(m, lo, hi, keys, values) && 0 <= c <= |keys| && lo <= s
    requires c > 0 ==> keys[c - 1] < s
    requires c < |keys| ==> s <= keys[c]
    ensures Holds(m, s, hi, keys[c..], values[c..])
  {
    var k2, v2 := keys[c..], values[c..];
    forall j | 0 <= j < |k2| ensures s <= k2[j] < hi && k2[j] in m && m[k2[j]] == v2[j] {
      assert k2[j] == keys[c + j] && v2[j] == values[c + j] && keys[c] <= keys[c + j];
    }
    forall a, b | 0 <= a < b < |k2| ensures k2[a] < k2[b] {
      assert keys[c + a] < keys[c + b];
    }
    forall k | k in m && s <= k < hi ensures k in k2 {
      var j :| 0 <= j < |keys| && keys[j] == k;
      assert j >= c;
      assert k2[j - c] == k;
    }
  }

  lemma CutHolds(m: map<int, int>, lo: int, s: int, hi: int, keys: seq<int>, values: seq<int>, c: int)
    requires Holds(m, lo, hi, keys, values) && 0 <= c <= |keys| && lo <= s <= hi
    requires c > 0 ==> keys[c - 1] < s
    requires c < |keys| ==> s <= keys[c]
    ensures Holds(m, lo, s, keys[..c], values[..c]) && Holds(m, s, hi, keys[c..], values[c..])
  {
    CutHoldsLeft(m, lo, s, hi, keys, values, c);
    CutHoldsRight(m, lo, s, hi, keys, values, c);
  }

  lemma JoinSpans(shape: map<int, Info>, level: int, lo: int, s: int, hi: int,
                  k1: seq<int>, c1: seq<int>, k2: seq<int>, c2: seq<int>)
    requires Spans(shape, level, lo, s, k1, c1) && Spans(shape, level, s, hi, k2, c2) && lo < s < hi
    ensures Spans(shape, level, lo, hi, k1 + [s] + k2, c1 + c2)
  {
    var keys, children := k1 + [s] + k2, c1 + c2;
    forall i | 0 <= i < |children| ensures SpanAt(shape, level, lo, hi, keys, children, i) {
      if i < |c1| {
        assert SpanAt(shape, level, lo, s, k1, c1, i);
      } else {
        assert SpanAt(shape, level, s, hi, k2, c2, i - |c1|);
      }
    }
  }

  lemma CutSpans(shape: map<int, Info>, level: int, lo: int, hi: int, keys: seq<int>, children: seq<int>, m: int)
    requires Spans(shape, level, lo, hi, keys, children) && 0 <= m < |keys|
    ensures Spans(shape, level, lo, keys[m], keys[..m], children[..m + 1])
    ensures Spans(shape, level, keys[m], hi, keys[m + 1..], children[m + 1..])
  {
    var s, k1, c1, k2, c2 := keys[m], keys[..m], children[..m + 1], keys[m + 1..], children[m + 1..];
    forall i | 0 <= i < |c1| ensures SpanAt(shape, level, lo, s, k1, c1, i) {
      assert SpanAt(shape, level, lo, hi, keys, children, i);
    }
    forall i | 0 <= i < |c2| ensures SpanAt(shape, level, s, hi, k2, c2, i) {
      assert SpanAt(shape, level, lo, hi, keys, children, i + m + 1);
    }
  }

  // ----- A parent whose children's intervals change

  lemma ChildrenDiffer(shape: map<int, Info>, level: int, lo: int, hi: int, keys: seq<int>, children: seq<int>,
                       i: int, j: int)
    requires Spans(shape, level, lo, hi, keys, children) && 0 <= i < |children| && 0 <= j < |children| && i != j
    ensures children[i] != children[j]
  {
    assert SpanAt(shape, level, lo, hi, keys, children, i);
    assert SpanAt(shape, level, lo, hi, keys, children, j);
  }

  /** Child `i` is cut in two at `s`. */
  lemma SpansSplit(shape: map<int, Info>, level: int, lo: int, hi: int, keys: seq<int>, children: seq<int>,
                   i: int, r: int, s: int)
    requires Spans(shape, level, lo, hi, keys, children) && 0 <= i < |children| && r !in shape && level >= 0
    requires children[i] in shape && shape[children[i]].lo < s < shape[children[i]].hi
    ensures
      var c := children[i];
      Spans(shape[c := shape[c].(hi := s)][r := Info(level, s, shape[c].hi)], level, lo, hi,
            InsertAt(keys, i, s), InsertAt(children, i + 1, r))
  {
    var c := children[i];
    var shape' := shape[c := shape[c].(hi := s)][r := Info(level, s, shape[c].hi)];
    var keys', children' := InsertAt(keys, i, s), InsertAt(children, i + 1, r);
    assert SpanAt(shape, level, lo, hi, keys, children, i);
    forall j | 0 <= j < |children'| ensures SpanAt(shape', level, lo, hi, keys', children', j) {
      InsertAtAt(children, i + 1, r, j);
      if j > 0 { InsertAtAt(keys, i, s, j - 1); }
      if j < |keys'| { InsertAtAt(keys, i, s, j); }
      var was := if j <= i then j else j - 1;
      assert SpanAt(shape, level, lo, hi, keys, children, was);
      if was != i {
        ChildrenDiffer(shape, level, lo, hi, keys, children, i, was);
      }
    }
    forall a, b | 0 <= a < b < |keys'| ensures keys'[a] < keys'[b] {
      InsertAtAt(keys, i, s, a);
      InsertAtAt(keys, i, s, b);
    }
    forall a | 0 <= a < |keys'| ensures lo < keys'[a] < hi {
      InsertAtAt(keys, i, s, a);
    }
  }

  /** The border between children `i` and `i + 1` moves to `s`. */
  lemma SpansMove(shape: map<int, Info>, level: int, lo: int, hi: int, keys: seq<int>, children: seq<int>, i: int,
                  s: int)
    requires Spans(shape, level, lo, hi, keys, children) && 0 <= i < |keys|
    requires children[i] in shape && children[i + 1] in shape
    requires shape[children[i]].lo < s < shape[children[i + 1]].hi
    ensures
      var c, d := children[i], children[i + 1];
      Spans(shape[c := shape[c].(hi := s)][d := shape[d].(lo := s)], level, lo, hi, keys[i := s], children)
  {
    var c, d := children[i], children[i + 1];
    var shape', keys' := shape[c := shape[c].(hi := s)][d := shape[d].(lo := s)], keys[i := s];
    assert SpanAt(shape, level, lo, hi, keys, children, i) && SpanAt(shape, level, lo, hi, keys, children, i + 1);
    ChildrenDiffer(shape, level, lo, hi, keys, children, i, i + 1);
    forall j | 0 <= j < |children| ensures SpanAt(shape', level, lo, hi, keys', children, j) {
      assert SpanAt(shape, level, lo, hi, keys, children, j);
      if j != i { ChildrenDiffer(shape, level, lo, hi, keys, children, i, j); }
      if j != i + 1 { ChildrenDiffer(shape, level, lo, hi, keys, children, i + 1, j); }
    }
  }

  /** Child `i + 1` is absorbed by child `i`. */
  lemma SpansMerge(shape: map<int, Info>, level: int, lo: int, hi: int, keys: seq<int>, children: seq<int>, i: int)
    requires Spans(shape, level, lo, hi, keys, children) && 0 <= i < |keys|
    requires children[i] in shape && children[i + 1] in shape
    ensures
      var c, d := children[i], children[i + 1];
      Spans(shape[c := shape[c].(hi := shape[d].hi)] - {d}, level, lo, hi, RemoveAt(keys, i), RemoveAt(children, i + 1))
  {
    var c, d := children[i], children[i + 1];
    var shape' := shape[c := shape[c].(hi := shape[d].hi)] - {d};
    var keys', children' := RemoveAt(keys, i), RemoveAt(children, i + 1);
    assert SpanAt(shape, level, lo, hi, keys, children, i) && SpanAt(shape, level, lo, hi, keys, children, i + 1);
    ChildrenDiffer(shape, level, lo, hi, keys, children, i, i + 1);
    forall j | 0 <= j < |children'| ensures SpanAt(shape', level, lo, hi, keys', children', j) {
      RemoveAtAt(children, i + 1, j);
      if j > 0 { RemoveAtAt(keys, i, j - 1); }
      if j < |keys'| { RemoveAtAt(keys, i, j); }
      var was := if j <= i then j else j + 1;
      assert SpanAt(shape, level, lo, hi, keys, children, was);
      if was != i { ChildrenDiffer(shape, level, lo, hi, keys, children, i, was); }
      if was != i + 1 { ChildrenDiffer(shape, level, lo, hi, keys, children, i + 1, was); }
    }
    forall a, b | 0 <= a < b < |keys'| ensures keys'[a] < keys'[b] {
      RemoveAtAt(keys, i, a);
      RemoveAtAt(keys, i, b);
    }
    forall a | 0 <= a < |keys'| ensures lo < keys'[a] < hi {
      RemoveAtAt(keys, i, a);
    }
  }
}
