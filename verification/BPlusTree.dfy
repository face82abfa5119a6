/** The B+ tree over the buffer pool: the operations as the source runs them, page by page. */
module BPlusTree {
  import opened Options
  import opened Pages
  import opened BufferPool
  import opened PageAccess
  import opened TreeModel
  import opened TreeEdits
  import opened TreeSplit
  import opened TreeMerge
  import opened TreeSeparator
  import opened TreeInsert
  import opened TreeDelete
  import opened TreeScan

  // ----- Searching in a page

  /** `std::lower_bound` */
  method FindLowerBound(keys: seq<int>, k: int) returns (i: int)
    requires Ascending(keys)
    ensures LowerBound(keys, k, i)
    ensures k in keys <==> i < |keys| && keys[i] == k
  {
    i := 0;
    while i < |keys| && keys[i] < k
      invariant 0 <= i <= |keys| && forall j :: 0 <= j < i ==> keys[j] < k
    {
      i := i + 1;
    }
  }

  /** `std::upper_bound` */
  method FindUpperBound(keys: seq<int>, k: int) returns (i: int)
    requires Ascending(keys)
    ensures UpperBound(keys, k, i)
  {
    i := 0;
    while i < |keys| && keys[i] <= k
      invariant 0 <= i <= |keys| && forall j :: 0 <= j < i ==> keys[j] <= k
    {
      i := i + 1;
    }
  }

  /** `std::find` */
  method FindIndex(s: seq<int>, x: int) returns (i: int)
    requires x in s
    ensures i == IndexOf(s, x)
  {
    i := 0;
    while s[i] != x
      invariant 0 <= i <= IndexOf(s, x)
      decreases |s| - i
    {
      i := i + 1;
    }
  }

  lemma ReparentOneMore(nodes: map<int, Node>, children: seq<int>, i: int, p: int)
    requires 0 < i <= |children| && children[i - 1] in nodes
    ensures
      var before, c := Reparent(nodes, children[..i - 1], p), children[i - 1];
      Reparent(nodes, children[..i], p) == before[c := before[c].(parentId := p)]
  {
    assert children[..i] == children[..i - 1] + [children[i - 1]];
  }

  lemma KeysInTwo(logical: map<int, Content>, nodes: map<int, Node>, others: map<int, Content>)
    requires forall p :: p in nodes ==> p in logical
    requires forall p :: p in others <==> p in logical && p !in nodes
    ensures logical.Keys == nodes.Keys + others.Keys && nodes.Keys !! others.Keys
  {
    forall p | p in nodes.Keys ensures p !in others.Keys && p in logical.Keys {
      assert p in nodes;
    }
    forall p | p in others.Keys ensures p in logical.Keys {
      assert p in others;
    }
    forall p | p in logical.Keys - nodes.Keys ensures p in others.Keys {
      assert p in logical && p !in nodes;
    }
    assert logical.Keys == nodes.Keys + (logical.Keys - nodes.Keys);
    assert others.Keys <= logical.Keys - nodes.Keys <= others.Keys;
  }

  /** A page that is new, and no child of itself, may be written before or after the others. */
  lemma NewPageLast(nodes: map<int, Node>, children: seq<int>, p: int, left: Node, right: Node)
    requires p in nodes && right.pageId !in nodes && forall c :: c in children ==> c in nodes
    ensures Reparent(nodes[right.pageId := right], children, right.pageId)[p := left] ==
            Reparent(nodes, children, right.pageId)[p := left][right.pageId := right]
  {
  }

  ghost predicate Opened(k: int) { true }

  class Index {
    const pool: Pool
    var rootPageId: int
    ghost var nodes: map<int, Node>       // what the tree's pages hold
    ghost var shape: map<int, Info>
    ghost var contents: map<int, int>     // the map the tree stands for
    ghost var others: map<int, Content>   // the pages that are not the tree's

    ghost function View(): Tree
      reads this
    {
      Tree(nodes, shape, rootPageId, contents, INVALID_PAGE_ID, INVALID_PAGE_ID)
    }

    /** The pool holds the tree's pages, nobody uses them, and one frame at least is not in use. */
    ghost predicate HoldsNodes()
      reads this`nodes, pool, pool.disk
    {
      && pool.Valid() && |pool.pins| < |pool.frames| && pool.pins.Keys !! nodes.Keys
      && (forall p :: p in nodes ==> p >= 0 && p in pool.logical && pool.logical[p] == OfNode(nodes[p]))
    }

    /** Every allocated page is the tree's or one of the others. */
    ghost predicate Holding()
      reads this`nodes, this`others, pool, pool.disk
    {
      && HoldsNodes()
      && (forall p :: p in others <==> p in pool.logical && p !in nodes)
      && (forall p :: p in others ==> others[p] == pool.logical[p])
    }

    /** `Holding` as a fact to pass around, opened only where `Opened` is mentioned. */
    ghost predicate Ready()
      reads this`nodes, this`others, pool, pool.disk
    {
      forall k {:trigger Opened(k)} :: Opened(k) ==> Holding()
    }

    ghost predicate Valid()
      reads this, pool, pool.disk
    {
      Ready() && Whole(View())
    }

    constructor (pool: Pool)
      requires pool.Valid() && |pool.pins| < |pool.frames|
      ensures Valid() && this.pool == pool && rootPageId == INVALID_PAGE_ID && contents == map[] && nodes == map[]
      ensures others == pool.logical
    {
      this.pool := pool;
      others := pool.logical;
      rootPageId, nodes, shape, contents := INVALID_PAGE_ID, map[], map[], map[];
    }

    // ----- Pages

    /** Takes note of the other pages that were made, changed or deleted meanwhile. */
    ghost method Adopt(pages: map<int, Content>)
      requires HoldsNodes()
      requires forall p :: p in pages <==> p in pool.logical && p !in nodes
      requires forall p :: p in pages ==> pages[p] == pool.logical[p]
      modifies this`others
      ensures Ready() && others == pages
    {
      others := pages;
    }

    lemma PagesInTwo()
      requires Ready()
      ensures pool.Valid() && pool.logical.Keys == nodes.Keys + others.Keys && nodes.Keys !! others.Keys
    {
      assert Opened(0);
      KeysInTwo(pool.logical, nodes, others);
    }

    lemma FreshNext()
      requires Ready()
      ensures pool.disk.NextId() >= 0 && pool.disk.NextId() !in nodes
    {
      assert Opened(0);
      pool.NextIsFresh();
    }

    method ReadNode(p: int) returns (n: Node)
      requires Ready() && p in nodes
      modifies pool, pool.disk
      ensures Ready() && n == nodes[p]
      ensures pool.logical == old(pool.logical) && pool.OneAtATime()
      ensures pool.disk.NextId() == old(pool.disk.NextId())
    {
      assert Opened(0);
      var data := ReadPage(pool, p);
      n := data.node;
    }

    method WriteNode(n: Node)
      requires Ready() && n.pageId in nodes && Storable(n)
      modifies this`nodes, pool, pool.disk
      ensures Ready() && nodes == old(nodes)[n.pageId := n]
      ensures pool.OneAtATime()
      ensures pool.disk.NextId() == old(pool.disk.NextId())
    {
      assert Opened(0);
      WritePage(pool, n.pageId, OfNode(n));
      nodes := nodes[n.pageId := n];
    }

    method CreateNode(n: Node) returns (p: int)
      requires Ready() && Storable(n)
      modifies this`nodes, pool, pool.disk
      ensures Ready() && p == old(pool.disk.NextId()) && p >= 0 && p !in old(nodes) && p !in old(pool.logical)
      ensures nodes == old(nodes)[p := n.(pageId := p)]
      ensures pool.OneAtATime()
    {
      assert Opened(0);
      p := CreatePage(pool, (id: int) => OfNode(n.(pageId := id)));
      nodes := nodes[p := n.(pageId := p)];
    }

    method DeleteNode(p: int)
      requires Ready() && p in nodes
      modifies this`nodes, pool, pool.disk
      ensures Ready() && nodes == old(nodes) - {p}
      ensures pool.OneAtATime()
    {
      assert Opened(0);
      var ok := pool.DeletePage(p);
      nodes := nodes - {p};
    }

    method SetChildrenParent(children: seq<int>, parent: int)
      requires Ready() && forall c :: c in children ==> c in nodes && Storable(nodes[c]) && nodes[c].pageId == c
      modifies this`nodes, pool, pool.disk
      ensures Ready() && nodes == Reparent(old(nodes), children, parent)
      ensures pool.OneAtATime()
      ensures pool.disk.NextId() == old(pool.disk.NextId())
    {
      var i := 0;
      while i < |children|
        invariant 0 <= i <= |children|
        invariant Ready() && nodes == Reparent(old(nodes), children[..i], parent)
        invariant pool.OneAtATime()
        invariant pool.disk.NextId() == old(pool.disk.NextId())
      {
        var child := ReadNode(children[i]);
        WriteNode(child.(parentId := parent));
        i := i + 1;
        ReparentOneMore(old(nodes), children, i, parent);
      }
      assert children[..i] == children;
    }

    // ----- Searching

    /** The leaf responsible for the key; `visits` counts the pages read, one for each level. */
    method FindLeaf(key: int) returns (p: int, ghost visits: nat)
      requires Valid() && rootPageId != INVALID_PAGE_ID && IsKey(key)
      modifies pool, pool.disk
      ensures Valid() && pool.logical == old(pool.logical)
      ensures pool.OneAtATime()
      ensures pool.disk.NextId() == old(pool.disk.NextId())
      ensures Knows(View(), p, key)
      ensures rootPageId in shape && visits == shape[rootPageId].level + 1
    {
      p, visits := rootPageId, 1;
      assert PageOk(View(), p);
      var n := ReadNode(p);
      while !n.isLeaf
        invariant Valid() && pool.logical == old(pool.logical)
        invariant pool.OneAtATime()
        invariant pool.disk.NextId() == old(pool.disk.NextId())
        invariant p in shape && p in nodes && n == nodes[p] && Covers(shape[p], key) && PageOk(View(), p)
        invariant visits + shape[p].level == shape[rootPageId].level + 1
        decreases shape[p].level
      {
        var i := FindUpperBound(n.keys, key);
        ChildIs(View(), p, i);
        p := n.children[i];
        assert PageOk(View(), p);
        n := ReadNode(p);
        visits := visits + 1;
      }
    }

    method Search(key: int) returns (value: Option<int>)
      requires Valid() && IsKey(key)
      modifies pool, pool.disk
      ensures Valid() && pool.logical == old(pool.logical)
      ensures pool.OneAtATime()
      ensures pool.disk.NextId() == old(pool.disk.NextId())
      ensures value == if key in contents then Some(contents[key]) else None
    {
      if rootPageId == INVALID_PAGE_ID {
        return None;
      }
      var p, visits := FindLeaf(key);
      var leaf := ReadNode(p);
      var i := FindLowerBound(leaf.keys, key);
      if i == |leaf.keys| || leaf.keys[i] != key {
        return None;
      }
      return Some(leaf.values[i]);
    }

    // ----- Separators

    /** The least key below page `p`, which is that of the leaf where `p`'s interval begins. */
    method FirstKey(p: int, ghost leaf: int) returns (k: int)
      requires Valid() && rootPageId != INVALID_PAGE_ID && p in shape
      requires leaf in shape && leaf in nodes && nodes[leaf].isLeaf && nodes[leaf].keys != []
      requires shape[p].lo == shape[leaf].lo
      modifies pool, pool.disk
      ensures Valid() && pool.logical == old(pool.logical)
      ensures pool.OneAtATime()
      ensures k == nodes[leaf].keys[0]
    {
      assert PageOk(View(), p) && PageOk(View(), leaf);
      var n := ReadNode(p);
      ghost var q := p;
      while !n.isLeaf
        invariant Valid() && pool.logical == old(pool.logical)
        invariant pool.OneAtATime()
        invariant q in shape && q in nodes && n == nodes[q] && shape[q].lo == shape[leaf].lo && PageOk(View(), q)
        decreases shape[q].level
      {
        ChildIs(View(), q, 0);
        q := n.children[0];
        assert PageOk(View(), q);
        n := ReadNode(n.children[0]);
      }
      OnePerLevel(View(), q, leaf, shape[leaf].lo);
      k := n.keys[0];
    }

    /** Writes the parent back with its key `i` raised. */
    method WriteRaised(parent: Node, i: int, least: int)
      requires Ready() && parent.pageId in nodes && parent == nodes[parent.pageId] && 0 <= i < |parent.keys|
      requires
        var t := RaiseSeparator(View(), parent.pageId, i, least);
        Whole(t) && Storable(t.nodes[parent.pageId])
      modifies this`nodes, this`shape, pool, pool.disk
      ensures Valid() && nodes.Keys == old(nodes.Keys)
      ensures View() == RaiseSeparator(old(View()), parent.pageId, i, least)
      ensures pool.OneAtATime()
    {
      ghost var t := RaiseSeparator(View(), parent.pageId, i, least);
      WriteNode(parent.(keys := parent.keys[i := least]));
      shape := t.shape;
      assert View() == t;
    }

    /** Raises the separator left of a leaf, where its interval begins, to the leaf's least key; the leftmost
        leaf has none. The map stays. */
    method PropagateMinimumChange(leaf: int)
      requires Valid() && leaf in shape && leaf in nodes && nodes[leaf].isLeaf
      requires leaf != rootPageId ==> nodes[leaf].keys != []
      modifies this`nodes, this`shape, pool, pool.disk
      ensures Valid() && nodes.Keys == old(nodes.Keys)
      ensures old(shape[leaf].lo) == MIN_KEY ==> View() == old(View())
      ensures old(shape[leaf].lo) != MIN_KEY ==>
                && leaf in nodes && leaf in shape && nodes[leaf] == old(nodes[leaf]) && nodes[leaf].keys != []
                && shape[leaf].lo == nodes[leaf].keys[0]
      ensures pool.OneAtATime()
    {
      var current := leaf;
      assert PageOk(View(), leaf);
      while current != rootPageId
        invariant Valid() && rootPageId != INVALID_PAGE_ID
        invariant nodes == old(nodes) && shape == old(shape) && pool.logical == old(pool.logical)
        invariant pool.OneAtATime()
        invariant current in shape && current in nodes && shape[current].lo == shape[leaf].lo
        decreases shape[rootPageId].level - shape[current].level
      {
        ghost var k := IndexIn(View(), current);
        BelowRoot(View(), current);
        var node := ReadNode(current);
        var parent := ReadNode(node.parentId);
        var i := FindIndex(parent.children, current);
        ChildrenOnce(node.parentId, i, k);
        if i > 0 {
          RaiseLeft(parent, i - 1, current, leaf);
          return;
        }
        current := parent.pageId;
      }
      assert PageOk(View(), rootPageId);
    }

    /** Raises key `i` of the parent, at which the page and the leaf begin. */
    method RaiseLeft(parent: Node, i: int, page: int, ghost leaf: int)
      requires Valid() && rootPageId != INVALID_PAGE_ID
      requires parent.pageId in nodes && parent == nodes[parent.pageId] && !parent.isLeaf && 0 <= i < |parent.keys|
      requires leaf in shape && leaf in nodes && nodes[leaf].isLeaf && nodes[leaf].keys != []
      requires page in shape && shape[page].lo == shape[leaf].lo == parent.keys[i]
      modifies this`nodes, this`shape, pool, pool.disk
      ensures Valid() && nodes.Keys == old(nodes.Keys)
      ensures old(shape[leaf].lo) != MIN_KEY
      ensures leaf in nodes && leaf in shape && nodes[leaf] == old(nodes[leaf])
      ensures shape[leaf].lo == nodes[leaf].keys[0]
      ensures pool.OneAtATime()
    {
      var least := FirstKey(page, leaf);
      assert PageOk(View(), leaf) && PageOk(View(), parent.pageId);
      RaisedIsWhole(View(), parent.pageId, i, leaf, least);
      WriteRaised(parent, i, least);
    }

    /** A page is a child of its parent at one position only. */
    lemma ChildrenOnce(q: int, i: int, j: int)
      requires Valid() && rootPageId != INVALID_PAGE_ID && q in shape && q in nodes && !nodes[q].isLeaf
      requires 0 <= i < |nodes[q].children| && 0 <= j < |nodes[q].children|
      requires nodes[q].children[i] == nodes[q].children[j]
      ensures i == j && PageOk(View(), q)
    {
      assert PageOk(View(), q);
      ChildIs(View(), q, i);
      assert PageOk(View(), nodes[q].children[i]);
      SiblingsApart(View(), q, i, j, shape[nodes[q].children[i]].lo);
    }

    // ----- Inserting

    /** False, and no change, exactly when the key is there already. */
    method Insert(key: int, value: int) returns (added: bool)
      requires Valid() && IsKey(key)
      modifies this`rootPageId, this`nodes, this`shape, this`contents, pool, pool.disk
      ensures Valid()
      ensures pool.OneAtATime()
      ensures added <==> key !in old(contents)
      ensures contents == if added then old(contents)[key := value] else old(contents)
    {
      if rootPageId == INVALID_PAGE_ID {
        InsertFirst(key, value);
        return true;
      }
      var p, visits := FindLeaf(key);
      var leaf := ReadNode(p);
      var i := FindLowerBound(leaf.keys, key);
      if i < |leaf.keys| && leaf.keys[i] == key {
        return false;
      }
      PutKeyOk(View(), p, i, key, value);
      leaf := PutNode(leaf, i, key, value);
      if |leaf.keys| <= MAX_KEYS {
        WriteLeaf(leaf, i, key, value);
        if i == 0 {
          PropagateMinimumChange(p);
        }
      } else {
        SplitLeaf(leaf, i, key, value);
      }
      return true;
    }

    method InsertFirst(key: int, value: int)
      requires Valid() && rootPageId == INVALID_PAGE_ID && IsKey(key)
      modifies this`rootPageId, this`nodes, this`shape, this`contents, pool, pool.disk
      ensures Valid() && contents == map[key := value]
      ensures pool.OneAtATime()
    {
      var root := Node(true, INVALID_PAGE_ID, INVALID_PAGE_ID, [key], [value], [], INVALID_PAGE_ID);
      rootPageId := CreateNode(root);
      shape := map[rootPageId := Info(0, MIN_KEY, SUP_KEY)];
      contents := map[key := value];
      SingleLeafIsWhole(rootPageId, key, value);
      assert nodes == map[rootPageId := root.(pageId := rootPageId)];
    }

    /** The leaf has room for the new key. */
    method WriteLeaf(leaf: Node, ghost i: int, ghost key: int, ghost value: int)
      requires Valid() && rootPageId != INVALID_PAGE_ID && leaf.pageId in nodes
      requires var n := nodes[leaf.pageId];
               n.isLeaf && 0 <= i <= |n.keys| && i <= |n.values| && leaf == PutNode(n, i, key, value)
      requires TreeOk(PutKey(View(), leaf.pageId, i, key, value)) && |leaf.keys| <= MAX_KEYS
      modifies this`rootPageId, this`nodes, this`shape, this`contents, pool, pool.disk
      ensures Valid() && rootPageId == old(rootPageId) && shape == old(shape)
      ensures nodes == old(nodes)[leaf.pageId := leaf] && contents == old(contents)[key := value]
      ensures pool.OneAtATime()
    {
      ghost var t := PutKey(View(), leaf.pageId, i, key, value);
      assert PageOk(t, leaf.pageId);
      Settle(t);
      WriteNode(leaf);
      contents := contents[key := value];
      assert View() == t.(over := INVALID_PAGE_ID, under := INVALID_PAGE_ID);
    }

    /** The leaf is too full with the new key. */
    method SplitLeaf(leaf: Node, ghost i: int, ghost key: int, ghost value: int)
      requires Valid() && rootPageId != INVALID_PAGE_ID && leaf.pageId in nodes
      requires var n := nodes[leaf.pageId];
               n.isLeaf && 0 <= i <= |n.keys| && i <= |n.values| && leaf == PutNode(n, i, key, value)
      requires TreeOk(PutKey(View(), leaf.pageId, i, key, value)) && |leaf.keys| > MAX_KEYS
      modifies this`rootPageId, this`nodes, this`shape, this`contents, pool, pool.disk
      ensures Valid() && contents == old(contents)[key := value]
      ensures pool.OneAtATime()
    {
      PutSizes(View(), leaf.pageId, i, key, value);
      ghost var before := View();
      var left, right := TearLeaf(leaf);
      ghost var r0 := Tear(before, i, key, value, leaf, left, right);
      InsertIntoParent(left, right.keys[0], right, r0);
    }

    /** The shape and the map once the two halves of a leaf that took in a key are written. */
    ghost method Tear(before: Tree, i: int, key: int, value: int, leaf: Node, left: Node, right: Node) returns (r0: int)
      requires Ready() && rootPageId == before.root && shape == before.shape && contents == before.contents
      requires before.over == INVALID_PAGE_ID && before.under == INVALID_PAGE_ID
      requires leaf.pageId in before.nodes && leaf.pageId in before.shape
      requires var n := before.nodes[leaf.pageId];
               n.isLeaf && 0 <= i <= |n.keys| && i <= |n.values| && leaf == PutNode(n, i, key, value)
      requires TreeOk(PutKey(before, leaf.pageId, i, key, value)) && |leaf.keys| == |leaf.values| == MAX_KEYS + 1
      requires right.pageId >= 0 && right.pageId !in before.nodes && leaf.pageId != right.pageId
      requires left == LeftLeaf(leaf, right.pageId) && right == RightLeaf(leaf, right.pageId)
      requires nodes == before.nodes[leaf.pageId := left][right.pageId := right]
      modifies this`shape, this`contents
      ensures Ready() && r0 == pool.disk.NextId() && Pending(View(), left, right.keys[0], right, r0)
      ensures contents == before.contents[key := value]
    {
      FreshNext();
      r0 := pool.disk.NextId();
      PutAndTear(before, leaf.pageId, i, key, value, right.pageId, r0);
      var torn := Torn(PutKey(before, leaf.pageId, i, key, value), leaf.pageId, right.pageId, r0, left, right,
                       right.keys[0]);
      shape := torn.shape;
      contents := contents[key := value];
      assert View() == torn;
    }

    /** Writes the two halves of a leaf. */
    method TearLeaf(leaf: Node) returns (left: Node, right: Node)
      requires Ready() && leaf.pageId in nodes && leaf.isLeaf && |leaf.keys| == |leaf.values| == MAX_KEYS + 1
      modifies this`nodes, pool, pool.disk
      ensures Ready() && right.pageId >= 0 && right.pageId !in old(nodes)
      ensures left == LeftLeaf(leaf, right.pageId) && right == RightLeaf(leaf, right.pageId)
      ensures nodes == old(nodes)[leaf.pageId := left][right.pageId := right]
      ensures pool.OneAtATime()
    {
      right := RightLeaf(leaf, INVALID_PAGE_ID);
      var r := CreateNode(right);
      right := right.(pageId := r);
      left := LeftLeaf(leaf, r);
      WriteNode(left);
    }

    /** Tells the parent of `left` about `right`, splitting it in turn when that fills it too much. */
    method InsertIntoParent(left: Node, separator: int, right: Node, ghost r0: int)
      requires Ready() && Pending(View(), left, separator, right, r0)
      requires left.parentId == INVALID_PAGE_ID ==> r0 == pool.disk.NextId()
      modifies this`rootPageId, this`nodes, this`shape, this`contents, pool, pool.disk
      ensures Valid() && contents == old(contents)
      ensures pool.OneAtATime()
      decreases shape[rootPageId].level - shape[left.pageId].level, 0
    {
      if left.parentId == INVALID_PAGE_ID {
        NewRoot(left, separator, right, r0);
        return;
      }
      var parent := ReadNode(left.parentId);
      var i := FindIndex(parent.children, left.pageId);
      ghost var t := View().(nodes := Attached(nodes, left, separator, right), over := left.parentId);
      assert PageOk(t, left.parentId);
      parent := ChildAdded(parent, i, separator, right.pageId);
      AttachedLevels(View(), left, separator, right, r0);
      WriteNode(right.(parentId := parent.pageId));
      WriteParent(parent, t);
    }

    /** Writes the parent if it is not too full: `t` is the tree as it would be with it. */
    method WriteParent(parent: Node, ghost t: Tree)
      requires Ready() && TreeOk(t) && t.over == parent.pageId && t.under == INVALID_PAGE_ID
      requires parent.pageId in t.nodes && t.nodes[parent.pageId] == parent && !parent.isLeaf
      requires parent.pageId in nodes && t.nodes == nodes[parent.pageId := parent]
      requires t.shape == shape && t.root == rootPageId && t.contents == contents
      modifies this`rootPageId, this`nodes, this`shape, this`contents, pool, pool.disk
      ensures Valid() && contents == old(contents)
      ensures pool.OneAtATime()
      decreases shape[rootPageId].level - shape[parent.pageId].level, 2
    {
      assert PageOk(t, parent.pageId);
      if |parent.keys| > MAX_KEYS {
        SplitParent(parent, t);
        return;
      }
      WriteNode(parent);
      Settle(t);
      assert View() == t.(over := INVALID_PAGE_ID, under := INVALID_PAGE_ID);
    }

    method NewRoot(left: Node, separator: int, right: Node, ghost r0: int)
      requires Ready() && Pending(View(), left, separator, right, r0)
      requires left.parentId == INVALID_PAGE_ID && r0 == pool.disk.NextId()
      modifies this`rootPageId, this`nodes, this`shape, this`contents, pool, pool.disk
      ensures Valid() && contents == old(contents)
      ensures pool.OneAtATime()
    {
      ghost var t := View().(nodes := AttachedRoot(nodes, left, separator, right, r0), root := r0, over := r0);
      var root := Node(false, INVALID_PAGE_ID, INVALID_PAGE_ID, [separator], [], [left.pageId, right.pageId],
                       INVALID_PAGE_ID);
      rootPageId := CreateNode(root);
      WriteNode(left.(parentId := rootPageId));
      WriteNode(right.(parentId := rootPageId));
      Settle(t);
      assert View() == t.(over := INVALID_PAGE_ID, under := INVALID_PAGE_ID);
    }

    /** The parent, not yet written, is too full. */
    method SplitParent(parent: Node, ghost t: Tree)
      requires Ready() && TreeOk(t) && t.over == parent.pageId && t.under == INVALID_PAGE_ID
      requires parent.pageId in t.nodes && t.nodes[parent.pageId] == parent && !parent.isLeaf
      requires |parent.keys| > MAX_KEYS
      requires parent.pageId in nodes && t.nodes == nodes[parent.pageId := parent]
      requires t.shape == shape && t.root == rootPageId && t.contents == contents
      modifies this`rootPageId, this`nodes, this`shape, this`contents, pool, pool.disk
      ensures Valid() && contents == old(contents)
      ensures pool.OneAtATime()
      decreases shape[rootPageId].level - shape[parent.pageId].level, 1
    {
      assert PageOk(t, parent.pageId);
      ChildrenStorable(t, parent.pageId);
      var left, right := TearInner(parent);
      FreshNext();
      ghost var r0 := pool.disk.NextId();
      TearInnerPage(t, parent.pageId, old(nodes), right.pageId, r0);
      shape := Torn(t, parent.pageId, right.pageId, r0, left, right, parent.keys[MIDDLE]).shape;
      InsertIntoParent(left, parent.keys[MIDDLE], right, r0);
    }

    /** Writes the two halves of an inner page and gives the children of the right one their new parent. */
    method TearInner(parent: Node) returns (left: Node, right: Node)
      requires Ready() && parent.pageId in nodes && !parent.isLeaf
      requires |parent.children| == |parent.keys| + 1 == MAX_KEYS + 2
      requires forall c :: c in parent.children ==>
                 c in nodes && c != parent.pageId && Storable(nodes[c]) && nodes[c].pageId == c
      modifies this`nodes, pool, pool.disk
      ensures Ready() && right.pageId >= 0 && right.pageId !in old(nodes)
      ensures left == LeftInner(parent) && right == RightInner(parent, right.pageId)
      ensures nodes == Reparent(old(nodes), right.children, right.pageId)[parent.pageId := left][right.pageId := right]
      ensures pool.OneAtATime()
    {
      right := RightInner(parent, INVALID_PAGE_ID);
      var r := CreateNode(right);
      right := right.(pageId := r);
      assert forall c :: c in right.children ==> c in parent.children;
      SetChildrenParent(right.children, r);
      left := LeftInner(parent);
      WriteNode(left);
      NewPageLast(old(nodes), right.children, parent.pageId, left, right);
    }

    // ----- Deleting

    /** False, and no change, exactly when the key is not there. */
    method Delete(key: int) returns (removed: bool)
      requires Valid() && IsKey(key)
      modifies this`rootPageId, this`nodes, this`shape, this`contents, pool, pool.disk
      ensures Valid()
      ensures pool.OneAtATime()
      ensures removed <==> key in old(contents)
      ensures contents == if removed then old(contents) - {key} else old(contents)
    {
      if rootPageId == INVALID_PAGE_ID {
        return false;
      }
      var p, visits := FindLeaf(key);
      var leaf := ReadNode(p);
      var i := FindLowerBound(leaf.keys, key);
      removed := i < |leaf.keys| && leaf.keys[i] == key;
      if removed {
        ghost var t := Dropped(View(), p, key, i);
        contents := contents - {key};
        FinishDelete(DropNode(leaf, i), i, t);
      }
    }

    /** The leaf, not yet written, has lost its key `i`. */
    method FinishDelete(leaf: Node, i: int, ghost t: Tree)
      requires Ready() && leaf.pageId in nodes && leaf.pageId in shape && leaf.isLeaf && nodes[leaf.pageId].isLeaf
      requires rootPageId != INVALID_PAGE_ID
      requires TreeOk(t) && t == View().(nodes := nodes[leaf.pageId := leaf], under := leaf.pageId)
      modifies this`rootPageId, this`nodes, this`shape, this`contents, pool, pool.disk
      ensures Valid() && contents == old(contents)
      ensures pool.OneAtATime()
    {
      if leaf.pageId == rootPageId || |leaf.keys| >= MIN_KEYS {
        WriteDropped(leaf, t);
        if leaf.keys != [] && i == 0 {
          PropagateMinimumChange(leaf.pageId);
        }
      } else {
        RepairLeaf(leaf, t);
      }
    }

    /** The leaf still has enough keys. */
    method WriteDropped(leaf: Node, ghost t: Tree)
      requires Ready() && leaf.pageId in nodes && leaf.isLeaf
      requires TreeOk(t) && t == View().(nodes := nodes[leaf.pageId := leaf], under := leaf.pageId)
      requires leaf.pageId == rootPageId || |leaf.keys| >= MIN_KEYS
      modifies this`nodes, pool, pool.disk
      ensures Valid() && nodes == old(nodes)[leaf.pageId := leaf]
      ensures pool.OneAtATime()
    {
      assert PageOk(t, leaf.pageId);
      Settle(t);
      WriteNode(leaf);
      assert View() == t.(over := INVALID_PAGE_ID, under := INVALID_PAGE_ID);
    }

    /** The leaf, not yet written, is one key short: it borrows a key from a neighbour or merges with one. */
    method RepairLeaf(leaf: Node, ghost t: Tree)
      requires Ready() && leaf.pageId in nodes && leaf.pageId in shape && leaf.isLeaf && |leaf.keys| < MIN_KEYS
      requires leaf.pageId != rootPageId && rootPageId != INVALID_PAGE_ID
      requires TreeOk(t) && t == View().(nodes := nodes[leaf.pageId := leaf], under := leaf.pageId)
      modifies this`rootPageId, this`nodes, this`shape, this`contents, pool, pool.disk
      ensures Valid() && contents == old(contents)
      ensures pool.OneAtATime()
    {
      HasNeighbour(t, leaf.pageId);
      var parent := ReadNode(leaf.parentId);
      var i := FindIndex(parent.children, leaf.pageId);
      if i > 0 {
        var left := ReadNode(parent.children[i - 1]);
        if |left.keys| > MIN_KEYS {
          BorrowLeftLeaf(left, leaf, parent, i - 1, t);
          return;
        }
      }
      if i + 1 < |parent.children| {
        var right := ReadNode(parent.children[i + 1]);
        if |right.keys| > MIN_KEYS {
          BorrowRightLeaf(leaf, right, parent, i, t);
          return;
        }
      }
      if i > 0 {
        var left := ReadNode(parent.children[i - 1]);
        AbsorbLeaf(left, leaf, parent, i - 1, t);
      } else {
        var right := ReadNode(parent.children[i + 1]);
        AbsorbLeaf(leaf, right, parent, i, t);
      }
      HandleInternalUnderflow(parent.pageId);
    }

    /** Writes two neighbours and their parent after a key moved between the neighbours. */
    method WriteThree(left: Node, right: Node, parent: Node, ghost t: Tree)
      requires Ready() && left.pageId in nodes && right.pageId in nodes && parent.pageId in nodes
      requires left.pageId != right.pageId && left.pageId != parent.pageId && right.pageId != parent.pageId
      requires Whole(t) && t.nodes == nodes[left.pageId := left][right.pageId := right][parent.pageId := parent]
      requires t == View().(nodes := t.nodes, shape := t.shape)
      requires rootPageId != INVALID_PAGE_ID
      modifies this`nodes, this`shape, pool, pool.disk
      ensures Valid()
      ensures pool.OneAtATime()
    {
      WholeStorable(t, left.pageId);
      WholeStorable(t, right.pageId);
      WholeStorable(t, parent.pageId);
      WriteNode(left);
      WriteNode(right);
      WriteNode(parent);
      shape := t.shape;
      assert View() == t;
    }

    method BorrowLeftLeaf(left: Node, leaf: Node, parent: Node, i: int, ghost t: Tree)
      requires Ready() && Held(t, parent, i, left, leaf) && left.isLeaf && rootPageId != INVALID_PAGE_ID
      requires |leaf.keys| < MIN_KEYS < |left.keys| && leaf.pageId in nodes && left.pageId in nodes
      requires parent.pageId in nodes
      requires t == View().(nodes := nodes[leaf.pageId := leaf], under := leaf.pageId)
      modifies this`nodes, this`shape, pool, pool.disk
      ensures Valid()
      ensures pool.OneAtATime()
    {
      HeldSizes(t, parent, i, left, leaf);
      ghost var t' := LendFromLeftLeaf(t, parent, i, left, leaf);
      var l, r := LentLeft(left), TookLeft(left, leaf);
      WriteThree(l, r, Bordered(parent, i, r.keys[0]), t');
    }

    method BorrowRightLeaf(leaf: Node, right: Node, parent: Node, i: int, ghost t: Tree)
      requires Ready() && Held(t, parent, i, leaf, right) && leaf.isLeaf && rootPageId != INVALID_PAGE_ID
      requires |leaf.keys| < MIN_KEYS < |right.keys| && leaf.pageId in nodes && right.pageId in nodes
      requires parent.pageId in nodes
      requires t == View().(nodes := nodes[leaf.pageId := leaf], under := leaf.pageId)
      modifies this`nodes, this`shape, pool, pool.disk
      ensures Valid()
      ensures pool.OneAtATime()
    {
      HeldSizes(t, parent, i, leaf, right);
      ghost var t' := LendFromRightLeaf(t, parent, i, leaf, right);
      var l, r := TookRight(leaf, right), LentRight(right);
      WriteThree(l, r, Bordered(parent, i, r.keys[0]), t');
    }

    /** The left leaf of two takes over the right one, whose page goes; the parent may be short now. */
    method AbsorbLeaf(left: Node, right: Node, parent: Node, i: int, ghost t: Tree)
      requires Ready() && Held(t, parent, i, left, right) && left.isLeaf && |left.keys| + |right.keys| <= MAX_KEYS
      requires left.pageId in nodes && right.pageId in nodes && parent.pageId in nodes
      requires t == View().(nodes := t.nodes, under := t.under)
      requires t.nodes == nodes[left.pageId := left][right.pageId := right]
      modifies this`nodes, this`shape, pool, pool.disk
      ensures Ready() && TreeOk(View().(under := parent.pageId)) && parent.pageId in nodes
      ensures !nodes[parent.pageId].isLeaf
      ensures pool.OneAtATime()
    {
      HeldSizes(t, parent, i, left, right);
      ghost var t' := MergeLeaves(t, parent, i, left, right);
      var merged, parent' := MergedLeaf(left, right), ChildRemoved(parent, i);
      AbsorbedNodes(nodes, left, right, merged, parent');
      WriteNode(merged);
      WriteNode(parent');
      DeleteNode(right.pageId);
      shape := t'.shape;
      assert View().(under := parent.pageId) == t';
    }

    /** Page `p`, already written, may be one key short; the repair goes up as far as it must. */
    method HandleInternalUnderflow(p: int)
      requires Ready() && p in nodes && !nodes[p].isLeaf && TreeOk(View().(under := p))
      modifies this`rootPageId, this`nodes, this`shape, this`contents, pool, pool.disk
      ensures Valid() && contents == old(contents)
      ensures pool.OneAtATime()
      decreases shape[rootPageId].level - shape[p].level, 1
    {
      ghost var t := View().(under := p);
      PageLevel(t, p);
      var node := ReadNode(p);
      if p == rootPageId {
        if node.keys == [] && node.children != [] {
          Collapse(node);
        } else {
          Settle(t);
        }
        return;
      }
      if |node.keys| >= MIN_KEYS {
        Settle(t);
        return;
      }
      RepairInner(node);
    }

    /** The inner page is one key short: a separator turns through the parent, or two pages merge. */
    method RepairInner(node: Node)
      requires Ready() && node.pageId in nodes && node.pageId in shape && node == nodes[node.pageId] && !node.isLeaf
      requires node.pageId != rootPageId && rootPageId != INVALID_PAGE_ID && |node.keys| < MIN_KEYS
      requires TreeOk(View().(under := node.pageId))
      modifies this`rootPageId, this`nodes, this`shape, this`contents, pool, pool.disk
      ensures Valid() && contents == old(contents)
      ensures pool.OneAtATime()
      decreases shape[rootPageId].level - shape[node.pageId].level, 0
    {
      ghost var t := View().(under := node.pageId);
      HasNeighbour(t, node.pageId);
      var parent := ReadNode(node.parentId);
      var i := FindIndex(parent.children, node.pageId);
      if i > 0 {
        var left := ReadNode(parent.children[i - 1]);
        if |left.keys| > MIN_KEYS {
          BorrowLeftInner(left, node, parent, i - 1, t);
          return;
        }
      }
      if i + 1 < |parent.children| {
        var right := ReadNode(parent.children[i + 1]);
        if |right.keys| > MIN_KEYS {
          BorrowRightInner(node, right, parent, i, t);
          return;
        }
      }
      if i > 0 {
        var left := ReadNode(parent.children[i - 1]);
        AbsorbInner(left, node, parent, i - 1, t);
      } else {
        var right := ReadNode(parent.children[i + 1]);
        AbsorbInner(node, right, parent, i, t);
      }
      HandleInternalUnderflow(parent.pageId);
    }

    method BorrowLeftInner(left: Node, node: Node, parent: Node, i: int, ghost t: Tree)
      requires Ready() && Held(t, parent, i, left, node) && !left.isLeaf && rootPageId != INVALID_PAGE_ID
      requires |node.keys| < MIN_KEYS < |left.keys| && t == View().(under := node.pageId)
      modifies this`nodes, this`shape, pool, pool.disk
      ensures Valid()
      ensures pool.OneAtATime()
    {
      HeldSizes(t, parent, i, left, node);
      ghost var t' := LendFromLeftInner(t, parent, i, left, node);
      var l, r := InnerLentLeft(left), InnerTookLeft(left, parent.keys[i], node);
      HeldChildren(t, parent, i, left, node);
      SetChildrenParent([r.children[0]], r.pageId);
      WriteThree(l, r, Bordered(parent, i, left.keys[|left.keys| - 1]), t');
    }

    method BorrowRightInner(node: Node, right: Node, parent: Node, i: int, ghost t: Tree)
      requires Ready() && Held(t, parent, i, node, right) && !node.isLeaf && rootPageId != INVALID_PAGE_ID
      requires |node.keys| < MIN_KEYS < |right.keys| && t == View().(under := node.pageId)
      modifies this`nodes, this`shape, pool, pool.disk
      ensures Valid()
      ensures pool.OneAtATime()
    {
      HeldSizes(t, parent, i, node, right);
      ghost var t' := LendFromRightInner(t, parent, i, node, right);
      var l, r := InnerTookRight(node, parent.keys[i], right), InnerLentRight(right);
      HeldChildren(t, parent, i, node, right);
      SetChildrenParent([right.children[0]], l.pageId);
      WriteThree(l, r, Bordered(parent, i, right.keys[0]), t');
    }

    /** The left page of two takes over the right one, whose page goes; the parent may be short now. */
    method AbsorbInner(left: Node, right: Node, parent: Node, i: int, ghost t: Tree)
      requires Ready() && Held(t, parent, i, left, right) && !left.isLeaf && |left.keys| + |right.keys| + 1 <= MAX_KEYS
      requires t == View().(under := t.under)
      modifies this`nodes, this`shape, pool, pool.disk
      ensures Ready() && TreeOk(View().(under := parent.pageId)) && parent.pageId in nodes
      ensures !nodes[parent.pageId].isLeaf
      ensures SameHeight(t, View(), parent.pageId, left.pageId, right.pageId)
      ensures pool.OneAtATime()
    {
      HeldSizes(t, parent, i, left, right);
      ghost var t' := MergeInners(t, parent, i, left, right);
      var merged, parent' := MergedInner(left, parent.keys[i], right), ChildRemoved(parent, i);
      HeldChildren(t, parent, i, left, right);
      SetChildrenParent(right.children, left.pageId);
      WriteNode(merged);
      WriteNode(parent');
      DeleteNode(right.pageId);
      shape := t'.shape;
      assert View().(under := parent.pageId) == t';
    }

    method Collapse(node: Node)
      requires Ready() && rootPageId in nodes && node == nodes[rootPageId] && !node.isLeaf && node.keys == []
      requires TreeOk(View().(under := rootPageId))
      modifies this`rootPageId, this`nodes, this`shape, pool, pool.disk
      ensures Valid()
      ensures pool.OneAtATime()
    {
      ghost var t := View().(under := rootPageId);
      assert PageOk(t, rootPageId);
      rootPageId := node.children[0];
      assert node.children == [rootPageId];
      CollapseRootOk(t, rootPageId);
      assert PageOk(t, rootPageId);
      var child := ReadNode(rootPageId);
      WriteNode(child.(parentId := INVALID_PAGE_ID));
      DeleteNode(node.pageId);
      shape := shape - {node.pageId};
      assert View() == CollapseRoot(t, rootPageId);
    }

    // ----- Scanning

    /** Appends the pairs with keys from `start` to `end`, both included, in ascending order. */
    method RangeScan(start: int, end: int, found: seq<(int, int)>) returns (pairs: seq<(int, int)>)
      requires Valid() && IsKey(start) && IsKey(end)
      modifies pool, pool.disk
      ensures Valid() && pool.logical == old(pool.logical)
      ensures pool.OneAtATime()
      ensures pool.disk.NextId() == old(pool.disk.NextId())
      ensures pairs == found + Listing(contents, start, end + 1)
    {
      pairs := found;
      if rootPageId == INVALID_PAGE_ID || start > end {
        ListingNone(contents, start, end + 1);
        return;
      }
      var p, visits := FindLeaf(start);
      ghost var lo := shape[p].lo;
      while p != INVALID_PAGE_ID
        invariant Valid() && pool.logical == old(pool.logical)
        invariant pool.OneAtATime()
        invariant pool.disk.NextId() == old(pool.disk.NextId())
        invariant pairs == found + Listing(contents, start, lo)
        invariant forall k :: k in contents && end < k ==> lo <= k
        invariant if p == INVALID_PAGE_ID then lo == SUP_KEY
                  else p in shape && p in nodes && nodes[p].isLeaf && shape[p].lo == lo < SUP_KEY
        decreases SUP_KEY - lo, p != INVALID_PAGE_ID
      {
        var leaf := ReadNode(p);
        LeafHolds(View(), p);
        var done;
        done, pairs := ScanLeaf(leaf, start, end, found, pairs, lo, shape[p].hi);
        if done {
          return;
        }
        lo := shape[p].hi;
        p := leaf.nextLeaf;
      }
      ListingEnds(contents, start, end, SUP_KEY);
    }

    /** One leaf of a scan; `done` when a key beyond the end shows up. */
    method ScanLeaf(leaf: Node, start: int, end: int, ghost found: seq<(int, int)>, sofar: seq<(int, int)>,
                    ghost lo: int, ghost hi: int)
      returns (done: bool, pairs: seq<(int, int)>)
      requires Holds(contents, lo, hi, leaf.keys, leaf.values) && lo < hi && start <= end
      requires sofar == found + Listing(contents, start, lo)
      requires forall k :: k in contents && end < k ==> lo <= k
      ensures done ==> pairs == found + Listing(contents, start, end + 1)
      ensures !done ==>
                && pairs == found + Listing(contents, start, hi)
                && forall k :: k in contents && end < k ==> hi <= k
    {
      pairs := sofar;
      ghost var b := if leaf.keys == [] then hi else leaf.keys[0];
      NothingBetween(contents, lo, hi, leaf.keys, leaf.values, 0);
      PassOver(contents, start, lo, b);
      var i := 0;
      while i < |leaf.keys|
        invariant 0 <= i <= |leaf.keys| && b == if i < |leaf.keys| then leaf.keys[i] else hi
        invariant pairs == found + Listing(contents, start, b)
        invariant forall k :: k in contents && end < k ==> b <= k
      {
        if leaf.keys[i] > end {
          ListingEnds(contents, start, end, b);
          return true, pairs;
        }
        ghost var k := b;
        i := i + 1;
        b := if i < |leaf.keys| then leaf.keys[i] else hi;
        NothingBetween(contents, lo, hi, leaf.keys, leaf.values, i);
        ListingGrows(contents, start, k, b);
        if leaf.keys[i - 1] >= start {
          pairs := pairs + [(leaf.keys[i - 1], leaf.values[i - 1])];
        }
      }
      done := false;
    }
  }
}
