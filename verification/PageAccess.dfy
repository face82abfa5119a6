/** Fetch, use and unpin: how the tree and the table touch a page. One frame not in use is enough, no pin is
    left behind, and one page is in use at a time. */
module PageAccess {
  import opened Pages
  import opened BufferPool

  lemma PinAndUnpin(pins: map<int, nat>, p: int)
    requires p !in pins
    ensures OnePinLess(pins[p := 1], p) == pins && |pins[p := 1]| == |pins| + 1
  {
  }

  method ReadPage(pool: Pool, p: int) returns (data: Content)
    requires pool.Valid() && |pool.pins| < |pool.frames| && p != INVALID_PAGE_ID && p in pool.logical && p !in pool.pins
    modifies pool, pool.disk
    ensures pool.Valid() && pool.logical == old(pool.logical) && data == old(pool.logical[p])
    ensures pool.OneAtATime()
    ensures pool.disk.NextId() == old(pool.disk.NextId())
  {
    pool.HasFrame();
    var f := pool.FetchPage(p);
    data := pool.frames[f.value].data;
    var ok := pool.UnpinPage(p, false);
    PinAndUnpin(old(pool.pins), p);
  }

  method WritePage(pool: Pool, p: int, data: Content)
    requires pool.Valid() && |pool.pins| < |pool.frames| && p != INVALID_PAGE_ID && p in pool.logical && p !in pool.pins
    modifies pool, pool.disk
    ensures pool.Valid() && pool.logical == old(pool.logical)[p := data]
    ensures pool.OneAtATime()
    ensures pool.disk.NextId() == old(pool.disk.NextId())
  {
    pool.HasFrame();
    var f := pool.FetchPage(p);
    pool.Store(p, data);
    var ok := pool.UnpinPage(p, true);
    PinAndUnpin(old(pool.pins), p);
  }

  /** `data` may depend on the id the new page gets. */
  method CreatePage(pool: Pool, data: int -> Content) returns (p: int)
    requires pool.Valid() && |pool.pins| < |pool.frames|
    modifies pool, pool.disk
    ensures pool.Valid() && p == old(pool.disk.NextId()) && p >= 0 && p !in old(pool.logical) && p !in old(pool.pins)
    ensures pool.logical == old(pool.logical)[p := data(p)] && pool.OneAtATime()
  {
    pool.HasFrame();
    var page := pool.NewPage();
    p := page.value.0;
    pool.Store(p, data(p));
    var ok := pool.UnpinPage(p, true);
    PinAndUnpin(old(pool.pins), p);
  }

  lemma TwoPinsAndUnpins(pins: map<int, nat>, p: int, k: nat)
    requires if p in pins then pins[p] == k > 0 else k == 0
    ensures OnePinLess(OnePinLess(pins[p := k + 1][p := k + 2], p), p) == pins
  {
  }

  /** Two clients hold one page, one of them stores, and one of them, whichever, says so when it lets go:
      the store is not lost. */
  method StoreShared(pool: Pool, p: int, data: Content, first: bool, second: bool)
    requires pool.Valid() && |pool.pins| < |pool.frames| && p != INVALID_PAGE_ID && p in pool.logical
    requires first || second
    modifies pool, pool.disk
    ensures pool.Valid() && pool.logical == old(pool.logical)[p := data] && pool.pins == old(pool.pins)
  {
    pool.HasFrame();
    if p in pool.pins {
      pool.PinsCount(p);
    }
    TwoPinsAndUnpins(pool.pins, p, pool.PinsOf(p));
    var f := pool.FetchPage(p);
    FetchAgain(pool, p);
    pool.Store(p, data);
    UnpinTwice(pool, p, first, second);
  }

  /** A page in use is given out where it is. */
  method FetchAgain(pool: Pool, p: int)
    requires pool.Valid() && p in pool.pins && p in pool.logical
    modifies pool, pool.disk
    ensures pool.Valid() && pool.logical == old(pool.logical)
    ensures pool.pins == old(pool.pins)[p := old(pool.pins[p]) + 1]
    ensures p in old(pool.pageTable) && p in pool.pageTable && pool.pageTable[p] == old(pool.pageTable[p])
  {
    pool.PinsCount(p);
    var f := pool.FetchPage(p);
    assert f.Some?;
  }

  method UnpinTwice(pool: Pool, p: int, first: bool, second: bool)
    requires pool.Valid() && p in pool.pins && pool.pins[p] >= 2 && (first || second)
    modifies pool
    ensures pool.Valid() && pool.logical == old(pool.logical)
    ensures pool.pins == OnePinLess(OnePinLess(old(pool.pins), p), p)
  {
    pool.PinsCount(p);
    var ok := pool.UnpinPage(p, first);
    assert first ==> pool.Dirty(p);
    pool.PinsCount(p);
    ok := pool.UnpinPage(p, second);
  }
}
