/** The LRU buffer pool over the disk, proved indistinguishable from a plain page store for
    clients that say "dirty" whenever the frame they let go differs from the disk. */
module BufferPool {
  import opened Collections
  import opened Options
  import opened Pages
  import opened DiskManager

  datatype Frame = Frame(pageId: int, data: Content, pinCount: nat, dirty: bool)

  const EMPTY := Frame(INVALID_PAGE_ID, Zeros, 0, false)

  const NO_FRAME := -1

  // ----- Lists of frames

  ghost predicate InRange(s: seq<int>, n: int) {
    forall i :: 0 <= i < |s| ==> 0 <= s[i] < n
  }

  /** The ranks fall along the list. */
  ghost predicate Falling(rank: seq<nat>, s: seq<int>)
    requires InRange(s, |rank|)
  {
    forall i, j :: 0 <= i < j < |s| ==> rank[s[i]] > rank[s[j]]
  }

  lemma RemoveKeeps(s: seq<int>, k: int, n: int)
    requires 0 <= k < |s| && Distinct(s) && InRange(s, n)
    ensures Distinct(RemoveAt(s, k)) && InRange(RemoveAt(s, k), n) && s[k] !in RemoveAt(s, k)
    ensures forall g :: g != s[k] ==> (g in RemoveAt(s, k) <==> g in s)
  {
    var t := RemoveAt(s, k);
    forall g | g != s[k] && g in s ensures g in t {
      var j :| 0 <= j < |s| && s[j] == g;
      assert t[if j < k then j else j - 1] == g;
    }
  }

  lemma RemoveFalls(rank: seq<nat>, s: seq<int>, k: int)
    requires 0 <= k < |s| && InRange(s, |rank|) && Falling(rank, s)
    ensures InRange(RemoveAt(s, k), |rank|) && Falling(rank, RemoveAt(s, k))
  {
    var t := RemoveAt(s, k);
    forall i, j | 0 <= i < j < |t| ensures rank[t[i]] > rank[t[j]] {
      RemoveAtAt(s, k, i);
      RemoveAtAt(s, k, j);
    }
  }

  function OnePinLess(pins: map<int, nat>, p: int): map<int, nat>
    requires p in pins
  {
    if pins[p] <= 1 then pins - {p} else pins[p := pins[p] - 1]
  }

  function Larger(a: nat, b: nat): nat { if a < b then b else a }

  ghost predicate Unsealed(k: int) { true }

  class Pool {
    const disk: Disk
    var frames: seq<Frame>
    var pageTable: map<int, int>
    var freeFrames: seq<int>
    var lru: seq<int>                  // the page unpinned last comes first
    ghost var logical: map<int, Content>   // what a client sees in every allocated page
    ghost var pins: map<int, nat>          // the pages in use, with their pin counts
    ghost var mostPinned: nat              // the most pages that were in use at one time so far
    ghost var clock: nat
    ghost var droppedAt: seq<nat>          // when each frame's pin count last fell to zero

    // ----- The invariant

    ghost predicate FrameOk(f: int)
      requires 0 <= f < |frames|
      reads this`frames, this`pageTable, this`freeFrames, this`lru
    {
      if f in freeFrames then f !in lru && frames[f] == EMPTY
      else
        && frames[f].pageId in pageTable && pageTable[frames[f].pageId] == f
        && (f in lru <==> frames[f].pinCount == 0)
    }

    ghost predicate PageOk(p: int)
      requires p in pageTable
      reads this`frames, this`pageTable, this`freeFrames, this`pins, disk
    {
      var f := pageTable[p];
      && 0 <= f < |frames| && frames[f].pageId == p && f !in freeFrames
      && p >= 0 && p in disk.Allocated()
      && (frames[f].pinCount == 0 && !frames[f].dirty ==> frames[f].data == disk.Stored(p))
      && (p in pins <==> frames[f].pinCount > 0)
      && (p in pins ==> pins[p] == frames[f].pinCount)
    }

    ghost predicate Listed()
      reads this`frames, this`freeFrames, this`lru
    {
      && InRange(freeFrames, |frames|) && Distinct(freeFrames)
      && InRange(lru, |frames|) && Distinct(lru)
    }

    /** Frames were unpinned in the order of the LRU list, the front one last. */
    ghost predicate Aged()
      reads this`frames, this`lru, this`clock, this`droppedAt
    {
      && |droppedAt| == |frames| && InRange(lru, |frames|)
      && (forall f :: 0 <= f < |droppedAt| ==> droppedAt[f] < clock)
      && Falling(droppedAt, lru)
    }

    /** The invariant while frame `held` is in neither list nor the page table. */
    ghost predicate ValidBut(held: int)
      reads this`frames, this`pageTable, this`freeFrames, this`lru, this`logical, this`pins, this`clock, this`droppedAt,
            disk
    {
      && disk.Valid() && Listed() && Aged()
      && (forall f {:trigger FrameOk(f)} :: 0 <= f < |frames| && f != held ==> FrameOk(f))
      && (forall p {:trigger PageOk(p)} :: p in pageTable ==> PageOk(p) && pageTable[p] != held)
      && pins.Keys <= pageTable.Keys
      && (0 <= held < |frames| ==>
            held !in freeFrames && held !in lru && frames[held] == EMPTY)
      && logical.Keys == disk.Allocated()
      && (forall p {:trigger Seen(p)} :: p in logical ==> logical[p] == Seen(p))
    }

    ghost predicate Consistent()
      reads this`frames, this`pageTable, this`freeFrames, this`lru, this`logical, this`pins, this`clock, this`droppedAt,
            disk
    {
      ValidBut(NO_FRAME)
    }

    /** The invariant as clients see it: a fact to pass around, opened only where `Unsealed` is mentioned. */
    ghost predicate Valid()
      reads this`frames, this`pageTable, this`freeFrames, this`lru, this`logical, this`pins, this`clock, this`droppedAt,
            disk
    {
      forall k {:trigger Unsealed(k)} :: Unsealed(k) ==> Consistent()
    }

    /** What a client sees in a page: its frame if it has one, else the disk. */
    ghost function Seen(p: int): Content
      reads this`frames, this`pageTable, disk
    {
      if p in pageTable && 0 <= pageTable[p] < |frames| then frames[pageTable[p]].data
      else if p >= 0 then disk.Stored(p) else Zeros
    }

    constructor (poolSize: nat, disk: Disk)
      requires disk.Valid()
      ensures Valid() && this.disk == disk && |frames| == poolSize && pins == map[]
      ensures logical.Keys == disk.Allocated()
      ensures forall p :: p in logical ==> p >= 0 && logical[p] == disk.Stored(p)
    {
      this.disk := disk;
      frames := seq(poolSize, i => EMPTY);
      pageTable := map[];
      freeFrames := seq(poolSize, i => poolSize - 1 - i);
      lru := [];
      logical := map p | p in disk.Allocated() :: disk.Stored(p);
      pins, mostPinned := map[], 0;
      clock := 1;
      droppedAt := seq(poolSize, i => 0);
      new;
      forall f | 0 <= f < |frames| ensures FrameOk(f) {
        assert freeFrames[poolSize - 1 - f] == f;
      }
    }

    /** The page, unpinned, whose pin count fell to zero longest ago. */
    ghost predicate Oldest(q: int)
      reads this`frames, this`pageTable, this`pins, this`droppedAt
    {
      && q in pageTable && q !in pins && |droppedAt| == |frames| && 0 <= pageTable[q] < |frames|
      && forall q' :: q' in pageTable && q' !in pins && 0 <= pageTable[q'] < |frames| ==>
           droppedAt[pageTable[q]] <= droppedAt[pageTable[q']]
    }

    // ----- Frames

    method RemoveFromLru(f: int)
      requires Listed() && Aged()
      modifies this`lru
      ensures Listed() && Aged() && f !in lru
      ensures forall g :: g != f ==> (g in lru <==> g in old(lru))
    {
      if f !in lru {
        return;
      }
      var i :| 0 <= i < |lru| && lru[i] == f;
      RemoveKeeps(lru, i, |frames|);
      RemoveFalls(droppedAt, lru, i);
      lru := lru[..i] + lru[i + 1..];
    }

    /** The frame at the back of the list holds the oldest unpinned page. */
    lemma BackIsOldest()
      requires Consistent() && lru != []
      ensures frames[lru[|lru| - 1]].pageId in pageTable && Oldest(frames[lru[|lru| - 1]].pageId)
    {
      var f := lru[|lru| - 1];
      var q := frames[f].pageId;
      assert FrameOk(f) && PageOk(q);
      forall q' | q' in pageTable && q' !in pins && 0 <= pageTable[q'] < |frames|
        ensures droppedAt[f] <= droppedAt[pageTable[q']]
      {
        assert PageOk(q') && FrameOk(pageTable[q']);
      }
    }

    /** Brings the disk up to date with a resident page. */
    method WriteBack(p: int)
      requires Consistent() && p in pageTable
      modifies disk`file, disk`numFlushes
      ensures Consistent() && p >= 0 && 0 <= pageTable[p] < |frames| && disk.Stored(p) == frames[pageTable[p]].data
      ensures forall q: nat :: q != p ==> disk.Stored(q) == old(disk.Stored(q))
    {
      assert PageOk(p);
      disk.WritePage(p, frames[pageTable[p]].data);
      forall q | q in pageTable ensures PageOk(q) {
        assert old(PageOk(q)) && (q != p ==> pageTable[q] != pageTable[p]);
      }
      forall f | 0 <= f < |frames| ensures FrameOk(f) {
        assert old(FrameOk(f));
      }
      forall q | q in logical ensures logical[q] == Seen(q) {
        assert old(logical[q] == Seen(q));
      }
    }

    /** Empties the frame of an unpinned page that the disk holds as it is. */
    method Detach(p: int)
      requires Consistent() && p in pageTable && p !in pins
      requires p >= 0 && 0 <= pageTable[p] < |frames| && disk.Stored(p) == frames[pageTable[p]].data
      modifies this`frames, this`pageTable, this`lru
      ensures ValidBut(old(pageTable[p])) && |frames| == old(|frames|)
      ensures pageTable == old(pageTable) - {p}
      ensures forall q :: q != p ==> (Dirty(q) <==> old(Dirty(q)))
    {
      var f := pageTable[p];
      assert PageOk(p) && FrameOk(f);
      RemoveFromLru(f);
      pageTable := pageTable - {p};
      frames := frames[f := EMPTY];
      forall q | q in pageTable ensures PageOk(q) && pageTable[q] != f {
        assert old(PageOk(q));
      }
      forall g | 0 <= g < |frames| && g != f ensures FrameOk(g) {
        assert old(FrameOk(g));
      }
      forall q | q in logical ensures logical[q] == Seen(q) {
        assert old(logical[q] == Seen(q));
        assert q in pageTable ==> old(PageOk(q)) && pageTable[q] != f;
      }
      assert forall q :: q in pageTable ==> pageTable[q] != f;
    }

    /** Takes the frame of the oldest unpinned page, writing the page back when it is dirty. */
    method Evict() returns (f: int)
      requires Consistent() && lru != []
      modifies this, disk
      ensures ValidBut(f) && 0 <= f < |frames| == old(|frames|)
      ensures logical == old(logical) && pins == old(pins) && disk.NextId() == old(disk.NextId())
      ensures pageTable.Keys <= old(pageTable.Keys) && clock == old(clock) && droppedAt == old(droppedAt)
      ensures mostPinned == old(mostPinned) && InUseKept()
      ensures forall q :: q in old(pageTable) && q !in pageTable ==> old(Oldest(q))
    {
      f := lru[|lru| - 1];
      BackIsOldest();
      var p := frames[f].pageId;
      assert FrameOk(f) && PageOk(p);
      if frames[f].dirty {
        WriteBack(p);
      }
      Detach(p);
    }

    method AcquireFrame() returns (f: int)
      requires Consistent()
      modifies this, disk
      ensures ValidBut(f) && 0 <= f <= |frames| == old(|frames|)
      ensures f == |frames| <==> old(freeFrames) == [] && old(lru) == []
      ensures f == |frames| ==> Consistent()
      ensures logical == old(logical) && pins == old(pins) && disk.NextId() == old(disk.NextId())
      ensures pageTable.Keys <= old(pageTable.Keys) && clock == old(clock) && droppedAt == old(droppedAt)
      ensures mostPinned == old(mostPinned) && InUseKept()
      ensures forall q :: q in old(pageTable) && q !in pageTable ==> old(Oldest(q) && freeFrames == [])
    {
      if freeFrames != [] {
        f := freeFrames[|freeFrames| - 1];
        assert FrameOk(f);
        freeFrames := freeFrames[..|freeFrames| - 1];
        forall p | p in pageTable ensures PageOk(p) && pageTable[p] != f {
          assert old(PageOk(p));
        }
        forall g | 0 <= g < |frames| && g != f ensures FrameOk(g) {
          assert old(FrameOk(g));
        }
        forall p | p in logical ensures logical[p] == Seen(p) {
          assert old(logical[p] == Seen(p));
        }
      } else if lru == [] {
        f := |frames|;
        forall p | p in pageTable ensures PageOk(p) && pageTable[p] != f {
          assert PageOk(p);
        }
      } else {
        f := Evict();
      }
    }

    // ----- Operations

    /** All pins taken have been given back, and beyond those there was never more than one page in use. */
    twostate predicate OneAtATime()
      reads this
    {
      && pins == old(pins) && |frames| == old(|frames|)
      && (mostPinned <= old(mostPinned) || mostPinned <= |pins| + 1)
    }

    /** The frame of the page is marked as differing from the disk. */
    ghost predicate Dirty(p: int)
      reads this`frames, this`pageTable
    {
      p in pageTable && 0 <= pageTable[p] < |frames| && frames[pageTable[p]].dirty
    }

    /** Pages in use stay in their frames and keep their marks, and the disk what it has of them. */
    twostate predicate InUseKept()
      reads this, disk
    {
      forall q {:trigger q in old(pins)} :: q in old(pins) && q in old(pageTable) ==>
        && q in pageTable && pageTable[q] == old(pageTable[q]) && (Dirty(q) <==> old(Dirty(q)))
        && (q >= 0 ==> disk.Stored(q) == old(disk.Stored(q)))
    }

    ghost function PinsOf(p: int): nat
      reads this`pins
    {
      if p in pins then pins[p] else 0
    }

    /** Puts a page into the acquired frame `f`, pinned once. */
    method Install(f: int, p: int, data: Content)
      requires ValidBut(f) && 0 <= f < |frames| && p >= 0 && p !in pageTable && data == disk.Stored(p)
      modifies this`frames, this`pageTable, this`pins
      ensures Consistent() <==> p in logical
      ensures |frames| == old(|frames|) && frames[f].data == data
      ensures forall q :: q != p ==> (Dirty(q) <==> old(Dirty(q)))
      ensures pageTable == old(pageTable)[p := f] && pins == old(pins)[p := 1]
    {
      frames := frames[f := Frame(p, data, 1, false)];
      pageTable := pageTable[p := f];
      pins := pins[p := 1];
      assert PageOk(p) <==> p in logical;
      forall q | q in pageTable && q != p ensures PageOk(q) {
        assert old(PageOk(q)) && pageTable[q] != f;
      }
      forall g | 0 <= g < |frames| ensures FrameOk(g) {
        assert g != f ==> old(FrameOk(g));
      }
      forall q | q in logical ensures logical[q] == Seen(q) {
        assert old(logical[q] == Seen(q));
        assert q != p && q in pageTable ==> old(PageOk(q)) && pageTable[q] != f;
      }
    }

    /** Fails exactly when the id is invalid or every frame is in use; never changes what a page holds. An id
        that is not allocated is read all the same, and then a page is in the pool that is none. */
    method FetchPage(p: int) returns (f: Option<int>)
      requires Valid() && (p >= INVALID_PAGE_ID || p in logical)
      modifies this, disk
      ensures Valid() <==> f.None? || p in old(logical)
      ensures logical == old(logical) && |frames| == old(|frames|) && disk.NextId() == old(disk.NextId())
      ensures clock == old(clock) && droppedAt == old(droppedAt)
      ensures mostPinned == if f.Some? then Larger(old(mostPinned), |pins|) else old(mostPinned)
      ensures f.Some? <==> p != INVALID_PAGE_ID && (p in old(pageTable) || old(freeFrames) != [] || old(lru) != [])
      ensures f.None? ==> pins == old(pins)
      ensures f.Some? ==>
        && pins == old(pins)[p := old(PinsOf(p)) + 1]
        && p in pageTable && pageTable[p] == f.value && 0 <= f.value < |frames|
        && frames[f.value].data == if p in logical then logical[p] else disk.Stored(p)
      ensures InUseKept() && (f.Some? && p !in old(pins) ==> MayUnpin(p, false))
      ensures forall q :: q in old(pageTable) && q !in pageTable ==> old(Oldest(q) && freeFrames == [])
    {
      if p == INVALID_PAGE_ID {
        return None;
      }
      if p in pageTable {
        f := FetchResident(p);
      } else {
        f := FetchFromDisk(p);
      }
      if f.Some? {
        mostPinned := Larger(mostPinned, |pins|);
      }
    }

    method FetchResident(p: int) returns (f: Option<int>)
      requires Valid() && p in pageTable
      modifies this`frames, this`lru, this`pins
      ensures Valid() && p in logical && |frames| == old(|frames|) && f.Some?
      ensures pins == old(pins)[p := old(PinsOf(p)) + 1]
      ensures pageTable[p] == f.value && 0 <= f.value < |frames| && frames[f.value].data == logical[p]
      ensures InUseKept() && (p !in old(pins) ==> MayUnpin(p, false))
    {
      assert Unsealed(0);
      assert PageOk(p);
      PinAgain(p);
      assert PageOk(p) && logical[p] == Seen(p);
      f := Some(pageTable[p]);
    }

    method FetchFromDisk(p: int) returns (f: Option<int>)
      requires Valid() && p !in pageTable && p != INVALID_PAGE_ID && (p >= 0 || p in logical)
      modifies this, disk
      ensures Valid() <==> f.None? || p in old(logical)
      ensures logical == old(logical) && |frames| == old(|frames|) && disk.NextId() == old(disk.NextId())
      ensures clock == old(clock) && droppedAt == old(droppedAt) && mostPinned == old(mostPinned)
      ensures f.Some? <==> old(freeFrames) != [] || old(lru) != []
      ensures InUseKept() && (f.None? ==> pins == old(pins))
      ensures f.Some? ==>
        && p !in old(pins) && pins == old(pins)[p := 1] && MayUnpin(p, false)
        && p in pageTable && pageTable[p] == f.value && 0 <= f.value < |frames|
        && frames[f.value].data == if p in logical then logical[p] else disk.Stored(p)
      ensures forall q :: q in old(pageTable) && q !in pageTable ==> old(Oldest(q) && freeFrames == [])
    {
      assert Unsealed(0);
      assert p in logical ==> p in disk.Allocated();
      var i := AcquireFrame();
      if i == |frames| {
        return None;
      }
      assert p in logical ==> logical[p] == Seen(p);
      var data := disk.ReadPage(p);
      Install(i, p, data);
      return Some(i);
    }

    method PinAgain(p: int)
      requires Consistent() && p in pageTable
      modifies this`frames, this`lru, this`pins
      ensures Consistent() && |frames| == old(|frames|)
      ensures forall q :: Dirty(q) <==> old(Dirty(q))
      ensures pins == old(pins)[p := old(PinsOf(p)) + 1]
      ensures p !in old(pins) ==> MayUnpin(p, false)
    {
      Unlist(p);
      RaisePin(p);
    }

    /** Takes the frame of a page off the LRU list. */
    method Unlist(p: int)
      requires Consistent() && p in pageTable
      modifies this`lru
      ensures Unlisted(pageTable[p])
    {
      var f := pageTable[p];
      assert PageOk(p) && FrameOk(f);
      if frames[f].pinCount == 0 {
        RemoveFromLru(f);
      }
      forall g | 0 <= g < |frames| && g != f ensures FrameOk(g) {
        assert old(FrameOk(g));
      }
      forall q | q in pageTable ensures PageOk(q) {
        assert old(PageOk(q));
      }
      forall q | q in logical ensures logical[q] == Seen(q) {
        assert old(logical[q] == Seen(q));
      }
    }

    /** All is well except that `f`, which is on no list, may have no pin. */
    ghost predicate Unlisted(f: int)
      reads this`frames, this`pageTable, this`freeFrames, this`lru, this`logical, this`pins, this`clock, this`droppedAt,
            disk
    {
      && disk.Valid() && Listed() && Aged() && f !in lru && f !in freeFrames
      && (forall g {:trigger FrameOk(g)} :: 0 <= g < |frames| && g != f ==> FrameOk(g))
      && (forall q {:trigger PageOk(q)} :: q in pageTable ==> PageOk(q))
      && pins.Keys <= pageTable.Keys && logical.Keys == disk.Allocated()
      && (forall q {:trigger Seen(q)} :: q in logical ==> logical[q] == Seen(q))
    }

    method RaisePin(p: int)
      requires p in pageTable && Unlisted(pageTable[p])
      modifies this`frames, this`pins
      ensures Consistent() && |frames| == old(|frames|)
      ensures forall q :: Dirty(q) <==> old(Dirty(q))
      ensures pins == old(pins)[p := old(PinsOf(p)) + 1]
      ensures p !in old(pins) ==> MayUnpin(p, false)
    {
      var f := pageTable[p];
      assert PageOk(p);
      frames := frames[f := frames[f].(pinCount := frames[f].pinCount + 1)];
      pins := pins[p := PinsOf(p) + 1];
      forall q | q in pageTable ensures PageOk(q) {
        assert old(PageOk(q));
      }
      forall g | 0 <= g < |frames| ensures FrameOk(g) {
        assert g != f ==> old(FrameOk(g));
      }
      forall q | q in logical ensures logical[q] == Seen(q) {
        assert old(logical[q] == Seen(q));
      }
    }

    /** Allocates a page into the acquired frame `f`, zeroed, clean and pinned once. */
    method InstallNew(f: int) returns (p: int)
      requires ValidBut(f) && 0 <= f < |frames|
      modifies this`frames, this`pageTable, this`pins, this`logical, disk`nextPageId, disk`freeList
      ensures Consistent() && |frames| == old(|frames|) && frames[f].data == Zeros
      ensures forall q :: q != p ==> (Dirty(q) <==> old(Dirty(q)))
      ensures p == old(disk.NextId()) && p >= 0 && p !in old(logical) && logical == old(logical)[p := Zeros]
      ensures p !in old(pins)
      ensures pageTable == old(pageTable)[p := f] && pins == old(pins)[p := 1]
    {
      p := disk.AllocatePage();
      assert p in pins ==> old(PageOk(p));
      frames := frames[f := Frame(p, Zeros, 1, false)];
      pageTable := pageTable[p := f];
      pins := pins[p := 1];
      logical := logical[p := Zeros];
      forall q | q in pageTable ensures PageOk(q) {
        assert q != p ==> old(PageOk(q)) && pageTable[q] != f;
      }
      forall g | 0 <= g < |frames| ensures FrameOk(g) {
        assert g != f ==> old(FrameOk(g));
        assert g != f && g !in freeFrames ==> old(PageOk(frames[g].pageId));
      }
      forall q | q in logical ensures logical[q] == Seen(q) {
        assert q != p ==> old(logical[q] == Seen(q));
        assert q != p && q in pageTable ==> old(PageOk(q)) && pageTable[q] != f;
      }
    }

    /** A new page reads as zeros, whatever the disk still holds under its id. */
    method NewPage() returns (page: Option<(int, int)>)
      requires Valid()
      modifies this, disk
      ensures Valid() && |frames| == old(|frames|)
      ensures clock == old(clock) && droppedAt == old(droppedAt)
      ensures mostPinned == if page.Some? then Larger(old(mostPinned), |pins|) else old(mostPinned)
      ensures InUseKept()
      ensures page.Some? <==> old(freeFrames) != [] || old(lru) != []
      ensures page.None? ==> logical == old(logical) && pins == old(pins) && disk.NextId() == old(disk.NextId())
      ensures page.Some? ==>
        var (p, f) := page.value;
        && p == old(disk.NextId()) && p >= 0 && p !in old(logical) && p !in old(pins)
        && logical == old(logical)[p := Zeros] && pins == old(pins)[p := 1]
        && p in pageTable && pageTable[p] == f && 0 <= f < |frames| && frames[f].data == Zeros
      ensures forall q :: q in old(pageTable) && q !in pageTable ==> old(Oldest(q) && freeFrames == [])
    {
      assert Unsealed(0);
      var f := AcquireFrame();
      if f == |frames| {
        return None;
      }
      label Acquired:
      var p := InstallNew(f);
      forall q | q in old(pins) ensures Dirty(q) <==> old(Dirty(q)) {
        assert Dirty(q) <==> old@Acquired(Dirty(q));
      }
      mostPinned := Larger(mostPinned, |pins|);
      return Some((p, f));
    }

    /** A client stores through the page pointer it holds; the page must be in use. */
    method Store(p: int, data: Content)
      requires Valid() && p in pins
      modifies this`frames, this`logical
      ensures Valid() && |frames| == old(|frames|) && logical == old(logical)[p := data]
      ensures pageTable == old(pageTable) && pins == old(pins)
      ensures p in pageTable && 0 <= pageTable[p] < |frames| && frames[pageTable[p]].data == data
      ensures forall f :: 0 <= f < |frames| ==> frames[f] == old(frames[f]).(data := frames[f].data)
      ensures InUseKept()
    {
      assert Unsealed(0);
      assert PageOk(p);
      var f := pageTable[p];
      frames := frames[f := frames[f].(data := data)];
      logical := logical[p := data];
      forall q | q in pageTable ensures PageOk(q) {
        assert old(PageOk(q)) && (q != p ==> pageTable[q] != f);
      }
      forall g | 0 <= g < |frames| ensures FrameOk(g) {
        assert old(FrameOk(g));
      }
      forall q | q in logical ensures logical[q] == Seen(q) {
        assert q != p ==> old(logical[q] == Seen(q));
        assert q in pageTable ==> old(PageOk(q));
      }
    }

    /** What the last unpin of a page owes the pool: without "dirty", frame and disk hold the same. */
    ghost predicate MayUnpin(p: int, isDirty: bool)
      reads this`frames, this`pageTable, disk
    {
      p in pageTable && p >= 0 && 0 <= pageTable[p] < |frames| && frames[pageTable[p]].pinCount == 1 ==>
        isDirty || frames[pageTable[p]].dirty || frames[pageTable[p]].data == disk.Stored(p)
    }

    /** Fails exactly when the page is not in use, and keeps the invariant exactly when the pool gets what it
        is owed. */
    method UnpinPage(p: int, isDirty: bool) returns (ok: bool)
      requires Valid()
      modifies this`frames, this`lru, this`pins, this`clock, this`droppedAt
      ensures Valid() <==> old(MayUnpin(p, isDirty))
      ensures |frames| == old(|frames|)
      ensures ok <==> p in old(pins)
      ensures forall q :: Dirty(q) <==> old(Dirty(q)) || (ok && q == p && isDirty)
      ensures pins == if ok then OnePinLess(old(pins), p) else old(pins)
      ensures p in old(pins) && p !in pins ==>
        && clock == old(clock) + 1 && p in pageTable && 0 <= pageTable[p] < |old(droppedAt)|
        && droppedAt == old(droppedAt)[pageTable[p] := old(clock)]
      ensures !(p in old(pins) && p !in pins) ==> clock == old(clock) && droppedAt == old(droppedAt)
    {
      assert Unsealed(0);
      if p !in pageTable {
        return false;
      }
      var f := pageTable[p];
      assert PageOk(p) && FrameOk(f);
      if frames[f].pinCount == 0 {
        return false;
      }
      ok := true;
      if frames[f].pinCount == 1 {
        LastUnpin(p, isDirty);
      } else {
        frames := frames[f := frames[f].(pinCount := frames[f].pinCount - 1, dirty := frames[f].dirty || isDirty)];
        pins := pins[p := pins[p] - 1];
        forall q | q in pageTable ensures PageOk(q) {
          assert old(PageOk(q)) && (q != p ==> pageTable[q] != f);
        }
        forall g | 0 <= g < |frames| ensures FrameOk(g) {
          assert old(FrameOk(g));
        }
        forall q | q in logical ensures logical[q] == Seen(q) {
          assert old(logical[q] == Seen(q));
        }
      }
    }

    /** Nobody uses the page any more: its frame becomes the youngest candidate for eviction. */
    method LastUnpin(p: int, isDirty: bool)
      requires Consistent() && p in pageTable && 0 <= pageTable[p] < |frames| && frames[pageTable[p]].pinCount == 1
      modifies this`frames, this`lru, this`pins, this`clock, this`droppedAt
      ensures Consistent() <==> old(MayUnpin(p, isDirty))
      ensures |frames| == old(|frames|) && pins == old(pins) - {p}
      ensures forall q :: Dirty(q) <==> old(Dirty(q)) || (q == p && isDirty)
      ensures clock == old(clock) + 1 && pageTable[p] < |old(droppedAt)|
      ensures droppedAt == old(droppedAt)[pageTable[p] := old(clock)]
    {
      var f := pageTable[p];
      assert PageOk(p) && FrameOk(f);
      frames := frames[f := frames[f].(pinCount := 0, dirty := frames[f].dirty || isDirty)];
      pins := pins - {p};
      AddToLru(f);
      forall q | q in pageTable ensures PageOk(q) <==> q != p || old(MayUnpin(p, isDirty)) {
        assert old(PageOk(q)) && (q != p ==> pageTable[q] != f);
      }
      forall g | 0 <= g < |frames| ensures FrameOk(g) {
        assert old(FrameOk(g));
      }
      forall q | q in logical ensures logical[q] == Seen(q) {
        assert old(logical[q] == Seen(q));
      }
    }

    method AddToLru(f: int)
      requires Listed() && Aged() && 0 <= f < |frames| && f !in lru
      modifies this`lru, this`clock, this`droppedAt
      ensures Listed() && Aged() && lru == [f] + old(lru)
      ensures clock == old(clock) + 1 && droppedAt == old(droppedAt)[f := old(clock)]
    {
      lru := [f] + lru;
      droppedAt := droppedAt[f := clock];
      clock := clock + 1;
    }

    method FlushPage(p: int) returns (ok: bool)
      requires Valid()
      modifies this`frames, disk`file, disk`numFlushes
      ensures Valid() && |frames| == old(|frames|)
      ensures ok <==> p in pageTable
      ensures ok ==> p >= 0 && 0 <= pageTable[p] < |frames| && !frames[pageTable[p]].dirty
      ensures p >= 0 && old(Dirty(p)) ==> disk.Stored(p) == Seen(p)
      ensures forall q :: Dirty(q) <==> old(Dirty(q)) && q != p
      ensures forall q: nat :: q != p || !old(Dirty(p)) ==> disk.Stored(q) == old(disk.Stored(q))
    {
      assert Unsealed(0);
      if p !in pageTable {
        return false;
      }
      assert PageOk(p);
      Clean(p);
      return true;
    }

    /** Writes a resident page back if its frame is marked. */
    method Clean(p: int)
      requires Consistent() && p in pageTable
      modifies this`frames, disk`file, disk`numFlushes
      ensures Consistent() && |frames| == old(|frames|) && p >= 0
      ensures forall q :: Dirty(q) <==> old(Dirty(q)) && q != p
      ensures forall q :: q in pageTable ==> Seen(q) == old(Seen(q))
      ensures disk.Stored(p) == if old(Dirty(p)) then Seen(p) else old(disk.Stored(p))
      ensures forall q: nat :: q != p ==> disk.Stored(q) == old(disk.Stored(q))
    {
      assert PageOk(p);
      if frames[pageTable[p]].dirty {
        WriteBack(p);
        MarkClean(p);
      }
    }

    method MarkClean(p: int)
      requires Consistent() && p in pageTable && p >= 0 && 0 <= pageTable[p] < |frames|
      requires disk.Stored(p) == frames[pageTable[p]].data
      modifies this`frames
      ensures Consistent() && |frames| == old(|frames|)
      ensures forall q :: Dirty(q) <==> old(Dirty(q)) && q != p
      ensures forall q :: Seen(q) == old(Seen(q))
    {
      var f := pageTable[p];
      assert PageOk(p);
      frames := frames[f := frames[f].(dirty := false)];
      forall q | q in pageTable ensures PageOk(q) {
        assert old(PageOk(q)) && (q != p ==> pageTable[q] != f);
      }
      forall g | 0 <= g < |frames| ensures FrameOk(g) {
        assert old(FrameOk(g));
      }
      forall q | q in logical ensures logical[q] == Seen(q) {
        assert old(logical[q] == Seen(q));
      }
    }

    /** Afterwards the disk alone holds what clients see in every page nobody is using. */
    method FlushAllPages()
      requires Valid()
      modifies this`frames, disk`file, disk`numFlushes
      ensures Valid() && |frames| == old(|frames|)
      ensures forall p :: p in logical && p !in pins ==> p >= 0 && disk.Stored(p) == logical[p]
      ensures forall p :: !Dirty(p)
      ensures forall p: nat {:trigger disk.Stored(p)} ::
                disk.Stored(p) == if old(Dirty(p)) then Seen(p) else old(disk.Stored(p))
    {
      assert Unsealed(0);
      var todo := pageTable.Keys;
      while todo != {}
        invariant Consistent() && |frames| == old(|frames|) && todo <= pageTable.Keys
        invariant forall p :: Dirty(p) <==> old(Dirty(p)) && p in todo
        invariant forall p :: p in pageTable ==> Seen(p) == old(Seen(p))
        invariant forall p: nat {:trigger disk.Stored(p)} ::
                    disk.Stored(p) == if old(Dirty(p)) && p !in todo then Seen(p) else old(disk.Stored(p))
        decreases |todo|
      {
        NotEmpty(todo);
        var p :| p in todo;
        Clean(p);
        todo := todo - {p};
      }
      forall p | p in logical && p !in pins ensures p >= 0 && disk.Stored(p) == logical[p] {
        assert logical[p] == Seen(p);
        assert p in disk.Allocated();
        assert p in pageTable ==> PageOk(p);
      }
    }

    /** Refuses to delete a page in use. The id is not looked at: freeing one that is not allocated puts it
        on the free list of the disk, and the invariant is lost in just this case. */
    method DeletePage(p: int) returns (ok: bool)
      requires Valid()
      modifies this, disk`freeList
      ensures Valid() <==> p < 0 || p in old(logical)
      ensures |frames| == old(|frames|)
      ensures ok <==> p !in old(pins)
      ensures pins == old(pins) && logical == if ok then old(logical) - {p} else old(logical)
      ensures clock == old(clock) && droppedAt == old(droppedAt) && mostPinned == old(mostPinned)
      ensures InUseKept()
    {
      assert Unsealed(0);
      if p in pageTable {
        assert PageOk(p);
        if frames[pageTable[p]].pinCount != 0 {
          return false;
        }
        FreeFrame(p);
      } else {
        FreeAbsent(p);
      }
      return true;
    }

    /** Frees the id of a page that has no frame. */
    method FreeAbsent(p: int)
      requires Consistent() && p !in pageTable
      modifies this`logical, disk`freeList
      ensures Consistent() <==> p < 0 || p in old(logical)
      ensures logical == old(logical) - {p}
    {
      disk.DeallocatePage(p);
      logical := logical - {p};
      assert p !in old(logical) ==> logical == old(logical);
      forall q | q in pageTable ensures PageOk(q) {
        assert old(PageOk(q));
      }
      forall g | 0 <= g < |frames| ensures FrameOk(g) {
        assert old(FrameOk(g));
      }
      forall q | q in logical ensures logical[q] == Seen(q) {
        assert old(logical[q] == Seen(q));
      }
    }

    /** Frees the frame of an unpinned page, and its id. */
    method FreeFrame(p: int)
      requires Consistent() && p in pageTable && p !in pins
      modifies this, disk`freeList
      ensures Consistent() && |frames| == old(|frames|)
      ensures pins == old(pins) && logical == old(logical) - {p}
      ensures clock == old(clock) && droppedAt == old(droppedAt) && mostPinned == old(mostPinned)
      ensures InUseKept()
    {
      var f := pageTable[p];
      FramesDiffer(p);
      Forget(p);
      Release(f);
    }

    lemma FramesDiffer(p: int)
      requires Consistent() && p in pageTable
      ensures forall q :: q in pageTable && q != p ==> pageTable[q] != pageTable[p]
    {
      assert PageOk(p);
      forall q | q in pageTable && q != p ensures pageTable[q] != pageTable[p] {
        assert PageOk(q);
      }
    }

    method Release(f: int)
      requires ValidBut(f) && 0 <= f < |frames|
      modifies this`freeFrames
      ensures Consistent()
    {
      freeFrames := freeFrames + [f];
      assert forall g :: g in freeFrames <==> g in old(freeFrames) || g == f;
      forall q | q in pageTable ensures PageOk(q) {
        assert old(PageOk(q)) && pageTable[q] != f;
      }
      forall g | 0 <= g < |frames| ensures FrameOk(g) {
        assert g != f ==> old(FrameOk(g));
      }
      forall q | q in logical ensures logical[q] == Seen(q) {
        assert old(logical[q] == Seen(q));
      }
    }

    /** Empties the frame of an unpinned page that nobody will ask for again. */
    method Forget(p: int)
      requires Consistent() && p in pageTable && p !in pins
      modifies this`frames, this`pageTable, this`lru, this`logical, disk`freeList
      ensures ValidBut(old(pageTable[p])) && 0 <= old(pageTable[p]) < |frames| == old(|frames|)
      ensures pageTable == old(pageTable) - {p} && logical == old(logical) - {p}
      ensures frames == old(frames)[old(pageTable[p]) := EMPTY]
    {
      Unlist(p);
      Erase(p);
    }

    method Erase(p: int)
      requires p in pageTable && p !in pins && Unlisted(pageTable[p])
      modifies this`frames, this`pageTable, this`logical, disk`freeList
      ensures ValidBut(old(pageTable[p])) && 0 <= old(pageTable[p]) < |frames| == old(|frames|)
      ensures pageTable == old(pageTable) - {p} && logical == old(logical) - {p}
      ensures frames == old(frames)[old(pageTable[p]) := EMPTY]
    {
      var f := pageTable[p];
      assert PageOk(p);
      frames, pageTable, logical := frames[f := EMPTY], pageTable - {p}, logical - {p};
      disk.DeallocatePage(p);
      forall q | q in pageTable ensures PageOk(q) && pageTable[q] != f {
        assert old(PageOk(q));
      }
      forall g | 0 <= g < |frames| && g != f ensures FrameOk(g) {
        assert old(FrameOk(g));
      }
      forall q | q in logical ensures logical[q] == Seen(q) {
        assert old(logical[q] == Seen(q));
        assert q in pageTable ==> pageTable[q] != f;
      }
    }

    /** Every frame is free, on the LRU list or in use, and just one of these; the page table and the
        frames that are not free name each other. */
    lemma FramesPartition()
      requires Valid()
      ensures forall f :: 0 <= f < |frames| ==>
                || (f in freeFrames && f !in lru && frames[f].pinCount == 0)
                || (f !in freeFrames && f in lru && frames[f].pinCount == 0)
                || (f !in freeFrames && f !in lru && frames[f].pinCount > 0)
      ensures forall f :: 0 <= f < |frames| && f !in freeFrames ==>
                frames[f].pageId in pageTable && pageTable[frames[f].pageId] == f
      ensures forall p :: p in pageTable ==>
                0 <= pageTable[p] < |frames| && pageTable[p] !in freeFrames && frames[pageTable[p]].pageId == p
    {
      assert Unsealed(0);
      forall f | 0 <= f < |frames|
        ensures
          || (f in freeFrames && f !in lru && frames[f].pinCount == 0)
          || (f !in freeFrames && f in lru && frames[f].pinCount == 0)
          || (f !in freeFrames && f !in lru && frames[f].pinCount > 0)
        ensures f !in freeFrames ==> frames[f].pageId in pageTable && pageTable[frames[f].pageId] == f
      {
        assert FrameOk(f);
      }
      forall p | p in pageTable
        ensures 0 <= pageTable[p] < |frames| && pageTable[p] !in freeFrames && frames[pageTable[p]].pageId == p
      {
        assert PageOk(p);
      }
    }

    /** The condition under which fetching a page that is not in the pool fails: every frame is in use. */
    lemma FullMeansAllInUse()
      requires Valid()
      ensures freeFrames == [] && lru == [] <==> forall f :: 0 <= f < |frames| ==> frames[f].pinCount > 0
    {
      assert Unsealed(0);
      FramesPartition();
      if freeFrames != [] {
        assert freeFrames[0] in freeFrames;
      }
      if lru != [] {
        assert lru[0] in lru;
      }
    }

    lemma PinsCount(p: int)
      requires Valid() && p in pins
      ensures pins[p] > 0 && p >= 0 && p in pageTable
      ensures 0 <= pageTable[p] < |frames| && frames[pageTable[p]].pinCount == pins[p]
    {
      assert Unsealed(0);
      assert PageOk(p);
    }

    lemma PagesAreAllocated()
      requires Valid()
      ensures logical.Keys == disk.Allocated()
    {
      assert Unsealed(0);
    }

    lemma NextIsFresh()
      requires Valid()
      ensures disk.NextId() >= 0 && disk.NextId() !in logical
    {
      PagesAreAllocated();
      assert Unsealed(0);
      disk.NextIsFree();
    }

    /** A pool with fewer pages in use than frames can always serve. */
    lemma HasFrame()
      requires Valid() && |pins| < |frames|
      ensures freeFrames != [] || lru != []
    {
      assert Unsealed(0);
      if freeFrames == [] && lru == [] {
        var ids := seq(|frames|, i requires 0 <= i < |frames| reads this => frames[i].pageId);
        forall f | 0 <= f < |frames| ensures ids[f] in pins && pageTable[ids[f]] == f {
          assert FrameOk(f) && PageOk(frames[f].pageId);
        }
        Pigeonhole(ids, pins.Keys);
      }
    }
  }
}
