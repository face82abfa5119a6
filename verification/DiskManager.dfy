/** The page file and the page ids handed out over it. */
module DiskManager {
  import opened Pages

  class Disk {
    var file: seq<Content>
    var nextPageId: nat
    var freeList: seq<int>
    var numFlushes: nat

    ghost predicate Valid()
      reads this`nextPageId, this`freeList
    {
      && (forall i :: 0 <= i < |freeList| ==> 0 <= freeList[i] < nextPageId)
      && (forall i, j :: 0 <= i < j < |freeList| ==> freeList[i] != freeList[j])
    }

    ghost function Allocated(): set<int>
      reads this`nextPageId, this`freeList
    {
      set p | 0 <= p < nextPageId && p !in freeList
    }

    /** What a read of the page returns: zeros beyond the end of the file. */
    function Stored(pageId: nat): Content
      reads this`file
    {
      if pageId < |file| then file[pageId] else Zeros
    }

    /** The id the next allocation returns. */
    function NextId(): int
      reads this`nextPageId, this`freeList
    {
      if freeList != [] then freeList[|freeList| - 1] else nextPageId
    }

    lemma NextIsFree()
      requires Valid()
      ensures NextId() >= 0 && NextId() !in Allocated()
    {
      if freeList != [] {
        assert freeList[|freeList| - 1] in freeList;
      }
    }

    /** Every page of an existing file counts as allocated. */
    constructor (file: seq<Content>)
      ensures Valid() && this.file == file && forall p :: p in Allocated() <==> 0 <= p < |file|
    {
      this.file, nextPageId, freeList, numFlushes := file, |file|, [], 0;
    }

    method ReadPage(pageId: nat) returns (data: Content)
      ensures data == Stored(pageId)
    {
      data := if pageId < |file| then file[pageId] else Zeros;
    }

    method WritePage(pageId: nat, data: Content)
      modifies this`file, this`numFlushes
      ensures numFlushes == old(numFlushes) + 1
      ensures Stored(pageId) == data
      ensures forall p: nat :: p != pageId ==> Stored(p) == old(Stored(p))
    {
      if pageId < |file| {
        file := file[pageId := data];
      } else {
        file := file + seq(pageId - |file|, i => Zeros) + [data];
      }
      numFlushes := numFlushes + 1;
    }

    method AllocatePage() returns (pageId: int)
      requires Valid()
      modifies this`nextPageId, this`freeList
      ensures Valid() && pageId == old(NextId()) && pageId >= 0
      ensures pageId !in old(Allocated()) && Allocated() == old(Allocated()) + {pageId}
      ensures if old(freeList) != [] then freeList + [pageId] == old(freeList) && nextPageId == old(nextPageId)
              else freeList == [] && nextPageId == old(nextPageId) + 1
    {
      if freeList != [] {
        pageId := freeList[|freeList| - 1];
        freeList := freeList[..|freeList| - 1];
      } else {
        pageId := nextPageId;
        nextPageId := nextPageId + 1;
      }
    }

    /** Frees any id that is not negative, without a look at it: the invariant survives exactly when the id
        was allocated (or negative, which changes nothing). */
    method DeallocatePage(pageId: int)
      requires Valid()
      modifies this`freeList
      ensures freeList == if pageId >= 0 then old(freeList) + [pageId] else old(freeList)
      ensures Valid() <==> pageId < 0 || pageId in old(Allocated())
      ensures pageId in old(Allocated()) ==> Allocated() == old(Allocated()) - {pageId} && NextId() == pageId
    {
      if pageId >= 0 {
        freeList := freeList + [pageId];
        assert freeList[|freeList| - 1] == pageId;
        if pageId in old(freeList) {
          var i :| 0 <= i < |old(freeList)| && old(freeList)[i] == pageId;
          assert freeList[i] == freeList[|freeList| - 1];
        }
      }
    }
  }
}
