/** A table: an index from ids to record pages, and a log that every change goes through first. */
module Tables {
  import opened Collections
  import opened Options
  import opened Pages
  import opened Bytes
  import opened BufferPool
  import opened PageAccess
  import opened TreeModel
  import opened TreeScan
  import opened BPlusTree
  import opened Records
  import opened LogRecords
  import opened WalManager
  import opened Recovery

  /** A page that holds the image of record `r`. */
  ghost predicate IsImageOf(c: Content, r: Record) {
    c.OfRecord? && |c.image| == RECORD_SIZE && OfImage(c.image) == r
  }

  /** The rows with ids in [lo, hi) that satisfy the predicate, in the order of their ids. */
  ghost function Matching(rows: map<int, Record>, p: Record -> bool, lo: int, hi: int): seq<Record>
    decreases hi - lo, |rows|
  {
    if lo >= hi then []
    else (if lo in rows && p(rows[lo]) then [rows[lo]] else []) + Matching(rows, p, lo + 1, hi)
  }

  /** The records are exactly the rows that match, in ascending order of id. */
  ghost predicate Selects(found: seq<Record>, rows: map<int, Record>, p: Record -> bool) {
    && (forall i, j :: 0 <= i < j < |found| ==> found[i].id < found[j].id)
    && (forall r :: r in found <==> r.id in rows && rows[r.id] == r && p(r))
  }

  /** Exactly the matching rows, in ascending order of id. */
  lemma {:induction false} MatchingIsTheSelection(rows: map<int, Record>, p: Record -> bool, lo: int, hi: int)
    requires Keyed(rows)
    ensures
      var found := Matching(rows, p, lo, hi);
      && (forall i, j :: 0 <= i < j < |found| ==> found[i].id < found[j].id)
      && (forall r :: r in found <==> r.id in rows && rows[r.id] == r && p(r) && lo <= r.id < hi)
    decreases hi - lo
  {
    if lo < hi {
      MatchingIsTheSelection(rows, p, lo + 1, hi);
      var rest := Matching(rows, p, lo + 1, hi);
      forall i | 0 <= i < |rest| ensures lo < rest[i].id {
        assert rest[i] in rest;
      }
    }
  }

  /** The same rows picked from a scan of the index. */
  ghost function Picked(entries: seq<(int, int)>, rows: map<int, Record>, p: Record -> bool): seq<Record>
    requires forall i :: 0 <= i < |entries| ==> entries[i].0 in rows
  {
    if entries == [] then []
    else (if p(rows[entries[0].0]) then [rows[entries[0].0]] else []) + Picked(entries[1..], rows, p)
  }

  lemma PickedStep(entries: seq<(int, int)>, rows: map<int, Record>, p: Record -> bool, i: int, found: seq<Record>)
    requires 0 <= i < |entries| && forall j :: 0 <= j < |entries| ==> entries[j].0 in rows
    ensures
      var r := rows[entries[i].0];
      found + Picked(entries[i..], rows, p) == (if p(r) then found + [r] else found) + Picked(entries[i + 1..], rows, p)
  {
    assert entries[i..][1..] == entries[i + 1..];
  }

  lemma {:induction false} PickedMatches(m: map<int, int>, rows: map<int, Record>, p: Record -> bool, lo: int, hi: int)
    requires m.Keys == rows.Keys
    ensures forall i :: 0 <= i < |Listing(m, lo, hi)| ==> Listing(m, lo, hi)[i].0 in rows
    ensures Picked(Listing(m, lo, hi), rows, p) == Matching(rows, p, lo, hi)
    decreases hi - lo
  {
    if lo < hi {
      PickedMatches(m, rows, p, lo + 1, hi);
      var rest := Listing(m, lo + 1, hi);
      if lo in m {
        assert Listing(m, lo, hi) == [(lo, m[lo])] + rest && ([(lo, m[lo])] + rest)[1..] == rest;
      } else {
        assert Listing(m, lo, hi) == rest;
      }
    }
  }

  // ----- Rows on pages

  /** Row `k` is on its own page, which is not foreign and which nobody is using. */
  ghost predicate RowAt(contents: map<int, int>, others: map<int, Content>, rows: map<int, Record>, kept: set<int>,
                        k: int)
    requires k in contents && k in rows
  {
    var p := contents[k];
    p >= 0 && p in others && p !in kept && IsImageOf(others[p], rows[k])
  }

  /** The index names one page for each row, no two rows share a page, and every page that is not the
      tree's is the page of one row or foreign. */
  ghost predicate Stored(contents: map<int, int>, others: map<int, Content>, rows: map<int, Record>, foreign: set<int>,
                         used: set<int>) {
    && contents.Keys == rows.Keys && foreign <= others.Keys
    && (forall k {:trigger RowAt(contents, others, rows, foreign + used, k)} :: k in rows ==>
          IsKey(k) && RowAt(contents, others, rows, foreign + used, k))
    && (forall k, l :: k in rows && l in rows && contents[k] == contents[l] ==> k == l)
    && (forall p {:trigger p in others} :: p in others ==> p in foreign || exists k :: k in rows && contents[k] == p)
  }

  ghost predicate Sealed(k: int) { true }

  /** `Stored` as a fact to pass around, opened only where `Sealed` is mentioned. */
  ghost predicate Kept(contents: map<int, int>, others: map<int, Content>, rows: map<int, Record>, foreign: set<int>,
                       used: set<int>) {
    forall k {:trigger Sealed(k)} :: Sealed(k) ==> Stored(contents, others, rows, foreign, used)
  }

  lemma AddRow(contents: map<int, int>, others: map<int, Content>, rows: map<int, Record>, foreign: set<int>,
               used: set<int>, p: int, c: Content, r: Record)
    requires Kept(contents, others, rows, foreign, used) && r.id !in rows && IsKey(r.id)
    requires p >= 0 && p !in others && p !in used && IsImageOf(c, r)
    ensures Kept(contents[r.id := p], others[p := c], rows[r.id := r], foreign, used)
  {
    assert Sealed(0);
    var contents', others', rows' := contents[r.id := p], others[p := c], rows[r.id := r];
    forall k | k in rows' ensures IsKey(k) && RowAt(contents', others', rows', foreign + used, k) {
      assert k != r.id ==> RowAt(contents, others, rows, foreign + used, k);
    }
    forall k, l | k in rows' && l in rows' && contents'[k] == contents'[l] ensures k == l {
      assert k != r.id ==> RowAt(contents, others, rows, foreign + used, k);
      assert l != r.id ==> RowAt(contents, others, rows, foreign + used, l);
    }
    forall q | q in others' && q !in foreign ensures exists k :: k in rows' && contents'[k] == q {
      if q == p {
        assert contents'[r.id] == q;
      } else {
        var k :| k in rows && contents[k] == q;
        assert contents'[k] == q;
      }
    }
  }

  lemma ChangeRow(contents: map<int, int>, others: map<int, Content>, rows: map<int, Record>, foreign: set<int>,
                  used: set<int>, k: int, c: Content, r: Record)
    requires Kept(contents, others, rows, foreign, used) && k in rows && k in contents && IsImageOf(c, r)
    ensures Kept(contents, others[contents[k] := c], rows[k := r], foreign, used)
  {
    assert Sealed(0);
    assert RowAt(contents, others, rows, foreign + used, k);
    var others', rows' := others[contents[k] := c], rows[k := r];
    forall l | l in rows' ensures IsKey(l) && RowAt(contents, others', rows', foreign + used, l) {
      assert RowAt(contents, others, rows, foreign + used, l);
    }
  }

  lemma DropRow(contents: map<int, int>, others: map<int, Content>, rows: map<int, Record>, foreign: set<int>,
                used: set<int>, k: int)
    requires Kept(contents, others, rows, foreign, used) && k in rows && k in contents
    ensures Kept(contents - {k}, others - {contents[k]}, rows - {k}, foreign, used)
  {
    assert Sealed(0);
    assert RowAt(contents, others, rows, foreign + used, k);
    var contents', others', rows' := contents - {k}, others - {contents[k]}, rows - {k};
    forall l | l in rows' ensures IsKey(l) && RowAt(contents', others', rows', foreign + used, l) {
      assert RowAt(contents, others, rows, foreign + used, l);
    }
    forall q | q in others' && q !in foreign ensures exists l :: l in rows' && contents'[l] == q {
      var l :| l in rows && contents[l] == q;
      assert contents'[l] == q;
    }
  }

  ghost function PagesOf(contents: map<int, int>, rows: map<int, Record>): set<int> {
    set k | k in rows && k in contents :: contents[k]
  }

  lemma RowsArePages(contents: map<int, int>, others: map<int, Content>, rows: map<int, Record>, foreign: set<int>,
                     used: set<int>)
    requires Kept(contents, others, rows, foreign, used)
    ensures others.Keys == PagesOf(contents, rows) + foreign && PagesOf(contents, rows) !! foreign
    ensures |PagesOf(contents, rows)| == |rows|
  {
    assert Sealed(0);
    forall k | k in rows ensures contents[k] in others && contents[k] !in foreign {
      assert RowAt(contents, others, rows, foreign + used, k);
    }
    forall p ensures p in others.Keys <==> p in PagesOf(contents, rows) + foreign {
      if p in others && p !in foreign {
        var k :| k in rows && contents[k] == p;
        assert contents[k] in PagesOf(contents, rows);
      }
    }
    OneToOne(contents, rows.Keys);
    assert PagesOf(contents, rows) == set k | k in rows.Keys :: contents[k];
  }

  /** The page of a row that is there. */
  lemma PageOfRow(contents: map<int, int>, others: map<int, Content>, rows: map<int, Record>, foreign: set<int>,
                  used: set<int>, k: int)
    requires Kept(contents, others, rows, foreign, used)
    ensures k in contents <==> k in rows
    ensures k in rows ==>
              contents[k] >= 0 && contents[k] in others && contents[k] !in used &&
                IsImageOf(others[contents[k]], rows[k])
    ensures k in rows ==> IsRecord(rows[k]) && IsKey(k)
  {
    assert Sealed(0);
    if k in rows {
      assert RowAt(contents, others, rows, foreign + used, k);
    }
  }

  /** The pages a scan's entries name hold the rows they are for. */
  ghost predicate Readable(entries: seq<(int, int)>, others: map<int, Content>, rows: map<int, Record>,
                           used: set<int>) {
    forall i {:trigger entries[i]} :: 0 <= i < |entries| ==>
      && entries[i].0 in rows && entries[i].1 >= 0 && entries[i].1 in others && entries[i].1 !in used
      && IsImageOf(others[entries[i].1], rows[entries[i].0])
  }

  lemma EntriesMatch(contents: map<int, int>, others: map<int, Content>, rows: map<int, Record>, foreign: set<int>,
                     used: set<int>, wanted: Record -> bool)
    requires Kept(contents, others, rows, foreign, used)
    ensures Readable(Listing(contents, MIN_KEY, SUP_KEY), others, rows, used)
    ensures Picked(Listing(contents, MIN_KEY, SUP_KEY), rows, wanted) == Matching(rows, wanted, MIN_KEY, SUP_KEY)
  {
    var entries := Listing(contents, MIN_KEY, SUP_KEY);
    ListingIsTheRange(contents, MIN_KEY, SUP_KEY);
    forall i {:trigger entries[i]} | 0 <= i < |entries|
      ensures entries[i].0 in rows && entries[i].1 >= 0 && entries[i].1 in others && entries[i].1 !in used
      ensures IsImageOf(others[entries[i].1], rows[entries[i].0])
    {
      var (k, p) := entries[i];
      assert (k, p) in entries;
      PageOfRow(contents, others, rows, foreign, used, k);
    }
    assert Sealed(0);
    PickedMatches(contents, rows, wanted, MIN_KEY, SUP_KEY);
  }

  /** Every id of a table is a key, so a scan over all keys leaves no row out. */
  lemma SelectsAll(contents: map<int, int>, others: map<int, Content>, rows: map<int, Record>, foreign: set<int>,
                   used: set<int>, wanted: Record -> bool)
    requires Kept(contents, others, rows, foreign, used) && Keyed(rows)
    ensures Selects(Matching(rows, wanted, MIN_KEY, SUP_KEY), rows, wanted)
  {
    assert Sealed(0);
    MatchingIsTheSelection(rows, wanted, MIN_KEY, SUP_KEY);
    forall k | k in rows ensures MIN_KEY <= k < SUP_KEY {
      assert RowAt(contents, others, rows, foreign + used, k);
    }
  }

  class Table {
    const index: Index
    const wal: Wal
    ghost var rows: map<int, Record>
    ghost const foreign: set<int>         // pages that were there before the table

    ghost predicate Valid()
      reads this`rows, index, index.pool, index.pool.disk
    {
      index.Valid() && Kept(index.contents, index.others, rows, foreign, index.pool.pins.Keys)
    }

    constructor (index: Index, wal: Wal)
      requires index.Valid() && index.contents == map[]
      ensures Valid() && this.index == index && this.wal == wal && rows == map[] && foreign == index.others.Keys
    {
      this.index, this.wal := index, wal;
      rows, foreign := map[], index.others.Keys;
    }

    // ----- Record pages

    method NewRecordPage(image: seq<byte>) returns (p: int)
      requires index.Valid()
      modifies index`others, index.pool, index.pool.disk
      ensures index.Valid() && p >= 0 && p !in old(index.others) && p !in index.pool.pins
      ensures index.others == old(index.others)[p := OfRecord(image)]
      ensures index.pool.OneAtATime()
    {
      assert Opened(0);
      p := CreatePage(index.pool, (id: int) => OfRecord(image));
      index.Adopt(index.others[p := OfRecord(image)]);
    }

    method WriteRecord(p: int, r: Record)
      requires index.Valid() && IsRecord(r) && p in index.others && p >= 0 && p !in index.pool.pins
      modifies index`others, index.pool, index.pool.disk
      ensures index.Valid() && index.others == old(index.others)[p := OfRecord(Image(r))]
      ensures index.pool.OneAtATime()
    {
      assert Opened(0);
      var image := RecordImage(r);
      WritePage(index.pool, p, OfRecord(image));
      index.Adopt(index.others[p := OfRecord(image)]);
    }

    method FreeRecordPage(p: int) returns (ok: bool)
      requires index.Valid() && p in index.others && p >= 0 && p !in index.pool.pins
      modifies index`others, index.pool, index.pool.disk
      ensures index.Valid() && ok && index.others == old(index.others) - {p}
      ensures index.pool.OneAtATime()
    {
      assert Opened(0);
      ok := index.pool.DeletePage(p);
      index.Adopt(index.others - {p});
    }

    /** No record is on the invalid page. */
    method ReadRecord(p: int, ghost r: Record) returns (record: Option<Record>)
      requires index.Valid()
      requires p != INVALID_PAGE_ID ==>
                 p in index.others && p >= 0 && p !in index.pool.pins && IsImageOf(index.others[p], r)
      modifies index.pool, index.pool.disk
      ensures index.Valid() && record == if p == INVALID_PAGE_ID then None else Some(r)
      ensures record.Some? ==> IsRecord(r)
      ensures index.pool.OneAtATime()
    {
      if p == INVALID_PAGE_ID {
        return None;
      }
      assert Opened(0);
      var data := ReadPage(index.pool, p);
      var found := DeserializeRecord(data.image);
      assert data.image[..RECORD_SIZE] == data.image;
      record := Some(found);
    }

    // ----- What holds between operations

    ghost function RecordPages(): set<int>
      reads this`rows, index
    {
      PagesOf(index.contents, rows)
    }

    /** The allocated pages are those of the tree, those of the rows, one each, and the foreign ones. */
    lemma PagesAccountedFor()
      requires Valid()
      ensures index.pool.disk.Allocated() == index.nodes.Keys + RecordPages() + foreign
      ensures index.nodes.Keys !! RecordPages() && index.nodes.Keys !! foreign && RecordPages() !! foreign
      ensures |RecordPages()| == |rows|
    {
      index.PagesInTwo();
      index.pool.PagesAreAllocated();
      RowsArePages(index.contents, index.others, rows, foreign, index.pool.pins.Keys);
    }

    /** Whatever a crash leaves of the log beyond what was forced to disk, replaying it gives the rows. */
    lemma CrashLosesNoRow(n: nat, back: seq<LogRecord>)
      requires LogGives(rows) && wal.durable <= n <= |wal.file| && ReadsAs(wal.file[..n], back)
      ensures AllReplayable(back) && Replay(map[], back) == rows
    {
      CrashLosesNothing(wal.records, wal.durable, n, back);
    }

    /** A row is a record as it is stored. */
    lemma RowIsStored(id: int)
      requires Valid() && id in rows
      ensures StoredAs(rows[id], rows[id])
    {
      PageOfRow(index.contents, index.others, rows, foreign, index.pool.pins.Keys, id);
      var image := index.others[index.contents[id]].image;
      UpToNulIsPrefix(image[8..8 + NAME_SIZE]);
    }

    /** The page the index names for a row. */
    method PageOf(id: int) returns (page: Option<int>)
      requires Valid() && IsInt64(id)
      modifies index.pool, index.pool.disk
      ensures index.pool.OneAtATime()
      ensures Valid() && (page.Some? <==> id in rows)
      ensures page.Some? ==> id in index.contents && index.contents[id] == page.value
    {
      PageOfRow(index.contents, index.others, rows, foreign, index.pool.pins.Keys, id);
      page := index.Search(id);
    }

    // ----- Changes that are not logged

    /** Skips an id that is there. */
    method InsertWithoutWAL(record: Record) returns (ok: bool)
      requires Valid() && IsRecord(record)
      modifies this`rows, index, index.pool, index.pool.disk
      ensures index.pool.OneAtATime()
      ensures Valid() && ok == (record.id !in old(rows))
      ensures rows == if record.id in old(rows) then old(rows) else old(rows)[record.id := Normal(record)]
      ensures ok ==> StoredAs(record, rows[record.id])
    {
      PageOfRow(index.contents, index.others, rows, foreign, index.pool.pins.Keys, record.id);
      var existing := index.Search(record.id);
      if existing.Some? {
        return false;
      }
      var image := RecordImage(record);
      ImageRoundTrip(record);
      NormalIsKept(record, Normal(record));
      ghost var contents, others := index.contents, index.others;
      var p := NewRecordPage(image);
      ok := index.Insert(record.id, p);
      AddRow(contents, others, rows, foreign, index.pool.pins.Keys, p, OfRecord(image), Normal(record));
      rows := rows[record.id := Normal(record)];
    }

    /** Adds a row whose id is not there. */
    method UpdateWithoutWAL(id: int, record: Record) returns (ok: bool)
      requires Valid() && IsRecord(record) && IsInt64(id)
      modifies this`rows, index, index.pool, index.pool.disk
      ensures index.pool.OneAtATime()
      ensures Valid()
      ensures rows == if id in old(rows) then old(rows)[id := Normal(record)]
              else if record.id in old(rows) then old(rows) else old(rows)[record.id := Normal(record)]
      ensures id in old(rows) ==> StoredAs(record, rows[id])
      ensures ok == (id in old(rows) || record.id !in old(rows))
    {
      PageOfRow(index.contents, index.others, rows, foreign, index.pool.pins.Keys, id);
      var existing := index.Search(id);
      if existing == None {
        ok := InsertWithoutWAL(record);
        return;
      }
      ImageRoundTrip(record);
      NormalIsKept(record, Normal(record));
      ChangeRow(index.contents, index.others, rows, foreign, index.pool.pins.Keys, id, OfRecord(Image(record)),
                Normal(record));
      WriteRecord(existing.value, record);
      rows := rows[id := Normal(record)];
      ok := true;
    }

    method DeleteWithoutWAL(id: int) returns (ok: bool)
      requires Valid() && IsInt64(id)
      modifies this`rows, index, index.pool, index.pool.disk
      ensures index.pool.OneAtATime()
      ensures Valid() && ok && rows == old(rows) - {id}
    {
      PageOfRow(index.contents, index.others, rows, foreign, index.pool.pins.Keys, id);
      var existing := index.Search(id);
      if existing == None {
        return true;
      }
      DropRow(index.contents, index.others, rows, foreign, index.pool.pins.Keys, id);
      var deleted := index.Delete(id);
      rows := rows - {id};
      ok := FreeRecordPage(existing.value);
    }

    // ----- The log

    /** Replaying the log from nothing gives these rows, and so it does with what a crash leaves of it. */
    ghost predicate LogGives(result: map<int, Record>)
      reads wal
    {
      && wal.Valid() && AllNamed(wal.records) && OnlyCommitsBeyond(wal.records, wal.durable)
      && Replay(map[], wal.records) == result
    }

    /** What a log gives is filed under the rows' own ids. */
    lemma LogGivesKeyed()
      requires LogGives(rows)
      ensures Keyed(rows)
    {
      ReplayIsKeyed(map[], wal.records);
    }

    /** A change is in the log, and the log on disk, before it is made. */
    method LogFirst(kind: Kind, id: int, before: seq<byte>, after: seq<byte>)
      requires IsInt64(id) && IsInt64(wal.nextLsn) && |before| <= RECORD_SIZE && |after| <= RECORD_SIZE
      requires Named(LogRecord(wal.nextLsn, kind, id, before, after))
      modifies wal
      ensures wal.nextLsn == old(wal.nextLsn) + 1
      ensures wal.records == old(wal.records) + [LogRecord(old(wal.nextLsn), kind, id, before, after)]
      ensures wal.file == old(wal.file) + WalManager.Frame(LogRecord(old(wal.nextLsn), kind, id, before, after))
      ensures wal.durable == |wal.file|
      ensures old(LogGives(rows)) ==> LogGives(Redo(rows, LogRecord(old(wal.nextLsn), kind, id, before, after)))
    {
      var lsn := wal.Append(kind, id, before, after);
      wal.Flush();
      if old(LogGives(rows)) {
        ReplayMore(map[], old(wal.records), LogRecord(lsn, kind, id, before, after));
        NothingBeyond(wal.records);
      }
    }

    /** The commit record is not forced to disk. */
    method LogCommitted()
      requires IsInt64(wal.nextLsn)
      modifies wal
      ensures wal.nextLsn == old(wal.nextLsn) + 1
      ensures wal.records == old(wal.records) + [LogRecord(old(wal.nextLsn), Commit, -1, [], [])]
      ensures wal.file == old(wal.file) + WalManager.Frame(LogRecord(old(wal.nextLsn), Commit, -1, [], []))
      ensures wal.durable == old(wal.durable)
      ensures old(LogGives(rows)) ==> LogGives(rows)
    {
      var lsn := wal.Append(Commit, -1, [], []);
      if old(LogGives(rows)) {
        ReplayMore(map[], old(wal.records), LogRecord(lsn, Commit, -1, [], []));
        CommitBeyond(old(wal.records), wal.durable, LogRecord(lsn, Commit, -1, [], []));
      }
    }

    // ----- Operations

    method Insert(record: Record) returns (inserted: bool)
      requires Valid() && IsRecord(record) && IsInt64(wal.nextLsn) && IsInt64(wal.nextLsn + 1)
      modifies this`rows, index, index.pool, index.pool.disk, wal
      ensures index.pool.OneAtATime()
      ensures Valid() && (inserted <==> record.id !in old(rows))
      ensures rows == if inserted then old(rows)[record.id := Normal(record)] else old(rows)
      ensures old(Keyed(rows)) ==> Keyed(rows)
      ensures old(LogGives(rows)) ==> LogGives(rows)
      ensures inserted ==>
                && wal.records == old(wal.records) +
                     [LogRecord(old(wal.nextLsn), LogRecords.Insert, record.id, [], Image(record)),
                      LogRecord(old(wal.nextLsn) + 1, Commit, -1, [], [])]
                && StoredAs(record, rows[record.id])
      ensures inserted ==>
                var change :=
                  WalManager.Frame(LogRecord(old(wal.nextLsn), LogRecords.Insert, record.id, [], Image(record)));
                var commit := WalManager.Frame(LogRecord(old(wal.nextLsn) + 1, Commit, -1, [], []));
                && wal.file == old(wal.file) + change + commit
                && wal.durable == |old(wal.file)| + |change|
      ensures !inserted ==> wal.records == old(wal.records)
      ensures wal.nextLsn == old(wal.nextLsn) + if inserted then 2 else 0
    {
      var existing := PageOf(record.id);
      if existing.Some? {
        return false;
      }
      inserted := InsertAbsent(record);
    }

    method InsertAbsent(record: Record) returns (inserted: bool)
      requires Valid() && IsRecord(record) && IsInt64(wal.nextLsn) && IsInt64(wal.nextLsn + 1)
      requires record.id !in rows
      modifies this`rows, index, index.pool, index.pool.disk, wal
      ensures index.pool.OneAtATime()
      ensures Valid() && inserted && rows == old(rows)[record.id := Normal(record)]
      ensures StoredAs(record, rows[record.id])
      ensures old(LogGives(rows)) ==> LogGives(rows)
      ensures wal.records == old(wal.records) +
                [LogRecord(old(wal.nextLsn), LogRecords.Insert, record.id, [], Image(record)),
                 LogRecord(old(wal.nextLsn) + 1, Commit, -1, [], [])]
      ensures
        var change :=
          WalManager.Frame(LogRecord(old(wal.nextLsn), LogRecords.Insert, record.id, [], Image(record)));
        var commit := WalManager.Frame(LogRecord(old(wal.nextLsn) + 1, Commit, -1, [], []));
        wal.file == old(wal.file) + change + commit && wal.durable == |old(wal.file)| + |change|
      ensures wal.nextLsn == old(wal.nextLsn) + 2
    {
      var image := RecordImage(record);
      ImageRoundTrip(record);
      LogFirst(LogRecords.Insert, record.id, [], image);
      inserted := InsertWithoutWAL(record);
      if inserted {
        LogCommitted();
      }
    }

    method Select(id: int) returns (record: Option<Record>)
      requires Valid() && IsInt64(id)
      modifies index.pool, index.pool.disk
      ensures index.pool.OneAtATime()
      ensures Valid() && record == At(rows, id)
      ensures record.Some? ==> IsRecord(record.value)
    {
      PageOfRow(index.contents, index.others, rows, foreign, index.pool.pins.Keys, id);
      var page := index.Search(id);
      if page == None {
        return None;
      }
      record := ReadRecord(page.value, rows[id]);
    }

    method Update(id: int, mutator: Record -> Record) returns (updated: bool)
      requires Valid() && IsInt64(id) && IsInt64(wal.nextLsn) && IsInt64(wal.nextLsn + 1)
      requires forall r {:trigger mutator(r)} :: IsRecord(r) ==> IsRecord(mutator(r))
      modifies this`rows, index, index.pool, index.pool.disk, wal
      ensures index.pool.OneAtATime()
      ensures Valid() && (updated <==> id in old(rows))
      ensures rows == if updated then old(rows)[id := Normal(mutator(old(rows)[id]).(id := id))] else old(rows)
      ensures old(Keyed(rows)) ==> Keyed(rows)
      ensures old(LogGives(rows)) ==> LogGives(rows)
      ensures updated ==> IsRecord(old(rows)[id]) && IsRecord(mutator(old(rows)[id]).(id := id))
      ensures updated ==>
                var record := mutator(old(rows)[id]).(id := id);
                && wal.records == old(wal.records) +
                     [LogRecord(old(wal.nextLsn), LogRecords.Update, id, Image(old(rows)[id]), Image(record)),
                      LogRecord(old(wal.nextLsn) + 1, Commit, -1, [], [])]
                && StoredAs(record, rows[id])
      ensures !updated ==> wal.records == old(wal.records)
      ensures wal.nextLsn == old(wal.nextLsn) + if updated then 2 else 0
    {
      var found := Select(id);
      if found == None {
        return false;
      }
      updated := UpdateFound(id, found.value, mutator(found.value).(id := id));
    }

    method UpdateFound(id: int, was: Record, record: Record) returns (updated: bool)
      requires Valid() && IsInt64(id) && IsInt64(wal.nextLsn) && IsInt64(wal.nextLsn + 1)
      requires id in rows && rows[id] == was && IsRecord(was) && IsRecord(record) && record.id == id
      modifies this`rows, index, index.pool, index.pool.disk, wal
      ensures index.pool.OneAtATime()
      ensures Valid() && updated && rows == old(rows)[id := Normal(record)]
      ensures old(Keyed(rows)) ==> Keyed(rows)
      ensures old(LogGives(rows)) ==> LogGives(rows)
      ensures wal.records == old(wal.records) +
                [LogRecord(old(wal.nextLsn), LogRecords.Update, id, Image(was), Image(record)),
                 LogRecord(old(wal.nextLsn) + 1, Commit, -1, [], [])]
      ensures StoredAs(record, rows[id])
      ensures wal.nextLsn == old(wal.nextLsn) + 2
    {
      var before := RecordImage(was);
      var after := RecordImage(record);
      ImageRoundTrip(record);
      LogFirst(LogRecords.Update, id, before, after);
      updated := UpdateWithoutWAL(id, record);
      if updated {
        LogCommitted();
      }
    }

    method Delete(id: int) returns (deleted: bool)
      requires Valid() && IsInt64(id) && IsInt64(wal.nextLsn) && IsInt64(wal.nextLsn + 1)
      modifies this`rows, index, index.pool, index.pool.disk, wal
      ensures index.pool.OneAtATime()
      ensures Valid() && (deleted <==> id in old(rows)) && rows == old(rows) - {id}
      ensures old(Keyed(rows)) ==> Keyed(rows)
      ensures old(LogGives(rows)) ==> LogGives(rows)
      ensures deleted ==> IsRecord(old(rows)[id])
      ensures deleted ==>
                wal.records == old(wal.records) +
                  [LogRecord(old(wal.nextLsn), LogRecords.Delete, id, Image(old(rows)[id]), []),
                   LogRecord(old(wal.nextLsn) + 1, Commit, -1, [], [])]
      ensures !deleted ==> wal.records == old(wal.records)
      ensures wal.nextLsn == old(wal.nextLsn) + if deleted then 2 else 0
    {
      var found := Select(id);
      if found == None {
        return false;
      }
      deleted := DeleteFound(id, found.value);
    }

    method DeleteFound(id: int, was: Record) returns (deleted: bool)
      requires Valid() && IsInt64(id) && IsInt64(wal.nextLsn) && IsInt64(wal.nextLsn + 1)
      requires id in rows && rows[id] == was && IsRecord(was)
      modifies this`rows, index, index.pool, index.pool.disk, wal
      ensures index.pool.OneAtATime()
      ensures Valid() && deleted && rows == old(rows) - {id}
      ensures old(LogGives(rows)) ==> LogGives(rows)
      ensures wal.records == old(wal.records) +
                [LogRecord(old(wal.nextLsn), LogRecords.Delete, id, Image(was), []),
                 LogRecord(old(wal.nextLsn) + 1, Commit, -1, [], [])]
      ensures wal.nextLsn == old(wal.nextLsn) + 2
    {
      var before := RecordImage(was);
      LogFirst(LogRecords.Delete, id, before, []);
      deleted := DeleteWithoutWAL(id);
      if deleted {
        LogCommitted();
      }
    }

    /** The matching rows in ascending order of id. */
    method SelectWhere(wanted: Record -> bool) returns (records: seq<Record>)
      requires Valid()
      modifies index.pool, index.pool.disk
      ensures index.pool.OneAtATime()
      ensures Valid() && records == Matching(rows, wanted, MIN_KEY, SUP_KEY)
      ensures Keyed(rows) ==> Selects(records, rows, wanted)
    {
      var entries := index.RangeScan(MIN_KEY, SUP_KEY - 1, []);
      assert entries == Listing(index.contents, MIN_KEY, SUP_KEY);
      EntriesMatch(index.contents, index.others, rows, foreign, index.pool.pins.Keys, wanted);
      if Keyed(rows) {
        SelectsAll(index.contents, index.others, rows, foreign, index.pool.pins.Keys, wanted);
      }
      records := ReadWanted(entries, wanted);
    }

    method ReadWanted(entries: seq<(int, int)>, wanted: Record -> bool) returns (records: seq<Record>)
      requires index.Valid() && Readable(entries, index.others, rows, index.pool.pins.Keys)
      modifies index.pool, index.pool.disk
      ensures index.Valid() && index.pool.OneAtATime() && records == Picked(entries, rows, wanted)
    {
      records := [];
      var i := 0;
      while i < |entries|
        invariant 0 <= i <= |entries| && index.Valid() && index.pool.OneAtATime()
        invariant records + Picked(entries[i..], rows, wanted) == Picked(entries, rows, wanted)
      {
        PickedStep(entries, rows, wanted, i, records);
        var record := ReadRecord(entries[i].1, rows[entries[i].0]);
        if record.Some? && wanted(record.value) {
          records := records + [record.value];
        }
        i := i + 1;
      }
    }

    // ----- Recovery

    /** Replays the log onto the table; stops at an image no record can be read from. */
    method Recover() returns (ok: bool, ghost log: seq<LogRecord>)
      requires Valid()
      modifies this`rows, index, index.pool, index.pool.disk
      ensures index.pool.OneAtATime()
      ensures Valid() && ReadsAs(wal.file, log)
      ensures ok <==> AllReplayable(log)
      ensures ok ==> rows == Replay(old(rows), log)
    {
      var records := wal.ReadAllRecords();
      log := records;
      ok := RecoverAll(records);
    }

    method RecoverAll(records: seq<LogRecord>) returns (ok: bool)
      requires Valid() && AllFit(records)
      modifies this`rows, index, index.pool, index.pool.disk
      ensures index.pool.OneAtATime()
      ensures Valid() && (ok <==> AllReplayable(records))
      ensures ok ==> rows == Replay(old(rows), records)
    {
      var i := 0;
      while i < |records|
        invariant 0 <= i <= |records| && Valid() && index.pool.OneAtATime()
        invariant AllReplayable(records[..i]) && rows == Replay(old(rows), records[..i])
      {
        if (records[i].kind.Insert? || records[i].kind.Update?) && |records[i].after| != RECORD_SIZE {
          assert !Replayable(records[i]);
          return false;
        }
        RecoverOne(records[i]);
        ReplayNext(old(rows), records, i);
        i := i + 1;
      }
      assert records[..i] == records;
      ok := true;
    }

    method RecoverOne(record: LogRecord)
      requires Valid() && Replayable(record) && IsInt64(record.recordId)
      modifies this`rows, index, index.pool, index.pool.disk
      ensures index.pool.OneAtATime()
      ensures Valid() && rows == Redo(old(rows), record)
    {
      match record.kind
      case Insert =>
        var r := RecordFromImage(record.after);
        var ok := InsertWithoutWAL(r);
      case Update =>
        var r := RecordFromImage(record.after);
        var ok := UpdateWithoutWAL(record.recordId, r);
      case Delete =>
        var ok := DeleteWithoutWAL(record.recordId);
      case Commit =>
    }
  }

  method RecordFromImage(image: seq<byte>) returns (r: Record)
    requires |image| == RECORD_SIZE
    ensures r == OfImage(image) && IsRecord(r) && Normal(r) == r
  {
    r := DeserializeRecord(image);
    assert image[..RECORD_SIZE] == image;
    NormalIsStable(image);
    ImageRoundTrip(r);
  }

  /** The table a process has after it starts again on what is left of the log. */
  method Restart(pool: Pool, file: seq<byte>) returns (table: Table, ok: bool, ghost log: seq<LogRecord>)
    requires pool.Valid() && |pool.pins| < |pool.frames|
    modifies pool, pool.disk
    ensures pool.OneAtATime()
    ensures fresh(table) && fresh(table.index) && fresh(table.wal)
    ensures table.wal.file == file && table.wal.nextLsn == NextLsn(log)
    ensures table.Valid() && table.index.pool == pool && ReadsAs(file, log) && (ok <==> AllReplayable(log))
    ensures ok ==> table.rows == Replay(map[], log)
    ensures AllNamed(log) && file == Frames(log) ==> table.LogGives(table.rows)
  {
    var index := new Index(pool);
    var wal := new Wal(file);
    table := new Table(index, wal);
    ok, log := table.Recover();
    ReadsOnce(file, log, wal.records);
    if AllNamed(log) && file == Frames(log) {
      NothingBeyond(log);
    }
  }

  lemma FirstInsertHidden(record: Record)
    requires IsRecord(record)
    ensures
      var change := WalManager.Frame(LogRecord(0, LogRecords.Insert, record.id, [], Image(record)));
      |change| > RECORD_SIZE && ReadsAs([1] + change + WalManager.Frame(LogRecord(1, Commit, -1, [], [])), [])
  {
    var change := LogRecord(0, LogRecords.Insert, record.id, [], Image(record));
    PairHidden(change, LogRecord(1, Commit, -1, [], []));
    FrameIs(change);
  }

  /** Why a torn tail matters: a table that starts again on a log of one torn byte forces the next row to
      disk, and the log still reads as empty. */
  method LosesRow(pool: Pool, record: Record) returns (table: Table)
    requires pool.Valid() && |pool.pins| < |pool.frames| && IsRecord(record)
    modifies pool, pool.disk
    ensures table.Valid() && table.rows == map[record.id := Normal(record)]
    ensures table.wal.durable > RECORD_SIZE && ReadsAs(table.wal.file, [])
  {
    FirstInsertHidden(record);
    OneTornByte();
    ghost var log;
    var ok;
    table, ok, log := Restart(pool, [1]);
    assert log == [];
    var inserted := table.Insert(record);
  }

  lemma {:induction false} OneToOne(m: map<int, int>, keys: set<int>)
    requires keys <= m.Keys
    requires forall k, l :: k in keys && l in keys && m[k] == m[l] ==> k == l
    ensures |set k | k in keys :: m[k]| == |keys|
    decreases |keys|
  {
    var pages := set k | k in keys :: m[k];
    NotEmpty(keys);
    if keys == {} {
      assert pages == {};
    } else {
      var k :| k in keys;
      OneToOne(m, keys - {k});
      assert pages == (set l | l in keys - {k} :: m[l]) + {m[k]};
    }
  }

  lemma ReplayNext(rows: map<int, Record>, log: seq<LogRecord>, i: nat)
    requires i < |log| && AllReplayable(log[..i]) && Replayable(log[i])
    ensures AllReplayable(log[..i + 1]) && Replay(rows, log[..i + 1]) == Redo(Replay(rows, log[..i]), log[i])
  {
    ReplayMore(rows, log[..i], log[i]);
    assert log[..i + 1] == log[..i] + [log[i]];
  }

  lemma NothingBeyond(log: seq<LogRecord>)
    requires AllFit(log)
    ensures OnlyCommitsBeyond(log, |Frames(log)|)
  {
    forall i {:trigger log[i]} | 0 <= i < |log| ensures |Frames(log[..i + 1])| <= |Frames(log)| {
      FramesPrefix(log, i + 1);
    }
  }

  lemma CommitBeyond(log: seq<LogRecord>, durable: nat, c: LogRecord)
    requires AllFit(log) && OnlyCommitsBeyond(log, durable) && c.kind.Commit? && Fits(c)
    ensures OnlyCommitsBeyond(log + [c], durable)
  {
    var log' := log + [c];
    forall i {:trigger log'[i]} | 0 <= i < |log'| && |Frames(log'[..i + 1])| > durable ensures log'[i].kind.Commit? {
      if i < |log| {
        assert log'[..i + 1] == log[..i + 1] && log'[i] == log[i];
      }
    }
  }

  method RecordImage(r: Record) returns (image: seq<byte>)
    requires IsRecord(r)
    ensures image == Image(r)
  {
    var buffer := new byte[RECORD_SIZE];
    SerializeRecord(r, buffer);
    image := buffer[..];
  }
}
