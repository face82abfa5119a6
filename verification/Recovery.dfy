/** What replaying a log does to the rows of a table, and that it may be done at any point of the
    table's history. */
module Recovery {
  import opened Options
  import opened Records
  import opened LogRecords
  import opened WalManager

  /** The image is one a record can be read from; any other makes recovery stop. */
  predicate Replayable(r: LogRecord) {
    r.kind.Insert? || r.kind.Update? ==> |r.after| == RECORD_SIZE
  }

  ghost predicate AllReplayable(log: seq<LogRecord>) {
    forall i :: 0 <= i < |log| ==> Replayable(log[i])
  }

  /** An update's image carries the id the update is for. */
  ghost predicate Named(r: LogRecord) {
    Replayable(r) && (r.kind.Update? ==> OfImage(r.after).id == r.recordId)
  }

  ghost predicate AllNamed(log: seq<LogRecord>) {
    forall i :: 0 <= i < |log| ==> Named(log[i])
  }

  function PutIfAbsent(rows: map<int, Record>, r: Record): map<int, Record> {
    if r.id in rows then rows else rows[r.id := r]
  }

  /** An insertion skips a key that is there, an update adds one that is not, a deletion of a key
      that is not there does nothing, and neither does a commit. */
  function Redo(rows: map<int, Record>, r: LogRecord): map<int, Record>
    requires Replayable(r)
  {
    match r.kind
    case Insert => PutIfAbsent(rows, OfImage(r.after))
    case Update =>
      if r.recordId in rows then rows[r.recordId := OfImage(r.after)] else PutIfAbsent(rows, OfImage(r.after))
    case Delete => rows - {r.recordId}
    case Commit => rows
  }

  function Replay(rows: map<int, Record>, log: seq<LogRecord>): map<int, Record>
    requires forall i :: 0 <= i < |log| ==> Replayable(log[i])
  {
    if log == [] then rows else Redo(Replay(rows, log[..|log| - 1]), log[|log| - 1])
  }

  lemma ReplayMore(rows: map<int, Record>, log: seq<LogRecord>, r: LogRecord)
    requires AllReplayable(log) && Replayable(r)
    ensures AllReplayable(log + [r]) && Replay(rows, log + [r]) == Redo(Replay(rows, log), r)
  {
    assert (log + [r])[..|log|] == log;
  }

  ghost predicate Keyed(rows: map<int, Record>) {
    forall k :: k in rows ==> rows[k].id == k
  }

  /** Every row a log brings forth is filed under its own id. */
  lemma {:induction false} ReplayIsKeyed(rows: map<int, Record>, log: seq<LogRecord>)
    requires AllNamed(log) && Keyed(rows)
    ensures AllReplayable(log) && Keyed(Replay(rows, log))
  {
    if log != [] {
      ReplayIsKeyed(rows, log[..|log| - 1]);
    }
  }

  // ----- One key at a time

  function At(rows: map<int, Record>, k: int): Option<Record> {
    if k in rows then Some(rows[k]) else None
  }

  ghost function Fate(v: Option<Record>, r: LogRecord, k: int): Option<Record>
    requires Named(r)
  {
    match r.kind
    case Insert => if v == None && OfImage(r.after).id == k then Some(OfImage(r.after)) else v
    case Update => if r.recordId == k then Some(OfImage(r.after)) else v
    case Delete => if r.recordId == k then None else v
    case Commit => v
  }

  ghost function FateOf(v: Option<Record>, log: seq<LogRecord>, k: int): Option<Record>
    requires AllNamed(log)
  {
    if log == [] then v else Fate(FateOf(v, log[..|log| - 1], k), log[|log| - 1], k)
  }

  lemma {:induction false} ReplayAt(rows: map<int, Record>, log: seq<LogRecord>, k: int)
    requires AllNamed(log)
    ensures AllReplayable(log) && At(Replay(rows, log), k) == FateOf(At(rows, k), log, k)
  {
    if log != [] {
      ReplayAt(rows, log[..|log| - 1], k);
    }
  }

  /** Only insertions of the key, if anything. */
  ghost predicate Untouched(log: seq<LogRecord>, k: int) {
    forall i :: 0 <= i < |log| ==> log[i].kind.Insert? || log[i].kind.Commit? || log[i].recordId != k
  }

  lemma {:induction false} Sticks(v: Option<Record>, log: seq<LogRecord>, j: nat, k: int)
    requires AllNamed(log) && j <= |log| && Untouched(log, k) && FateOf(v, log[..j], k).Some?
    ensures FateOf(v, log, k) == FateOf(v, log[..j], k)
    decreases |log|
  {
    if j == |log| {
      assert log[..j] == log;
    } else {
      assert log[..|log| - 1][..j] == log[..j];
      Sticks(v, log[..|log| - 1], j, k);
    }
  }

  /** Replaying the log onto the state after its first `j` records: at each point the key is where it was
      at that point of history, or it still has its later value and only insertions have gone by. */
  lemma {:induction false} CatchesUp(log: seq<LogRecord>, j: nat, i: nat, k: int)
    requires AllNamed(log) && j <= |log| && i <= |log|
    ensures
      var later := FateOf(None, log[..j], k);
      || FateOf(later, log[..i], k) == FateOf(None, log[..i], k)
      || (later.Some? && FateOf(later, log[..i], k) == later && Untouched(log[..i], k))
    decreases i
  {
    if i > 0 {
      CatchesUp(log, j, i - 1, k);
      assert log[..i][..i - 1] == log[..i - 1];
    }
  }

  /** Recovery may start from the table as it stood after any prefix of its history: replaying the
      whole log gives the final table. */
  lemma ReplayFromAnyPoint(log: seq<LogRecord>, j: nat)
    requires AllNamed(log) && j <= |log|
    ensures AllReplayable(log) && AllReplayable(log[..j])
    ensures Replay(Replay(map[], log[..j]), log) == Replay(map[], log)
  {
    var mid := Replay(map[], log[..j]);
    forall k ensures At(Replay(mid, log), k) == At(Replay(map[], log), k) {
      ReplayAt(map[], log[..j], k);
      ReplayAt(mid, log, k);
      ReplayAt(map[], log, k);
      CatchesUp(log, j, |log|, k);
      assert log[..|log|] == log;
      if FateOf(At(mid, k), log, k) != FateOf(None, log, k) {
        Sticks(None, log, j, k);
      }
    }
    SameRows(Replay(mid, log), Replay(map[], log));
  }

  lemma SameRows(a: map<int, Record>, b: map<int, Record>)
    requires forall k :: At(a, k) == At(b, k)
    ensures a == b
  {
    forall k ensures k in a <==> k in b {
      assert At(a, k) == At(b, k);
    }
    forall k | k in a ensures a[k] == b[k] {
      assert At(a, k) == At(b, k);
    }
  }

  /** Recovering twice is recovering once. */
  lemma ReplayTwice(log: seq<LogRecord>)
    requires AllNamed(log)
    ensures AllReplayable(log) && Replay(Replay(map[], log), log) == Replay(map[], log)
  {
    ReplayFromAnyPoint(log, |log|);
    assert log[..|log|] == log;
  }

  // ----- Crashes

  /** Only commit records end beyond the first `n` bytes. */
  ghost predicate OnlyCommitsBeyond(log: seq<LogRecord>, n: nat)
    requires AllFit(log)
  {
    forall i {:trigger log[i]} :: 0 <= i < |log| && |Frames(log[..i + 1])| > n ==> log[i].kind.Commit?
  }

  lemma {:induction false} CommitsChangeNothing(rows: map<int, Record>, log: seq<LogRecord>, m: nat)
    requires AllReplayable(log) && m <= |log| && forall i :: m <= i < |log| ==> log[i].kind.Commit?
    ensures Replay(rows, log[..m]) == Replay(rows, log)
    decreases |log|
  {
    if m == |log| {
      assert log[..m] == log;
    } else {
      CommitsChangeNothing(rows, log[..|log| - 1], m);
      assert log[..|log| - 1][..m] == log[..m];
    }
  }

  lemma OnlyCommitsLost(log: seq<LogRecord>, durable: nat, n: nat, m: nat)
    requires AllFit(log) && OnlyCommitsBeyond(log, durable) && durable <= n && m <= |log|
    requires m < |log| ==> n < |Frames(log[..m + 1])|
    ensures forall i :: m <= i < |log| ==> log[i].kind.Commit?
  {
    forall i | m <= i < |log| ensures log[i].kind.Commit? {
      FramesPrefix(log[..i + 1], m + 1);
      assert log[..i + 1][..m + 1] == log[..m + 1];
    }
  }

  /** Whatever a crash leaves of the file beyond what was forced to disk, recovery gives the same rows. */
  lemma CrashLosesNothing(log: seq<LogRecord>, durable: nat, n: nat, back: seq<LogRecord>)
    requires AllFit(log) && AllReplayable(log) && OnlyCommitsBeyond(log, durable)
    requires durable <= n <= |Frames(log)| && ReadsAs(Frames(log)[..n], back)
    ensures AllReplayable(back) && Replay(map[], back) == Replay(map[], log)
  {
    var m := LastWhole(log, n);
    TornTail(log, n, m);
    OnlyCommitsLost(log, durable, n, m);
    CommitsChangeNothing(map[], log, m);
  }
}
