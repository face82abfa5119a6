/** The write-ahead log: size-prefixed records appended to a file, read back up to the first torn one. */
module WalManager {
  import opened Options
  import opened Bytes
  import opened LogRecords

  /** The record's own size, too, fits the 32 bits before it. */
  ghost predicate Fits(r: LogRecord) {
    Numbers(r) && HEADER_SIZE + |r.before| + |r.after| < TWO32
  }

  ghost predicate AllFit(rs: seq<LogRecord>) {
    forall i :: 0 <= i < |rs| ==> Fits(rs[i])
  }

  function Frame(r: LogRecord): (bytes: seq<byte>)
    requires Numbers(r)
    ensures |bytes| >= 4
  {
    Le(|LogBytes(r)| % TWO32, 4) + LogBytes(r)
  }

  ghost function Frames(rs: seq<LogRecord>): seq<byte>
    requires AllFit(rs)
  {
    if rs == [] then [] else Frames(rs[..|rs| - 1]) + Frame(rs[|rs| - 1])
  }

  lemma FramesMore(rs: seq<LogRecord>, r: LogRecord)
    requires AllFit(rs) && Fits(r)
    ensures Frames(rs + [r]) == Frames(rs) + Frame(r)
  {
    assert (rs + [r])[..|rs|] == rs;
  }

  lemma FrameIs(r: LogRecord)
    requires Fits(r)
    ensures Sized(r) && HEADER_SIZE <= |LogBytes(r)| < TWO32
    ensures Frame(r) == Le(|LogBytes(r)|, 4) + LogBytes(r)
  {
    assert |r.before| % TWO32 == |r.before| && |r.after| % TWO32 == |r.after|;
    assert |LogBytes(r)| % TWO32 == |LogBytes(r)|;
  }

  lemma PrefixParts(a: seq<byte>, b: seq<byte>, bytes: seq<byte>)
    requires |a| == 4
    ensures a + b <= bytes <==> 4 + |b| <= |bytes| && bytes[..4] == a && bytes[4..4 + |b|] == b
  {
    if 4 + |b| <= |bytes| {
      var start := bytes[..4 + |b|];
      assert start == bytes[..4] + bytes[4..4 + |b|];
      assert (a + b)[..4] == a && (a + b)[4..] == b;
      assert a + b <= bytes ==> start == a + b;
    }
  }

  /** A frame begins these bytes exactly when the size and then the record are there. */
  lemma FrameBegins(bytes: seq<byte>, r: LogRecord)
    requires Fits(r)
    ensures |Frame(r)| == 4 + |LogBytes(r)| && HEADER_SIZE <= |LogBytes(r)| && Sized(r)
    ensures Frame(r) <= bytes <==>
              && 4 + |LogBytes(r)| <= |bytes| && OfLe(bytes[..4]) == |LogBytes(r)|
              && bytes[4..4 + |LogBytes(r)|] == LogBytes(r)
  {
    FrameIs(r);
    Sizes();
    LeRoundTrip(|LogBytes(r)|, 4);
    PrefixParts(Le(|LogBytes(r)|, 4), LogBytes(r), bytes);
    if 4 <= |bytes| {
      OfLeRoundTrip(bytes[..4]);
    }
  }

  /** At most one frame begins a sequence of bytes. */
  lemma FrameOnce(bytes: seq<byte>, r: LogRecord, r': LogRecord)
    requires Fits(r) && Fits(r') && Frame(r) <= bytes && Frame(r') <= bytes
    ensures r == r'
  {
    FrameBegins(bytes, r);
    FrameBegins(bytes, r');
    LogBytesParts(r);
    LogBytesParts(r');
  }

  ghost predicate NoFrame(bytes: seq<byte>) {
    forall r {:trigger Frame(r)} :: Fits(r) ==> !(Frame(r) <= bytes)
  }

  /** The file begins with the frames of exactly these records, and none follows. */
  ghost predicate ReadsAs(file: seq<byte>, rs: seq<LogRecord>) {
    AllFit(rs) && Frames(rs) <= file && NoFrame(file[|Frames(rs)|..])
  }

  lemma {:induction false} FramesPrefix(rs: seq<LogRecord>, i: nat)
    requires AllFit(rs) && i <= |rs|
    ensures Frames(rs[..i]) <= Frames(rs)
    decreases |rs|
  {
    if i < |rs| {
      FramesPrefix(rs[..|rs| - 1], i);
      assert rs[..|rs| - 1][..i] == rs[..i];
    } else {
      assert rs[..i] == rs;
    }
  }

  lemma FramesLast(rs: seq<LogRecord>, front: seq<LogRecord>, r: LogRecord)
    requires AllFit(front) && Fits(r) && rs == front + [r]
    ensures AllFit(rs) && Frames(rs) == Frames(front) + Frame(r)
  {
    FramesMore(front, r);
  }

  lemma NextBehind(file: seq<byte>, upTo: seq<LogRecord>, front: seq<LogRecord>, r: LogRecord)
    requires AllFit(front) && Fits(r) && upTo == front + [r] && Frames(upTo) <= file
    ensures Frames(front) <= file && Frame(r) <= file[|Frames(front)|..]
    ensures |Frames(upTo)| == |Frames(front)| + |Frame(r)|
  {
    FramesLast(upTo, front, r);
    StepOver(file, Frames(front), Frame(r));
  }

  /** Behind the first `i` records of a file comes the frame of the next. */
  lemma NextFrame(file: seq<byte>, rs: seq<LogRecord>, i: nat)
    requires AllFit(rs) && Frames(rs) <= file && i < |rs|
    ensures Frames(rs[..i]) <= file && Frame(rs[i]) <= file[|Frames(rs[..i])|..]
    ensures |Frames(rs[..i + 1])| == |Frames(rs[..i])| + |Frame(rs[i])|
  {
    FramesPrefix(rs, i + 1);
    assert rs[..i + 1] == rs[..i] + [rs[i]];
    NextBehind(file, rs[..i + 1], rs[..i], rs[i]);
  }

  lemma SameNext(file: seq<byte>, rs: seq<LogRecord>, all: seq<LogRecord>, i: nat)
    requires AllFit(rs) && AllFit(all) && Frames(rs) <= file && Frames(all) <= file && i < |rs| && i < |all|
    requires rs[..i] == all[..i]
    ensures rs[i] == all[i]
  {
    NextFrame(file, rs, i);
    NextFrame(file, all, i);
    FrameOnce(file[|Frames(rs[..i])|..], rs[i], all[i]);
  }

  lemma OneMore(rs: seq<LogRecord>, all: seq<LogRecord>, i: nat)
    requires 0 < i <= |rs| && i <= |all| && rs[..i - 1] == all[..i - 1] && rs[i - 1] == all[i - 1]
    ensures rs[..i] == all[..i]
  {
    assert rs[..i] == rs[..i - 1] + [rs[i - 1]] && all[..i] == all[..i - 1] + [all[i - 1]];
  }

  /** What a file reads as agrees with every list of records that begins it. */
  lemma {:induction false} ReadsAgree(file: seq<byte>, rs: seq<LogRecord>, all: seq<LogRecord>, i: nat)
    requires AllFit(rs) && AllFit(all) && Frames(rs) <= file && Frames(all) <= file && i <= |rs| && i <= |all|
    ensures rs[..i] == all[..i]
    decreases i
  {
    if i > 0 {
      ReadsAgree(file, rs, all, i - 1);
      SameNext(file, rs, all, i - 1);
      OneMore(rs, all, i);
    }
  }

  /** A file reads as one list of records only. */
  lemma ReadsOnce(file: seq<byte>, rs: seq<LogRecord>, rs': seq<LogRecord>)
    requires ReadsAs(file, rs) && ReadsAs(file, rs')
    ensures rs == rs'
  {
    LongestRead(file, rs, rs');
    LongestRead(file, rs', rs);
    ReadsAgree(file, rs, rs', |rs|);
    assert rs[..|rs|] == rs && rs'[..|rs|] == rs';
  }

  lemma LongestRead(file: seq<byte>, rs: seq<LogRecord>, rs': seq<LogRecord>)
    requires ReadsAs(file, rs) && ReadsAs(file, rs')
    ensures |rs'| <= |rs|
  {
    if |rs| < |rs'| {
      ReadsAgree(file, rs, rs', |rs|);
      NextFrame(file, rs', |rs|);
      assert rs'[..|rs|] == rs[..|rs|] == rs;
      assert Frame(rs'[|rs|]) <= file[|Frames(rs)|..];
    }
  }

  /** The torn tail: a file cut after `n` bytes reads as exactly the records whose frames lie wholly
      within those bytes, in order. */
  lemma TornTail(rs: seq<LogRecord>, n: nat, m: nat)
    requires AllFit(rs) && n <= |Frames(rs)| && m <= |rs|
    requires |Frames(rs[..m])| <= n && (m < |rs| ==> n < |Frames(rs[..m + 1])|)
    ensures ReadsAs(Frames(rs)[..n], rs[..m])
    ensures forall back :: ReadsAs(Frames(rs)[..n], back) ==> back == rs[..m]
  {
    var file := Frames(rs)[..n];
    FramesPrefix(rs, m);
    var rest := file[|Frames(rs[..m])|..];
    forall r {:trigger Frame(r)} | Fits(r) ensures !(Frame(r) <= rest) {
      if m == |rs| {
        assert rs[..m] == rs && rest == [];
      } else if Frame(r) <= rest {
        NextFrame(Frames(rs), rs, m);
        var tail := Frames(rs)[|Frames(rs[..m])|..];
        assert rest <= tail && Frame(r) <= tail;
        FrameOnce(tail, r, rs[m]);
      }
    }
    forall back | ReadsAs(file, back) ensures back == rs[..m] {
      ReadsOnce(file, back, rs[..m]);
    }
  }

  /** There is always such a last whole record. */
  lemma {:induction false} LastWhole(rs: seq<LogRecord>, n: nat) returns (m: nat)
    requires AllFit(rs)
    ensures m <= |rs| && |Frames(rs[..m])| <= n && (m < |rs| ==> n < |Frames(rs[..m + 1])|)
  {
    m := 0;
    while m < |rs| && |Frames(rs[..m + 1])| <= n
      invariant m <= |rs| && |Frames(rs[..m])| <= n
    {
      m := m + 1;
    }
  }

  /** Sequence numbers count the records from 0 on. */
  ghost predicate Numbered(rs: seq<LogRecord>) {
    forall i :: 0 <= i < |rs| ==> rs[i].lsn == i
  }

  function NextLsn(rs: seq<LogRecord>): int {
    if rs == [] then 0 else rs[|rs| - 1].lsn + 1
  }

  class Wal {
    var file: seq<byte>
    var nextLsn: int
    var durable: nat                      // bytes that have been forced to disk
    ghost var records: seq<LogRecord>

    /** The file is the log of `records`, with no torn tail. */
    ghost predicate Valid()
      reads this
    {
      AllFit(records) && file == Frames(records) && nextLsn == NextLsn(records) && durable <= |file|
    }

    /** Opens an existing file, which may end in a torn record. */
    constructor (file: seq<byte>)
      ensures this.file == file && durable == |file| && ReadsAs(file, records) && nextLsn == NextLsn(records)
      ensures nextLsn == if records == [] then 0 else records[|records| - 1].lsn + 1
      ensures file == Frames(records) ==> Valid()
    {
      var rs := ReadAll(file);
      this.file, nextLsn, durable := file, NextLsn(rs), |file|;
      records := rs;
    }

    /** The record goes to the end of the file with the next sequence number. */
    method Append(kind: Kind, recordId: int, before: seq<byte>, after: seq<byte>) returns (lsn: int)
      requires IsInt64(recordId) && IsInt64(nextLsn)
      modifies this`file, this`nextLsn, this`records
      ensures lsn == old(nextLsn) && nextLsn == lsn + 1
      ensures file == old(file) + Frame(LogRecord(lsn, kind, recordId, before, after))
      ensures records == old(records) + [LogRecord(lsn, kind, recordId, before, after)]
      ensures old(Valid()) && HEADER_SIZE + |before| + |after| < TWO32 ==> Valid()
      ensures old(Valid() && Numbered(records)) ==> Numbered(records)
    {
      var record := LogRecord(nextLsn, kind, recordId, before, after);
      nextLsn := nextLsn + 1;
      Write(record);
      lsn := record.lsn;
      ghost var was := records;
      records := records + [record];
      if old(Valid()) && HEADER_SIZE + |before| + |after| < TWO32 {
        FramesMore(was, record);
      }
    }

    method Write(record: LogRecord)
      requires Numbers(record)
      modifies this`file
      ensures file == old(file) + Frame(record)
    {
      var bytes := SerializeLogRecord(record);
      var size := bytes.Length % TWO32;
      file := file + Le(size, 4);
      file := file + bytes[..];
      assert file == old(file) + (Le(size, 4) + LogBytes(record));
    }

    /** What has been appended survives a crash from here on. */
    method Flush()
      modifies this`durable
      ensures durable == |file|
    {
      durable := |file|;
    }

    method ReadAllRecords() returns (rs: seq<LogRecord>)
      ensures ReadsAs(file, rs)
      ensures Valid() ==> rs == records
    {
      rs := ReadAll(file);
      if Valid() {
        WholeReads(records);
        ReadsOnce(file, rs, records);
      }
    }
  }

  lemma WholeReads(rs: seq<LogRecord>)
    requires AllFit(rs)
    ensures ReadsAs(Frames(rs), rs)
  {
    assert Frames(rs)[|Frames(rs)|..] == [];
    forall r {:trigger Frame(r)} | Fits(r) ensures !(Frame(r) <= []) {
    }
  }

  // ----- Appending to a file that was there

  lemma LastOfBoth<T>(s: seq<T>, more: seq<T>, all: seq<T>)
    requires all == s + more && more != []
    ensures all[..|all| - 1] == s + more[..|more| - 1] && all[|all| - 1] == more[|more| - 1]
    ensures all == all[..|all| - 1] + [more[|more| - 1]] && more == more[..|more| - 1] + [more[|more| - 1]]
  {
  }

  lemma Regroup<T>(a: seq<T>, b: seq<T>, c: seq<T>)
    ensures a + b + c == a + (b + c)
  {
  }

  lemma {:induction false} FramesJoin(rs: seq<LogRecord>, more: seq<LogRecord>, all: seq<LogRecord>)
    requires AllFit(rs) && AllFit(more) && all == rs + more
    ensures AllFit(all) && Frames(all) == Frames(rs) + Frames(more)
    decreases |more|
  {
    if more == [] {
      assert all == rs;
    } else {
      var front, last := more[..|more| - 1], more[|more| - 1];
      var before := all[..|all| - 1];
      LastOfBoth(rs, more, all);
      FramesJoin(rs, front, before);
      FramesLast(more, front, last);
      FramesLast(all, before, last);
      Regroup(Frames(rs), Frames(front), Frame(last));
    }
  }

  /** If an appended record is read back from behind a tail, the tail begins as the record does. */
  lemma TailBeginsAlike(file: seq<byte>, rs: seq<LogRecord>, r: LogRecord)
    requires AllFit(rs) && Fits(r) && Frames(rs) < file && ReadsAs(file + Frame(r), rs + [r])
    ensures file[|Frames(rs)|] == Frame(r)[0]
  {
    FramesMore(rs, r);
    var n := |Frames(rs)|;
    assert (Frames(rs) + Frame(r))[n] == Frame(r)[0] && (file + Frame(r))[n] == file[n];
  }

  /** Records of 25 and of 26 bytes. */
  const SHORT := LogRecord(0, Commit, -1, [], [])
  const LONG := LogRecord(0, Commit, -1, [0], [])

  lemma BeginDifferently()
    ensures Fits(SHORT) && Fits(LONG) && Frame(SHORT)[0] != Frame(LONG)[0]
  {
    FrameIs(SHORT);
    FrameIs(LONG);
    assert Frame(SHORT)[0] == Le(25, 4)[0] && Frame(LONG)[0] == Le(26, 4)[0];
  }

  ghost predicate ReadBack(file: seq<byte>, rs: seq<LogRecord>, more: seq<LogRecord>) {
    AllFit(more) ==> ReadsAs(file + Frames(more), rs + more)
  }

  lemma TailSpoils(file: seq<byte>, rs: seq<LogRecord>)
    requires AllFit(rs) && Frames(rs) < file
    ensures !ReadBack(file, rs, [SHORT]) || !ReadBack(file, rs, [LONG])
  {
    BeginDifferently();
    assert Frames([SHORT]) == Frame(SHORT) && Frames([LONG]) == Frame(LONG);
    if ReadBack(file, rs, [SHORT]) && ReadBack(file, rs, [LONG]) {
      TailBeginsAlike(file, rs, SHORT);
      TailBeginsAlike(file, rs, LONG);
    }
  }

  /** Whatever is appended to a file is read back later if and only if the file has no torn tail. */
  lemma AppendsAreReadExactly(file: seq<byte>, rs: seq<LogRecord>)
    requires ReadsAs(file, rs)
    ensures (forall more :: ReadBack(file, rs, more)) <==> file == Frames(rs)
  {
    if file == Frames(rs) {
      forall more ensures ReadBack(file, rs, more) {
        if AllFit(more) {
          FramesJoin(rs, more, rs + more);
          WholeReads(rs + more);
        }
      }
    } else {
      TailSpoils(file, rs);
    }
  }

  lemma ShiftedSize(n: nat, more: seq<byte>)
    requires n < 0x100_0000 && Le(n, 4) <= more
    ensures |[1] + more| >= 4 && OfLe(([1] + more)[..4]) == 1 + 0x100 * n
  {
    assert ([1] + more)[..4] == [1] + Le(n, 4)[..3];
    LePrefix(n, 3);
    assert Power256(1) == 0x100 && Power256(2) == 0x1_0000 && Power256(3) == 0x100_0000;
    LeRoundTrip(n, 3);
    assert ([1] + Le(n, 3))[1..] == Le(n, 3);
  }

  /** One byte is a torn tail behind no record. */
  lemma OneTornByte()
    ensures ReadsAs([1], []) && forall log :: ReadsAs([1], log) ==> log == []
  {
    Begins([1]);
    assert [1][0..] == [1];
    forall log | ReadsAs([1], log) ensures log == [] {
      ReadsOnce([1], log, []);
    }
  }

  /** One torn byte hides all that is appended behind it, until that is 256 times the first record. */
  lemma HiddenBehindTornTail(more: seq<LogRecord>)
    requires AllFit(more) && more != [] && |LogBytes(more[0])| < 0x100_0000
    requires |Frames(more)| <= 0x100 * |LogBytes(more[0])|
    ensures ReadsAs([1], []) && ReadsAs([1] + Frames(more), [])
  {
    FrameIs(more[0]);
    FramesPrefix(more, 1);
    FramesMore([], more[0]);
    assert more[..1] == [] + [more[0]];
    ShiftedSize(|LogBytes(more[0])|, Frames(more));
    OneTornByte();
    Begins([1] + Frames(more));
    assert ([1] + Frames(more))[0..] == [1] + Frames(more);
  }

  lemma PairHidden(r: LogRecord, c: LogRecord)
    requires Fits(r) && Fits(c) && |r.before| + |r.after| <= 0x1000 && c.before == c.after == []
    ensures ReadsAs([1], []) && ReadsAs([1] + Frame(r) + Frame(c), [])
  {
    FrameIs(r);
    FrameIs(c);
    assert Frames([r]) == Frame(r);
    FramesMore([r], c);
    assert [r] + [c] == [r, c] && [1] + Frame(r) + Frame(c) == [1] + (Frame(r) + Frame(c));
    HiddenBehindTornTail([r, c]);
  }

  /** Reads record after record until one is cut short or makes no sense. */
  method ReadAll(file: seq<byte>) returns (rs: seq<LogRecord>)
    ensures ReadsAs(file, rs)
  {
    rs := [];
    var pos := 0;
    while true
      invariant AllFit(rs) && Frames(rs) <= file && pos == |Frames(rs)|
      decreases |file| - pos
    {
      var record := ReadFrame(file, pos);
      if record == None {
        break;
      }
      FramesMore(rs, record.value);
      Behind(file, Frames(rs), Frame(record.value));
      FrameBegins(file[pos..], record.value);
      rs := rs + [record.value];
      pos := pos + 4 + |LogBytes(record.value)|;
    }
  }

  lemma Behind(file: seq<byte>, a: seq<byte>, b: seq<byte>)
    requires a <= file && b <= file[|a|..]
    ensures a + b <= file
  {
    assert file == a + file[|a|..];
  }

  /** The record whose frame comes next, if there is one. */
  method ReadFrame(file: seq<byte>, pos: nat) returns (record: Option<LogRecord>)
    requires pos <= |file|
    ensures record.Some? ==> Fits(record.value) && Frame(record.value) <= file[pos..]
    ensures record == None ==> NoFrame(file[pos..])
  {
    ghost var rest := file[pos..];
    Begins(rest);
    if |file| - pos < 4 {
      return None;
    }
    var size := OfLe(file[pos..pos + 4]);
    assert file[pos..pos + 4] == rest[..4];
    if size == 0 || |file| - pos - 4 < size {
      return None;
    }
    var bytes := file[pos + 4..pos + 4 + size];
    assert bytes == rest[4..4 + size];
    record := DeserializeLogRecord(bytes);
    if record.Some? {
      OfLeRoundTrip(rest[..4]);
      Sizes();
      LogBytesParts(record.value);
      FrameBegins(rest, record.value);
    }
  }

  /** What any frame at the beginning would have to look like. */
  lemma Begins(bytes: seq<byte>)
    ensures forall r {:trigger Frame(r)} :: Fits(r) && Frame(r) <= bytes ==>
              && 4 + |LogBytes(r)| <= |bytes| && OfLe(bytes[..4]) == |LogBytes(r)| > 0
              && bytes[4..4 + |LogBytes(r)|] == LogBytes(r) && Sized(r)
  {
    forall r {:trigger Frame(r)} | Fits(r) && Frame(r) <= bytes
      ensures 4 + |LogBytes(r)| <= |bytes| && OfLe(bytes[..4]) == |LogBytes(r)| > 0
      ensures bytes[4..4 + |LogBytes(r)|] == LogBytes(r) && Sized(r)
    {
      FrameBegins(bytes, r);
    }
  }
}
