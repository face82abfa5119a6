/** Records of the write-ahead log as bytes. */
module LogRecords {
  import opened Options
  import opened Bytes

  datatype Kind = Insert | Update | Delete | Commit

  datatype LogRecord = LogRecord(lsn: int, kind: Kind, recordId: int, before: seq<byte>, after: seq<byte>)

  const HEADER_SIZE := 8 + 1 + 8 + 4 + 4

  function KindByte(k: Kind): byte {
    match k
    case Insert => 0
    case Update => 1
    case Delete => 2
    case Commit => 3
  }

  function OfKindByte(b: byte): (k: Kind)
    requires b <= 3
    ensures KindByte(k) == b
  {
    if b == 0 then Insert else if b == 1 then Update else if b == 2 then Delete else Commit
  }

  /** The 64-bit fields are in range, whatever the images. */
  predicate Numbers(r: LogRecord) {
    IsInt64(r.lsn) && IsInt64(r.recordId)
  }

  /** Both image sizes fit the 32 bits they are stored in. */
  predicate Sized(r: LogRecord) {
    Numbers(r) && |r.before| < TWO32 && |r.after| < TWO32
  }

  /** Sizes are stored as 32-bit numbers, and only as much of an image as its stored size says. */
  function LogBytes(r: LogRecord): (bytes: seq<byte>)
    requires Numbers(r)
    ensures |bytes| == HEADER_SIZE + |r.before| % TWO32 + |r.after| % TWO32
  {
    var b, a := |r.before| % TWO32, |r.after| % TWO32;
    Header(r.lsn, KindByte(r.kind), r.recordId, b, a) + r.before[..b] + r.after[..a]
  }

  method SerializeLogRecord(r: LogRecord) returns (bytes: array<byte>)
    requires Numbers(r)
    ensures fresh(bytes) && bytes[..] == LogBytes(r)
  {
    var beforeSize, afterSize := |r.before| % TWO32, |r.after| % TWO32;
    bytes := new byte[HEADER_SIZE + beforeSize + afterSize](i => 0);
    assert bytes[..] == Zeroes(bytes.Length);
    var offset := PutHeader(bytes, I64Le(r.lsn), KindByte(r.kind), I64Le(r.recordId), Le(beforeSize, 4),
                            Le(afterSize, 4));
    ghost var done := Header(r.lsn, KindByte(r.kind), r.recordId, beforeSize, afterSize);
    offset, done := Put(bytes, offset, r.before[..beforeSize], done);
    offset, done := Put(bytes, offset, r.after[..afterSize], done);
    assert done + Zeroes(0) == done;
  }

  /** The part of fixed size, in front of the images. */
  function Header(lsn: int, kind: byte, recordId: int, beforeSize: nat, afterSize: nat): (bytes: seq<byte>)
    requires IsInt64(lsn) && IsInt64(recordId)
    ensures |bytes| == HEADER_SIZE
  {
    I64Le(lsn) + [kind] + I64Le(recordId) + Le(beforeSize, 4) + Le(afterSize, 4)
  }

  method PutHeader(bytes: array<byte>, lsn: seq<byte>, kind: byte, id: seq<byte>, b: seq<byte>, a: seq<byte>)
    returns (offset: nat)
    requires |lsn| == 8 && |id| == 8 && |b| == 4 && |a| == 4
    requires bytes.Length >= HEADER_SIZE && bytes[..] == Zeroes(bytes.Length)
    modifies bytes
    ensures offset == HEADER_SIZE
    ensures bytes[..] == lsn + [kind] + id + b + a + Zeroes(bytes.Length - HEADER_SIZE)
  {
    assert [] + lsn == lsn && bytes[..] == [] + Zeroes(bytes.Length);
    ghost var done: seq<byte> := [];
    offset, done := Put(bytes, 0, lsn, done);
    offset, done := Put(bytes, offset, [kind], done);
    offset, done := Put(bytes, offset, id, done);
    offset, done := Put(bytes, offset, b, done);
    offset, done := Put(bytes, offset, a, done);
  }

  /** Where each field of a record sits in its bytes. */
  lemma LogBytesParts(r: LogRecord)
    requires Sized(r)
    ensures
      var bytes := LogBytes(r);
      && |bytes| == HEADER_SIZE + |r.before| + |r.after|
      && OfI64Le(bytes[..8]) == r.lsn && bytes[8] == KindByte(r.kind) && OfI64Le(bytes[9..17]) == r.recordId
      && OfLe(bytes[17..21]) == |r.before| && OfLe(bytes[21..25]) == |r.after|
      && bytes[25..25 + |r.before|] == r.before && bytes[25 + |r.before|..] == r.after
  {
    var lsn, id, b, a := I64Le(r.lsn), I64Le(r.recordId), Le(|r.before|, 4), Le(|r.after|, 4);
    Sizes();
    I64LeRoundTrip(r.lsn);
    I64LeRoundTrip(r.recordId);
    LeRoundTrip(|r.before|, 4);
    LeRoundTrip(|r.after|, 4);
    LogBytesWhole(r);
    FieldsApart(LogBytes(r), lsn, KindByte(r.kind), id, b, a, r.before, r.after);
  }

  lemma LogBytesWhole(r: LogRecord)
    requires Sized(r)
    ensures LogBytes(r) ==
              I64Le(r.lsn) + [KindByte(r.kind)] + I64Le(r.recordId) + Le(|r.before|, 4) + Le(|r.after|, 4) + r.before +
                r.after
  {
    assert |r.before| % TWO32 == |r.before| && |r.after| % TWO32 == |r.after|;
    assert r.before[..|r.before|] == r.before && r.after[..|r.after|] == r.after;
  }

  lemma FieldsApart(bytes: seq<byte>, lsn: seq<byte>, kind: byte, id: seq<byte>, b: seq<byte>, a: seq<byte>,
                    before: seq<byte>, after: seq<byte>)
    requires |lsn| == 8 && |id| == 8 && |b| == 4 && |a| == 4
    requires bytes == lsn + [kind] + id + b + a + before + after
    ensures
      && |bytes| == 25 + |before| + |after|
      && bytes[..8] == lsn && bytes[8] == kind && bytes[9..17] == id && bytes[17..21] == b && bytes[21..25] == a
      && bytes[25..25 + |before|] == before && bytes[25 + |before|..] == after
  {
  }

  lemma FieldsTogether(bytes: seq<byte>, n: nat)
    requires |bytes| >= 25 + n
    ensures bytes ==
            bytes[..8] + [bytes[8]] + bytes[9..17] + bytes[17..21] + bytes[21..25] + bytes[25..25 + n] + bytes[25 + n..]
  {
  }

  /** The sizes in the header add up to the size of the whole. */
  predicate WellFormed(bytes: seq<byte>) {
    |bytes| >= HEADER_SIZE && bytes[8] <= 3 && HEADER_SIZE + OfLe(bytes[17..21]) + OfLe(bytes[21..25]) == |bytes|
  }

  ghost function Parsed(bytes: seq<byte>): LogRecord
    requires WellFormed(bytes)
  {
    var n := OfLe(bytes[17..21]);
    LogRecord(OfI64Le(bytes[..8]), OfKindByte(bytes[8]), OfI64Le(bytes[9..17]), bytes[25..25 + n], bytes[25 + n..])
  }

  lemma Reassembled(bytes: seq<byte>)
    requires WellFormed(bytes)
    ensures Sized(Parsed(bytes)) && LogBytes(Parsed(bytes)) == bytes
  {
    var n, r := OfLe(bytes[17..21]), Parsed(bytes);
    Sizes();
    OfLeRoundTrip(bytes[17..21]);
    OfLeRoundTrip(bytes[21..25]);
    OfI64LeRoundTrip(bytes[..8]);
    OfI64LeRoundTrip(bytes[9..17]);
    LogBytesWhole(r);
    FieldsTogether(bytes, n);
  }

  lemma OnlyParsed(bytes: seq<byte>)
    ensures forall r: LogRecord {:trigger LogBytes(r)} :: Sized(r) && LogBytes(r) == bytes ==>
              WellFormed(bytes) && r == Parsed(bytes)
  {
    forall r: LogRecord {:trigger LogBytes(r)} | Sized(r) && LogBytes(r) == bytes
      ensures WellFormed(bytes) && r == Parsed(bytes)
    {
      LogBytesParts(r);
    }
  }

  /** Succeeds exactly on what the serializer writes, and then gives the record back. */
  method DeserializeLogRecord(bytes: seq<byte>) returns (record: Option<LogRecord>)
    ensures record.Some? ==> Sized(record.value) && LogBytes(record.value) == bytes
    ensures forall r: LogRecord {:trigger LogBytes(r)} :: Sized(r) && LogBytes(r) == bytes ==> record == Some(r)
  {
    record := ParseLogRecord(bytes);
    OnlyParsed(bytes);
    if record.Some? {
      Reassembled(bytes);
    }
  }

  /** The parse itself, field by field. */
  method ParseLogRecord(bytes: seq<byte>) returns (record: Option<LogRecord>)
    ensures record.Some? <==> WellFormed(bytes)
    ensures record.Some? ==> record.value == Parsed(bytes)
  {
    if |bytes| < HEADER_SIZE {
      return None;
    }
    var offset := 0;
    var lsn := OfI64Le(bytes[offset..offset + 8]);
    offset := offset + 8;
    var kind := bytes[offset];
    offset := offset + 1;
    var recordId := OfI64Le(bytes[offset..offset + 8]);
    offset := offset + 8;
    var beforeSize := OfLe(bytes[offset..offset + 4]);
    offset := offset + 4;
    var afterSize := OfLe(bytes[offset..offset + 4]);
    offset := offset + 4;
    if kind > KindByte(Commit) || beforeSize > |bytes| - offset || afterSize > |bytes| - offset - beforeSize {
      return None;
    }
    var before := bytes[offset..offset + beforeSize];
    offset := offset + beforeSize;
    var after := bytes[offset..offset + afterSize];
    if offset + afterSize != |bytes| {
      return None;
    }
    record := Some(LogRecord(lsn, OfKindByte(kind), recordId, before, after));
  }
}
