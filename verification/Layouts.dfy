/** Where each byte of the stored and sent formats is, and what it is: numbers by their digits to base 256,
    negative ones modulo the power of 2 their width gives. */
module Layouts {
  import opened Bytes
  import opened Records
  import LogRecords
  import WalManager
  import RaftCommands
  import RaftPayload
  import opened RaftNode

  // ----- Digits

  /** The digit of `u` that counts 256 to the power of `i`. */
  function Digit(u: nat, i: nat): (d: nat)
    ensures d < 256
  {
    if i == 0 then u % 256 else Digit(u / 256, i - 1)
  }

  /** `width` bytes from `at` on are the digits of the number, the lowest first. */
  predicate LittleAt(bytes: seq<byte>, at: nat, width: nat, u: nat) {
    at + width <= |bytes| && forall i :: 0 <= i < width ==> bytes[at + i] as int == Digit(u, i)
  }

  /** The same, the lowest last. */
  predicate BigAt(bytes: seq<byte>, at: nat, width: nat, u: nat) {
    at + width <= |bytes| && forall i :: 0 <= i < width ==> bytes[at + width - 1 - i] as int == Digit(u, i)
  }

  /** A 64-bit number on the wire is its upper half and then its lower half. */
  predicate Big64At(bytes: seq<byte>, at: nat, x: int) {
    BigAt(bytes, at, 4, x % TWO64 / TWO32) && BigAt(bytes, at + 4, 4, x % TWO64 % TWO32)
  }

  lemma {:induction false} LeDigit(x: nat, n: nat, i: nat)
    requires i < n
    ensures Le(x, n)[i] as int == Digit(x, i)
    decreases n
  {
    if i > 0 {
      LeDigit(x / 256, n - 1, i - 1);
    }
  }

  lemma {:induction false} BeDigit(x: nat, n: nat, i: nat)
    requires i < n
    ensures Be(x, n)[n - 1 - i] as int == Digit(x, i)
    decreases n
  {
    if i > 0 {
      BeDigit(x / 256, n - 1, i - 1);
    }
  }

  lemma LeIsLittle(bytes: seq<byte>, at: nat, x: nat, n: nat)
    requires at + n <= |bytes| && bytes[at..at + n] == Le(x, n)
    ensures LittleAt(bytes, at, n, x)
  {
    forall i | 0 <= i < n ensures bytes[at + i] as int == Digit(x, i) {
      LeDigit(x, n, i);
      assert bytes[at..at + n][i] == bytes[at + i];
    }
  }

  lemma BeIsBig(bytes: seq<byte>, at: nat, x: nat, n: nat)
    requires at + n <= |bytes| && bytes[at..at + n] == Be(x, n)
    ensures BigAt(bytes, at, n, x)
  {
    forall i | 0 <= i < n ensures bytes[at + n - 1 - i] as int == Digit(x, i) {
      BeDigit(x, n, i);
      assert bytes[at..at + n][n - 1 - i] == bytes[at + n - 1 - i];
    }
  }

  lemma I64LeIsLittle(bytes: seq<byte>, at: nat, x: int)
    requires IsInt64(x) && at + 8 <= |bytes| && bytes[at..at + 8] == I64Le(x)
    ensures LittleAt(bytes, at, 8, x % TWO64)
  {
    assert Unsigned(x, TWO64) == x % TWO64;
    LeIsLittle(bytes, at, x % TWO64, 8);
  }

  lemma I64BeIsBig(bytes: seq<byte>, at: nat, x: int)
    requires IsInt64(x) && at + 8 <= |bytes| && bytes[at..at + 8] == I64Be(x)
    ensures Big64At(bytes, at, x)
  {
    var u := x % TWO64;
    assert Unsigned(x, TWO64) == u;
    assert bytes[at..at + 4] == bytes[at..at + 8][..4] == Be(u / TWO32, 4);
    assert bytes[at + 4..at + 8] == bytes[at..at + 8][4..] == Be(u % TWO32, 4);
    BeIsBig(bytes, at, u / TWO32, 4);
    BeIsBig(bytes, at + 4, u % TWO32, 4);
  }

  lemma I32BeIsBig(bytes: seq<byte>, at: nat, x: int)
    requires IsInt32(x) && at + 4 <= |bytes| && bytes[at..at + 4] == RaftPayload.I32Be(x)
    ensures BigAt(bytes, at, 4, x % TWO32)
  {
    assert Unsigned(x, TWO32) == x % TWO32;
    BeIsBig(bytes, at, x % TWO32, 4);
  }

  // ----- Formats

  /** A record: its id, its name padded with zeros to 64 bytes or cut there, its value. */
  lemma RecordLayout(r: Record)
    requires IsRecord(r)
    ensures
      var image := Image(r);
      && |image| == 80 && LittleAt(image, 0, 8, r.id % TWO64) && LittleAt(image, 72, 8, r.value % TWO64)
      && forall i :: 0 <= i < 64 ==> image[8 + i] == if i < |r.name| then r.name[i] else 0
  {
    var image := Image(r);
    ImageParts(r);
    I64LeIsLittle(image, 0, r.id);
    assert image[72..80] == image[72..];
    I64LeIsLittle(image, 72, r.value);
    forall i | 0 <= i < 64 ensures image[8 + i] == if i < |r.name| then r.name[i] else 0 {
      assert image[8 + i] == image[8..8 + NAME_SIZE][i];
    }
  }

  /** Any 80 bytes are a record: the numbers where they are written, and the name up to its first NUL. */
  lemma AnyImage(image: seq<byte>)
    requires |image| == 80
    ensures
      var r := OfImage(image);
      && I64Le(r.id) == image[..8] && I64Le(r.value) == image[72..] && NameKept(image[8..72], r.name)
  {
    OfI64LeRoundTrip(image[..8]);
    OfI64LeRoundTrip(image[72..]);
    UpToNulIsPrefix(image[8..72]);
  }

  function KindNumber(k: LogRecords.Kind): byte {
    match k
    case Insert => 0
    case Update => 1
    case Delete => 2
    case Commit => 3
  }

  /** A log record: sequence number, kind, record id, the sizes of the images, the images. */
  lemma LogRecordLayout(r: LogRecords.LogRecord)
    requires LogRecords.Sized(r)
    ensures
      var bytes := LogRecords.LogBytes(r);
      && |bytes| == 25 + |r.before| + |r.after|
      && LittleAt(bytes, 0, 8, r.lsn % TWO64) && bytes[8] == KindNumber(r.kind)
      && LittleAt(bytes, 9, 8, r.recordId % TWO64)
      && LittleAt(bytes, 17, 4, |r.before|) && LittleAt(bytes, 21, 4, |r.after|)
      && bytes[25..25 + |r.before|] == r.before && bytes[25 + |r.before|..] == r.after
  {
    var bytes := LogRecords.LogBytes(r);
    var b, a := Le(|r.before|, 4), Le(|r.after|, 4);
    LogRecords.LogBytesWhole(r);
    LogRecords.FieldsApart(bytes, I64Le(r.lsn), LogRecords.KindByte(r.kind), I64Le(r.recordId), b, a,
                           r.before, r.after);
    assert bytes[0..8] == bytes[..8];
    I64LeIsLittle(bytes, 0, r.lsn);
    I64LeIsLittle(bytes, 9, r.recordId);
    LeIsLittle(bytes, 17, |r.before|, 4);
    LeIsLittle(bytes, 21, |r.after|, 4);
  }

  /** In the log file each record comes behind its size. */
  lemma FrameLayout(r: LogRecords.LogRecord)
    requires WalManager.Fits(r)
    ensures
      var frame := WalManager.Frame(r);
      LittleAt(frame, 0, 4, |LogRecords.LogBytes(r)|) && frame[4..] == LogRecords.LogBytes(r)
  {
    WalManager.FrameIs(r);
    assert WalManager.Frame(r)[0..4] == Le(|LogRecords.LogBytes(r)|, 4);
    LeIsLittle(WalManager.Frame(r), 0, |LogRecords.LogBytes(r)|, 4);
  }

  /** A command: its kind, id and value, the size of the name, the name. */
  lemma CommandLayout(c: RaftCommands.RaftCommand)
    requires RaftCommands.Fits(c)
    ensures
      var bytes := RaftCommands.CommandBytes(c);
      && |bytes| == 21 + |c.name| && bytes[0] == c.kind
      && Big64At(bytes, 1, c.id) && Big64At(bytes, 9, c.value)
      && BigAt(bytes, 17, 4, |c.name|) && bytes[21..] == c.name
  {
    var bytes, n := RaftCommands.CommandBytes(c), |c.name|;
    assert n % TWO32 == n;
    RaftCommands.FieldsApart(bytes, c.kind, I64Be(c.id), I64Be(c.value), Be(n, 4), c.name);
    I64BeIsBig(bytes, 1, c.id);
    I64BeIsBig(bytes, 9, c.value);
    BeIsBig(bytes, 17, n, 4);
    assert bytes[21..21 + n] == bytes[21..];
  }

  /** The header of a payload: previous index and term, commit index, number of entries. */
  lemma HeaderLayout(args: AppendArgs)
    requires RaftPayload.Fits(args)
    ensures
      var bytes := RaftPayload.Header(args);
      && |bytes| == 24 && Big64At(bytes, 0, args.prevIndex) && BigAt(bytes, 8, 4, args.prevTerm % TWO32)
      && Big64At(bytes, 12, args.leaderCommit) && BigAt(bytes, 20, 4, |args.entries|)
  {
    var bytes, n := RaftPayload.Header(args), |args.entries|;
    assert n % TWO32 == n;
    assert bytes[0..8] == I64Be(args.prevIndex) && bytes[8..12] == RaftPayload.I32Be(args.prevTerm);
    assert bytes[12..20] == I64Be(args.leaderCommit) && bytes[20..24] == Be(n, 4);
    I64BeIsBig(bytes, 0, args.prevIndex);
    I32BeIsBig(bytes, 8, args.prevTerm);
    I64BeIsBig(bytes, 12, args.leaderCommit);
    BeIsBig(bytes, 20, n, 4);
  }

  /** An entry of a payload: its term and index, the size of the command, the command. */
  lemma EntryLayout(e: Entry)
    requires RaftPayload.EntryFits(e)
    ensures
      var bytes := RaftPayload.EntryBytes(e);
      && |bytes| == 16 + |e.command| && BigAt(bytes, 0, 4, e.term % TWO32) && Big64At(bytes, 4, e.index)
      && BigAt(bytes, 12, 4, |e.command|) && bytes[16..] == e.command
  {
    var bytes, n := RaftPayload.EntryBytes(e), |e.command|;
    assert n % TWO32 == n;
    assert bytes[0..4] == RaftPayload.I32Be(e.term) && bytes[4..12] == I64Be(e.index);
    assert bytes[12..16] == Be(n, 4) && bytes[16..] == e.command;
    I32BeIsBig(bytes, 0, e.term);
    I64BeIsBig(bytes, 4, e.index);
    BeIsBig(bytes, 12, n, 4);
  }

  /** A payload is its header and then its entries in order. */
  lemma PayloadLayout(args: AppendArgs, i: nat)
    requires RaftPayload.Fits(args) && i < |args.entries|
    ensures RaftPayload.Core(args) == RaftPayload.Header(args) + RaftPayload.EntriesBytes(args.entries)
    ensures RaftPayload.EntriesBytes([]) == []
    ensures
      var upTo, before := RaftPayload.EntriesBytes(args.entries[..i + 1]), RaftPayload.EntriesBytes(args.entries[..i]);
      upTo == before + RaftPayload.EntryBytes(args.entries[i]) && upTo <= RaftPayload.EntriesBytes(args.entries)
  {
    RaftPayload.EntriesMore(args.entries, i);
    RaftPayload.EntriesPrefix(args.entries, i + 1);
  }
}
