/** The payload of an AppendEntries message as bytes: a header of 24 bytes, the entries, and four bytes
    at the end that the size computation allows for and nobody uses. */
module RaftPayload {
  import opened Bytes
  import opened Options
  import opened RaftNode

  const HEADER_SIZE := 8 + 4 + 8 + 4
  const ENTRY_HEADER := 4 + 8 + 4
  const UNUSED := 4

  predicate EntryNumbers(e: Entry) { IsInt32(e.term) && IsInt64(e.index) }

  /** The numbers are in the range of their types. */
  predicate Numbers(args: AppendArgs) {
    && IsInt64(args.prevIndex) && IsInt32(args.prevTerm) && IsInt64(args.leaderCommit)
    && forall i :: 0 <= i < |args.entries| ==> EntryNumbers(args.entries[i])
  }

  /** The sizes, too, fit the 32 bits they are sent in. */
  predicate EntryFits(e: Entry) { EntryNumbers(e) && |e.command| < TWO32 }

  predicate AllFit(entries: seq<Entry>) {
    forall i :: 0 <= i < |entries| ==> EntryFits(entries[i])
  }

  predicate Fits(args: AppendArgs) {
    Numbers(args) && |args.entries| < TWO32 && AllFit(args.entries)
  }

  function I32Be(x: int): (s: seq<byte>)
    requires IsInt32(x)
    ensures |s| == 4
  {
    Be(Unsigned(x, TWO32), 4)
  }

  function OfI32Be(s: seq<byte>): (x: int)
    requires |s| == 4
    ensures IsInt32(x)
  {
    OfBeRoundTrip(s);
    Sizes();
    Signed(OfBe(s), TWO32)
  }

  lemma I32BeRoundTrip(x: int)
    requires IsInt32(x)
    ensures OfI32Be(I32Be(x)) == x
  {
    Sizes();
    BeRoundTrip(Unsigned(x, TWO32), 4);
  }

  lemma OfI32BeRoundTrip(s: seq<byte>)
    requires |s| == 4
    ensures I32Be(OfI32Be(s)) == s
  {
    Sizes();
    OfBeRoundTrip(s);
  }

  function EntryBytes(e: Entry): (s: seq<byte>)
    requires EntryNumbers(e)
    ensures |s| == ENTRY_HEADER + |e.command|
  {
    I32Be(e.term) + I64Be(e.index) + Be(|e.command| % TWO32, 4) + e.command
  }

  ghost function EntriesBytes(entries: seq<Entry>): seq<byte>
    requires forall i :: 0 <= i < |entries| ==> EntryNumbers(entries[i])
  {
    if entries == [] then [] else EntriesBytes(entries[..|entries| - 1]) + EntryBytes(entries[|entries| - 1])
  }

  function Header(args: AppendArgs): (s: seq<byte>)
    requires Numbers(args)
    ensures |s| == HEADER_SIZE
  {
    I64Be(args.prevIndex) + I32Be(args.prevTerm) + I64Be(args.leaderCommit) + Be(|args.entries| % TWO32, 4)
  }

  /** The bytes that carry information. */
  ghost function Core(args: AppendArgs): seq<byte>
    requires Numbers(args)
  {
    Header(args) + EntriesBytes(args.entries)
  }

  // ----- Writing

  /** Every write stays inside the buffer, and four bytes of it remain zero. */
  method SerializePayload(args: AppendArgs) returns (bytes: array<byte>)
    requires Numbers(args)
    ensures fresh(bytes) && bytes[..] == Core(args) + Zeroes(UNUSED)
  {
    var size := PayloadSize(args);
    bytes := new byte[size](i => 0);
    assert [] + I64Be(args.prevIndex) == I64Be(args.prevIndex) && bytes[..] == [] + Zeroes(bytes.Length);
    var offset := 0;
    ghost var done: seq<byte> := [];
    offset, done := Put(bytes, offset, I64Be(args.prevIndex), done);
    offset, done := Put(bytes, offset, I32Be(args.prevTerm), done);
    offset, done := Put(bytes, offset, I64Be(args.leaderCommit), done);
    offset, done := Put(bytes, offset, Be(|args.entries| % TWO32, 4), done);
    WriteEntries(bytes, offset, args);
  }

  method PayloadSize(args: AppendArgs) returns (size: nat)
    requires Numbers(args)
    ensures size == |Core(args)| + UNUSED
  {
    size := 4 * 4 + 4;
    size := size + 4 * 2;
    var i := 0;
    while i < |args.entries|
      invariant 0 <= i <= |args.entries|
      invariant size == HEADER_SIZE + |EntriesBytes(args.entries[..i])| + UNUSED
    {
      size := size + ENTRY_HEADER + |args.entries[i].command|;
      i := i + 1;
      assert args.entries[..i][..i - 1] == args.entries[..i - 1];
    }
    assert args.entries[..i] == args.entries;
  }

  method WriteEntries(bytes: array<byte>, start: nat, args: AppendArgs)
    requires Numbers(args) && start == HEADER_SIZE && bytes.Length == |Core(args)| + UNUSED
    requires bytes[..] == Header(args) + Zeroes(bytes.Length - start)
    modifies bytes
    ensures bytes[..] == Core(args) + Zeroes(UNUSED)
  {
    var offset := start;
    var i := 0;
    ghost var done := Header(args);
    while i < |args.entries|
      invariant 0 <= i <= |args.entries| && offset == |done|
      invariant done == Header(args) + EntriesBytes(args.entries[..i])
      invariant offset <= bytes.Length && bytes[..] == done + Zeroes(bytes.Length - offset)
    {
      EntriesMore(args.entries, i);
      EntriesPrefix(args.entries, i + 1);
      offset := WriteEntry(bytes, offset, args.entries[i], done);
      done := done + EntryBytes(args.entries[i]);
      i := i + 1;
    }
    assert args.entries[..i] == args.entries;
  }

  method WriteEntry(bytes: array<byte>, start: nat, e: Entry, ghost before: seq<byte>) returns (offset: nat)
    requires EntryNumbers(e) && start == |before| && start + |EntryBytes(e)| <= bytes.Length
    requires bytes[..] == before + Zeroes(bytes.Length - start)
    modifies bytes
    ensures offset == start + |EntryBytes(e)| && bytes[..] == before + EntryBytes(e) + Zeroes(bytes.Length - offset)
  {
    ghost var done := before;
    offset, done := Put(bytes, start, I32Be(e.term), done);
    offset, done := Put(bytes, offset, I64Be(e.index), done);
    offset, done := Put(bytes, offset, Be(|e.command| % TWO32, 4), done);
    offset, done := Put(bytes, offset, e.command, done);
    assert done == before + EntryBytes(e);
  }

  lemma EntriesMore(entries: seq<Entry>, i: nat)
    requires i < |entries| && forall j :: 0 <= j < |entries| ==> EntryNumbers(entries[j])
    ensures EntriesBytes(entries[..i + 1]) == EntriesBytes(entries[..i]) + EntryBytes(entries[i])
  {
    assert entries[..i + 1][..i] == entries[..i];
  }

  lemma {:induction false} EntriesPrefix(entries: seq<Entry>, i: nat)
    requires i <= |entries| && forall j :: 0 <= j < |entries| ==> EntryNumbers(entries[j])
    ensures EntriesBytes(entries[..i]) <= EntriesBytes(entries)
    decreases |entries|
  {
    if i < |entries| {
      EntriesPrefix(entries[..|entries| - 1], i);
      assert entries[..|entries| - 1][..i] == entries[..i];
    } else {
      assert entries[..i] == entries;
    }
  }

  // ----- Reading

  /** The entry is the next in the bytes. */
  ghost predicate EntryBegins(bytes: seq<byte>, e: Entry) {
    EntryFits(e) && EntryBytes(e) <= bytes
  }

  lemma EntryParts(bytes: seq<byte>, e: Entry)
    requires EntryFits(e)
    ensures EntryBytes(e) <= bytes <==>
              && ENTRY_HEADER + |e.command| <= |bytes|
              && OfI32Be(bytes[..4]) == e.term && OfI64Be(bytes[4..12]) == e.index && OfBe(bytes[12..16]) == |e.command|
              && bytes[16..16 + |e.command|] == e.command
  {
    var n := |e.command|;
    Sizes();
    assert n % TWO32 == n;
    I32BeRoundTrip(e.term);
    I64BeRoundTrip(e.index);
    BeRoundTrip(n, 4);
    FourParts(bytes, I32Be(e.term), I64Be(e.index), Be(n, 4), e.command);
    if ENTRY_HEADER <= |bytes| {
      OfI32BeRoundTrip(bytes[..4]);
      OfI64BeRoundTrip(bytes[4..12]);
      OfBeRoundTrip(bytes[12..16]);
    }
  }

  lemma FourParts(bytes: seq<byte>, a: seq<byte>, b: seq<byte>, c: seq<byte>, d: seq<byte>)
    requires |a| == 4 && |b| == 8 && |c| == 4
    ensures a + b + c + d <= bytes <==>
              && 16 + |d| <= |bytes| && bytes[..4] == a && bytes[4..12] == b && bytes[12..16] == c
              && bytes[16..16 + |d|] == d
  {
    if 16 + |d| <= |bytes| {
      var start, all := bytes[..16 + |d|], a + b + c + d;
      assert start == bytes[..4] + bytes[4..12] + bytes[12..16] + bytes[16..16 + |d|];
      assert all[..4] == a && all[4..12] == b && all[12..16] == c && all[16..] == d;
      assert all <= bytes ==> start == all;
    }
  }

  lemma HeaderParts(bytes: seq<byte>, args: AppendArgs)
    requires Fits(args)
    ensures Header(args) <= bytes <==>
              && HEADER_SIZE <= |bytes| && OfI64Be(bytes[..8]) == args.prevIndex
              && OfI32Be(bytes[8..12]) == args.prevTerm
              && OfI64Be(bytes[12..20]) == args.leaderCommit && OfBe(bytes[20..24]) == |args.entries|
  {
    var n := |args.entries|;
    Sizes();
    assert n % TWO32 == n;
    I64BeRoundTrip(args.prevIndex);
    I32BeRoundTrip(args.prevTerm);
    I64BeRoundTrip(args.leaderCommit);
    BeRoundTrip(n, 4);
    HeaderSlices(bytes, I64Be(args.prevIndex), I32Be(args.prevTerm), I64Be(args.leaderCommit), Be(n, 4));
    if HEADER_SIZE <= |bytes| {
      OfI64BeRoundTrip(bytes[..8]);
      OfI32BeRoundTrip(bytes[8..12]);
      OfI64BeRoundTrip(bytes[12..20]);
      OfBeRoundTrip(bytes[20..24]);
    }
  }

  lemma HeaderSlices(bytes: seq<byte>, a: seq<byte>, b: seq<byte>, c: seq<byte>, d: seq<byte>)
    requires |a| == 8 && |b| == 4 && |c| == 8 && |d| == 4
    ensures a + b + c + d <= bytes <==>
              && HEADER_SIZE <= |bytes| && bytes[..8] == a && bytes[8..12] == b && bytes[12..20] == c
              && bytes[20..24] == d
  {
    if HEADER_SIZE <= |bytes| {
      var start, all := bytes[..HEADER_SIZE], a + b + c + d;
      assert start == bytes[..8] + bytes[8..12] + bytes[12..20] + bytes[20..24];
      assert all[..8] == a && all[8..12] == b && all[12..20] == c && all[20..] == d;
      assert all <= bytes ==> start == all;
    }
  }

  /** Arguments whose core begins the bytes have the header and the number of entries found there. */
  lemma CoresBegin(bytes: seq<byte>)
    ensures forall a {:trigger Core(a)} :: Fits(a) && Core(a) <= bytes ==>
              && HEADER_SIZE <= |bytes| && |a.entries| == OfBe(bytes[20..24])
              && a == AppendArgs(OfI64Be(bytes[..8]), OfI32Be(bytes[8..12]), OfI64Be(bytes[12..20]), a.entries)
  {
    forall a {:trigger Core(a)} | Fits(a) && Core(a) <= bytes
      ensures HEADER_SIZE <= |bytes| && |a.entries| == OfBe(bytes[20..24])
      ensures a == AppendArgs(OfI64Be(bytes[..8]), OfI32Be(bytes[8..12]), OfI64Be(bytes[12..20]), a.entries)
    {
      assert Header(a) <= Core(a);
      HeaderParts(bytes, a);
    }
  }

  lemma EntryComes(bytes: seq<byte>, a: AppendArgs, i: nat, offset: nat)
    requires Fits(a) && Core(a) <= bytes && i < |a.entries| && offset == HEADER_SIZE + |EntriesBytes(a.entries[..i])|
    ensures offset <= |bytes| && EntryBytes(a.entries[i]) <= bytes[offset..]
  {
    EntriesMore(a.entries, i);
    EntriesPrefix(a.entries, i + 1);
    var before, next := Header(a) + EntriesBytes(a.entries[..i]), EntryBytes(a.entries[i]);
    assert before + next == Header(a) + EntriesBytes(a.entries[..i + 1]) <= Core(a);
    StepOver(bytes, before, next);
  }

  /** The reader has come as far as `offset`, and its entries are the first ones of all arguments
      whose core begins the bytes. */
  ghost predicate Reading(bytes: seq<byte>, entries: seq<Entry>, offset: nat) {
    && HEADER_SIZE <= offset <= |bytes| && AllFit(entries) && |entries| <= OfBe(bytes[20..24])
    && EntriesBytes(entries) == bytes[HEADER_SIZE..offset]
    && forall a {:trigger Core(a)} :: Fits(a) && Core(a) <= bytes ==> entries <= a.entries
  }

  /** What the reader of one entry promises. */
  ghost predicate NextRead(rest: seq<byte>, entry: Option<Entry>) {
    && (entry.Some? ==> EntryBegins(rest, entry.value))
    && forall e {:trigger EntryBytes(e)} :: EntryFits(e) && EntryBytes(e) <= rest ==> entry == Some(e)
  }

  /** The next entry is that of all arguments whose core begins the bytes. */
  lemma NextIsTheirs(bytes: seq<byte>, entries: seq<Entry>, offset: nat, entry: Option<Entry>, a: AppendArgs)
    requires Reading(bytes, entries, offset) && |entries| < OfBe(bytes[20..24]) && NextRead(bytes[offset..], entry)
    requires Fits(a) && Core(a) <= bytes
    ensures entry.Some? && entries + [entry.value] <= a.entries
  {
    CoresBegin(bytes);
    assert entries <= a.entries;
    assert a.entries[..|entries|] == entries;
    EntryComes(bytes, a, |entries|, offset);
    assert EntryFits(a.entries[|entries|]);
  }

  lemma NextBytes(bytes: seq<byte>, entries: seq<Entry>, offset: nat, e: Entry)
    requires HEADER_SIZE <= offset <= |bytes| && AllFit(entries) && EntryFits(e)
    requires EntriesBytes(entries) == bytes[HEADER_SIZE..offset] && EntryBytes(e) <= bytes[offset..]
    ensures AllFit(entries + [e]) && offset + |EntryBytes(e)| <= |bytes|
    ensures EntriesBytes(entries + [e]) == bytes[HEADER_SIZE..offset + |EntryBytes(e)|]
  {
    EntriesAppend(entries, e);
    Extend(bytes, HEADER_SIZE, offset, EntryBytes(e));
  }

  lemma EntriesAppend(entries: seq<Entry>, e: Entry)
    requires AllFit(entries) && EntryFits(e)
    ensures AllFit(entries + [e]) && EntriesBytes(entries + [e]) == EntriesBytes(entries) + EntryBytes(e)
  {
    assert (entries + [e])[..|entries|] == entries;
  }

  lemma NextIsAlways(bytes: seq<byte>, entries: seq<Entry>, offset: nat, entry: Option<Entry>)
    requires Reading(bytes, entries, offset) && |entries| < OfBe(bytes[20..24]) && NextRead(bytes[offset..], entry)
    ensures forall a {:trigger Core(a)} :: Fits(a) && Core(a) <= bytes ==>
              entry.Some? && entries + [entry.value] <= a.entries
  {
    forall a {:trigger Core(a)} | Fits(a) && Core(a) <= bytes
      ensures entry.Some? && entries + [entry.value] <= a.entries
    {
      NextIsTheirs(bytes, entries, offset, entry, a);
    }
  }

  /** One round of the reader's loop. */
  lemma NextEntries(bytes: seq<byte>, entries: seq<Entry>, offset: nat, entry: Option<Entry>)
    requires Reading(bytes, entries, offset) && |entries| < OfBe(bytes[20..24]) && NextRead(bytes[offset..], entry)
    ensures entry == None ==> forall a {:trigger Core(a)} :: Fits(a) ==> !(Core(a) <= bytes)
    ensures entry.Some? ==> Reading(bytes, entries + [entry.value], offset + ENTRY_HEADER + |entry.value.command|)
  {
    NextIsAlways(bytes, entries, offset, entry);
    if entry.Some? {
      NextBytes(bytes, entries, offset, entry.value);
    }
  }

  lemma FinishedHeader(bytes: seq<byte>, args: AppendArgs)
    requires |bytes| >= HEADER_SIZE && Fits(args) && |args.entries| == OfBe(bytes[20..24])
    requires args == AppendArgs(OfI64Be(bytes[..8]), OfI32Be(bytes[8..12]), OfI64Be(bytes[12..20]), args.entries)
    ensures Header(args) == bytes[..HEADER_SIZE]
  {
    HeaderParts(bytes, args);
  }

  lemma Finished(bytes: seq<byte>, args: AppendArgs, offset: nat)
    requires Reading(bytes, args.entries, offset) && |args.entries| == OfBe(bytes[20..24])
    requires args == AppendArgs(OfI64Be(bytes[..8]), OfI32Be(bytes[8..12]), OfI64Be(bytes[12..20]), args.entries)
    ensures Fits(args) && Core(args) <= bytes
    ensures forall a {:trigger Core(a)} :: Fits(a) && Core(a) <= bytes ==> a == args
  {
    CoresBegin(bytes);
    OfBeRoundTrip(bytes[20..24]);
    Sizes();
    FinishedHeader(bytes, args);
    Rejoin(bytes, HEADER_SIZE, offset, offset);
  }

  /** A payload, unused bytes and all, decodes to the arguments it was made from. */
  lemma PayloadDecodes(args: AppendArgs)
    requires Fits(args)
    ensures Core(args) <= Core(args) + Zeroes(UNUSED)
    ensures forall a {:trigger Core(a)} :: Fits(a) && Core(a) <= Core(args) + Zeroes(UNUSED) ==> a == args
  {
    var bytes := Core(args) + Zeroes(UNUSED);
    forall a {:trigger Core(a)} | Fits(a) && Core(a) <= bytes ensures a == args {
      CoresBegin(bytes);
      EntriesAgree(bytes, a, args, |a.entries|);
      assert a.entries[..|a.entries|] == a.entries && args.entries[..|a.entries|] == args.entries;
    }
  }

  lemma {:induction false} EntriesAgree(bytes: seq<byte>, a: AppendArgs, b: AppendArgs, i: nat)
    requires Fits(a) && Fits(b) && Core(a) <= bytes && Core(b) <= bytes && i <= |a.entries| && i <= |b.entries|
    ensures a.entries[..i] == b.entries[..i]
    decreases i
  {
    if i > 0 {
      EntriesAgree(bytes, a, b, i - 1);
      var offset := HEADER_SIZE + |EntriesBytes(a.entries[..i - 1])|;
      EntryComes(bytes, a, i - 1, offset);
      EntryComes(bytes, b, i - 1, offset);
      EntryParts(bytes[offset..], a.entries[i - 1]);
      EntryParts(bytes[offset..], b.entries[i - 1]);
      assert a.entries[..i] == a.entries[..i - 1] + [a.entries[i - 1]];
      assert b.entries[..i] == b.entries[..i - 1] + [b.entries[i - 1]];
    }
  }

  /** Succeeds exactly when the bytes begin with the core of some arguments, which it returns;
      what follows is ignored. */
  method DeserializePayload(bytes: seq<byte>) returns (args: Option<AppendArgs>)
    ensures args.Some? ==> Fits(args.value) && Core(args.value) <= bytes
    ensures forall a {:trigger Core(a)} :: Fits(a) && Core(a) <= bytes ==> args == Some(a)
  {
    if |bytes| < HEADER_SIZE {
      CoresBegin(bytes);
      return None;
    }
    args := Some(ReadHeader(bytes));
    var count := OfBe(bytes[20..24]);
    var offset: nat := HEADER_SIZE;
    var entries: seq<Entry> := [];
    var i := 0;
    while i < count
      invariant 0 <= i <= count && i == |entries| && Reading(bytes, entries, offset)
    {
      var entry := ReadEntry(bytes, offset);
      NextEntries(bytes, entries, offset, entry);
      if entry == None {
        return None;
      }
      entries := entries + [entry.value];
      offset := offset + ENTRY_HEADER + |entry.value.command|;
      i := i + 1;
    }
    args := Some(args.value.(entries := entries));
    Finished(bytes, args.value, offset);
  }

  /** The fixed part, with no entries yet. */
  function ReadHeader(bytes: seq<byte>): AppendArgs
    requires |bytes| >= HEADER_SIZE
  {
    AppendArgs(OfI64Be(bytes[..8]), OfI32Be(bytes[8..12]), OfI64Be(bytes[12..20]), [])
  }

  /** The next entry, unless its header or its command would run past the end. */
  method ReadEntry(bytes: seq<byte>, start: nat) returns (entry: Option<Entry>)
    requires start <= |bytes|
    ensures NextRead(bytes[start..], entry)
  {
    ghost var rest := bytes[start..];
    forall e {:trigger EntryBytes(e)} | EntryFits(e) && EntryBytes(e) <= rest
      ensures ENTRY_HEADER <= |rest| && ENTRY_HEADER + OfBe(rest[12..16]) <= |rest|
      ensures e == Entry(OfI32Be(rest[..4]), OfI64Be(rest[4..12]), rest[16..16 + OfBe(rest[12..16])])
    {
      EntryParts(rest, e);
    }
    var offset := start;
    if offset + ENTRY_HEADER > |bytes| {
      return None;
    }
    assert bytes[offset..offset + 4] == rest[..4] && bytes[offset + 4..offset + 12] == rest[4..12];
    assert bytes[offset + 12..offset + 16] == rest[12..16];
    var term := OfI32Be(bytes[offset..offset + 4]);
    offset := offset + 4;
    var index := OfI64Be(bytes[offset..offset + 8]);
    offset := offset + 8;
    var length := OfBe(bytes[offset..offset + 4]);
    offset := offset + 4;
    if offset + length > |bytes| {
      return None;
    }
    var command := bytes[offset..offset + length];
    assert command == rest[16..16 + length];
    OfBeRoundTrip(rest[12..16]);
    Sizes();
    entry := Some(Entry(term, index, command));
    EntryParts(rest, entry.value);
  }
}
