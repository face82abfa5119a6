/** The commands replicas agree on, as the bytes of a log entry. */
module RaftCommands {
  import opened Bytes

  const INSERT: byte := 0
  const UPDATE_VALUE: byte := 1
  const DELETE: byte := 2

  /** `kind` may be any byte: what is read is not checked. */
  datatype RaftCommand = RaftCommand(kind: byte, id: int, name: seq<byte>, value: int)

  const FIXED_SIZE := 1 + 8 + 8 + 4

  const DEFAULT := RaftCommand(INSERT, 0, [], 0)

  predicate Numbers(c: RaftCommand) { IsInt64(c.id) && IsInt64(c.value) }

  predicate Fits(c: RaftCommand) { Numbers(c) && |c.name| < TWO32 }

  function CommandBytes(c: RaftCommand): (bytes: seq<byte>)
    requires Numbers(c)
    ensures |bytes| == FIXED_SIZE + |c.name|
  {
    [c.kind] + I64Be(c.id) + I64Be(c.value) + Be(|c.name| % TWO32, 4) + c.name
  }

  /** Bytes that are too short give the default command, and a name that would run past the end is empty. */
  function DecodeCommand(bytes: seq<byte>): (c: RaftCommand)
    ensures Numbers(c)
  {
    if |bytes| < FIXED_SIZE then DEFAULT
    else
      var n := OfBe(bytes[17..21]);
      RaftCommand(bytes[0], OfI64Be(bytes[1..9]), if 21 + n <= |bytes| then bytes[21..21 + n] else [],
                  OfI64Be(bytes[9..17]))
  }

  /** What was submitted is what every replica decodes. */
  lemma CommandRoundTrip(c: RaftCommand)
    requires Fits(c)
    ensures DecodeCommand(CommandBytes(c)) == c
  {
    var n := |c.name|;
    Sizes();
    assert n % TWO32 == n;
    I64BeRoundTrip(c.id);
    I64BeRoundTrip(c.value);
    BeRoundTrip(n, 4);
    FieldsApart(CommandBytes(c), c.kind, I64Be(c.id), I64Be(c.value), Be(n, 4), c.name);
  }

  /** Whatever bytes come: too few give an insertion of nothing, otherwise the numbers are read where they are,
      and the name unless it would run past the end. */
  lemma AnyBytes(bytes: seq<byte>) returns (n: nat)
    ensures
      var c := DecodeCommand(bytes);
      if |bytes| < 21 then c == RaftCommand(0, 0, [], 0)
      else
        && c.kind == bytes[0] && I64Be(c.id) == bytes[1..9] && I64Be(c.value) == bytes[9..17]
        && n < TWO32 && Be(n, 4) == bytes[17..21]
        && c.name == if 21 + n <= |bytes| then bytes[21..21 + n] else []
  {
    n := 0;
    if |bytes| >= 21 {
      Sizes();
      n := OfBe(bytes[17..21]);
      OfBeRoundTrip(bytes[17..21]);
      OfI64BeRoundTrip(bytes[1..9]);
      OfI64BeRoundTrip(bytes[9..17]);
    }
  }

  lemma FieldsApart(bytes: seq<byte>, kind: byte, id: seq<byte>, value: seq<byte>, n: seq<byte>, name: seq<byte>)
    requires |id| == 8 && |value| == 8 && |n| == 4 && bytes == [kind] + id + value + n + name
    ensures |bytes| == 21 + |name| && bytes[0] == kind && bytes[1..9] == id && bytes[9..17] == value
    ensures bytes[17..21] == n
    ensures bytes[21..21 + |name|] == name
  {
  }

  method Serialize(c: RaftCommand) returns (bytes: array<byte>)
    requires Numbers(c)
    ensures fresh(bytes) && bytes[..] == CommandBytes(c)
  {
    bytes := new byte[FIXED_SIZE + |c.name|](i => 0);
    assert [] + [c.kind] == [c.kind] && bytes[..] == [] + Zeroes(bytes.Length);
    var offset := 0;
    ghost var done: seq<byte> := [];
    offset, done := Put(bytes, offset, [c.kind], done);
    offset, done := Put(bytes, offset, I64Be(c.id), done);
    offset, done := Put(bytes, offset, I64Be(c.value), done);
    offset, done := Put(bytes, offset, Be(|c.name| % TWO32, 4), done);
    offset, done := Put(bytes, offset, c.name, done);
    assert done + Zeroes(0) == done;
  }

  method Deserialize(bytes: seq<byte>) returns (c: RaftCommand)
    ensures c == DecodeCommand(bytes)
  {
    c := DEFAULT;
    if |bytes| < FIXED_SIZE {
      return;
    }
    var offset := 0;
    c := c.(kind := bytes[offset]);
    offset := offset + 1;
    c := c.(id := OfI64Be(bytes[offset..offset + 8]));
    offset := offset + 8;
    c := c.(value := OfI64Be(bytes[offset..offset + 8]));
    offset := offset + 8;
    var nameSize := OfBe(bytes[offset..offset + 4]);
    offset := offset + 4;
    if offset + nameSize <= |bytes| {
      c := c.(name := bytes[offset..offset + nameSize]);
    }
  }
}
