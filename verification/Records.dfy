/** Records and their images: 8 bytes of id, 64 of name padded with zeros, 8 of value. */
module Records {
  import opened Bytes

  const NAME_SIZE := 64
  const RECORD_SIZE := 8 + NAME_SIZE + 8

  datatype Record = Record(id: int, name: seq<byte>, value: int)

  predicate IsRecord(r: Record) {
    IsInt64(r.id) && IsInt64(r.value)
  }

  function Cut(name: seq<byte>): seq<byte> {
    if |name| < NAME_SIZE then name else name[..NAME_SIZE]
  }

  function Image(r: Record): (image: seq<byte>)
    requires IsRecord(r)
    ensures |image| == RECORD_SIZE
  {
    I64Le(r.id) + Cut(r.name) + Zeroes(NAME_SIZE - |Cut(r.name)|) + I64Le(r.value)
  }

  function UpToNul(s: seq<byte>): seq<byte> {
    if s == [] || s[0] == 0 then [] else [s[0]] + UpToNul(s[1..])
  }

  function OfImage(image: seq<byte>): (r: Record)
    requires |image| == RECORD_SIZE
    ensures IsRecord(r)
  {
    Record(OfI64Le(image[..8]), UpToNul(image[8..8 + NAME_SIZE]), OfI64Le(image[8 + NAME_SIZE..]))
  }

  /** What a record becomes when it is stored: the name is cut at 64 bytes and at its first NUL. */
  function Normal(r: Record): Record {
    r.(name := UpToNul(Cut(r.name)))
  }

  lemma {:induction false} NulEnds(s: seq<byte>, n: nat)
    ensures UpToNul(s + Zeroes(n)) == UpToNul(s)
  {
    if s == [] {
      assert s + Zeroes(n) == Zeroes(n);
    } else if s[0] != 0 {
      NulEnds(s[1..], n);
      assert (s + Zeroes(n))[1..] == s[1..] + Zeroes(n);
    }
  }

  lemma {:induction false} UpToNulIsPrefix(s: seq<byte>)
    ensures UpToNul(s) <= s && 0 !in UpToNul(s)
    ensures UpToNul(s) == s || (|UpToNul(s)| < |s| && s[|UpToNul(s)|] == 0)
  {
    if s != [] && s[0] != 0 {
      UpToNulIsPrefix(s[1..]);
      assert s == [s[0]] + s[1..];
    }
  }

  /** As much of a name as a record has room for: up to 64 bytes and not past its first NUL. */
  predicate NameKept(given: seq<byte>, stored: seq<byte>) {
    && stored <= given && |stored| <= 64 && 0 !in stored
    && (|stored| < |given| && |stored| < 64 ==> given[|stored|] == 0)
  }

  /** The record as it is stored: all of it but for the rest of a name that does not fit. */
  predicate StoredAs(given: Record, stored: Record) {
    stored.id == given.id && stored.value == given.value && NameKept(given.name, stored.name)
  }

  /** What a record becomes is what is kept of it, and nothing else is. */
  lemma NormalIsKept(given: Record, stored: Record)
    ensures StoredAs(given, stored) <==> stored == Normal(given)
  {
    var cut := Cut(given.name);
    UpToNulIsPrefix(cut);
    assert NameKept(given.name, UpToNul(cut));
    if NameKept(given.name, stored.name) {
      KeptOnce(given.name, stored.name, UpToNul(cut));
    }
  }

  lemma NoNulBefore(given: seq<byte>, stored: seq<byte>)
    requires NameKept(given, stored)
    ensures forall j :: 0 <= j < |stored| ==> given[j] != 0
  {
    forall j | 0 <= j < |stored| ensures given[j] != 0 {
      assert stored[j] == given[j];
    }
  }

  lemma KeptOnce(given: seq<byte>, a: seq<byte>, b: seq<byte>)
    requires NameKept(given, a) && NameKept(given, b)
    ensures a == b
  {
    NoNulBefore(given, a);
    NoNulBefore(given, b);
    assert a == given[..|a|] && b == given[..|b|];
  }

  lemma ImageParts(r: Record)
    requires IsRecord(r)
    ensures Image(r)[..8] == I64Le(r.id) && Image(r)[8 + NAME_SIZE..] == I64Le(r.value)
    ensures Image(r)[8..8 + NAME_SIZE] == Cut(r.name) + Zeroes(NAME_SIZE - |Cut(r.name)|)
  {
  }

  /** Reading an image back gives the normalised record. */
  lemma ImageRoundTrip(r: Record)
    requires IsRecord(r)
    ensures OfImage(Image(r)) == Normal(r)
  {
    ImageParts(r);
    I64LeRoundTrip(r.id);
    I64LeRoundTrip(r.value);
    NulEnds(Cut(r.name), NAME_SIZE - |Cut(r.name)|);
  }

  /** Nothing is lost exactly when the name fits and has no NUL. */
  lemma ImageIsFaithful(r: Record)
    requires IsRecord(r)
    ensures OfImage(Image(r)) == r <==> |r.name| <= NAME_SIZE && 0 !in r.name
  {
    ImageRoundTrip(r);
    UpToNulIsPrefix(Cut(r.name));
  }

  /** A record that was read back survives the next round unchanged. */
  lemma NormalIsStable(image: seq<byte>)
    requires |image| == RECORD_SIZE
    ensures OfImage(Image(OfImage(image))) == OfImage(image)
  {
    UpToNulIsPrefix(image[8..8 + NAME_SIZE]);
    ImageIsFaithful(OfImage(image));
  }

  method SerializeRecord(r: Record, buffer: array<byte>)
    requires IsRecord(r) && buffer.Length >= RECORD_SIZE
    modifies buffer
    ensures buffer[..] == Image(r) + old(buffer[RECORD_SIZE..])
  {
    var nameSize := if |r.name| < NAME_SIZE then |r.name| else NAME_SIZE;
    assert r.name[..nameSize] == Cut(r.name);
    ghost var was := buffer[..];
    FillFields(buffer, I64Le(r.id), r.name[..nameSize], I64Le(r.value));
    assert was[RECORD_SIZE..] == old(buffer[RECORD_SIZE..]);
  }

  method FillFields(buffer: array<byte>, id: seq<byte>, name: seq<byte>, value: seq<byte>)
    requires buffer.Length >= RECORD_SIZE && |id| == |value| == 8 && |name| <= NAME_SIZE
    modifies buffer
    ensures buffer[..] == id + name + Zeroes(NAME_SIZE - |name|) + value + old(buffer[..])[RECORD_SIZE..]
  {
    FieldsFill(buffer[..], id, name, value);
    CopyInto(buffer, 0, Zeroes(RECORD_SIZE));
    CopyInto(buffer, 0, id);
    CopyInto(buffer, 8, name);
    CopyInto(buffer, 8 + NAME_SIZE, value);
  }

  /** The fields written one after the other over zeros make the image. */
  lemma FieldsFill(bytes: seq<byte>, id: seq<byte>, name: seq<byte>, value: seq<byte>)
    requires |bytes| >= RECORD_SIZE && |id| == |value| == 8 && |name| <= NAME_SIZE
    ensures
      var s1 := Splice(bytes, 0, Zeroes(RECORD_SIZE));
      var s2 := Splice(s1, 0, id);
      var s3 := Splice(s2, 8, name);
      Splice(s3, 8 + NAME_SIZE, value) == id + name + Zeroes(NAME_SIZE - |name|) + value + bytes[RECORD_SIZE..]
  {
    var rest := bytes[RECORD_SIZE..];
    var s1 := Splice(bytes, 0, Zeroes(RECORD_SIZE));
    assert s1 == Zeroes(RECORD_SIZE) + rest;
    var s2 := Splice(s1, 0, id);
    assert s2 == id + Zeroes(RECORD_SIZE - 8) + rest;
    var s3 := Splice(s2, 8, name);
    assert s3 == id + name + Zeroes(NAME_SIZE - |name|) + Zeroes(8) + rest;
  }

  method DeserializeRecord(buffer: seq<byte>) returns (r: Record)
    requires |buffer| >= RECORD_SIZE
    ensures r == OfImage(buffer[..RECORD_SIZE])
  {
    var field := buffer[8..8 + NAME_SIZE];
    var end := FindNul(field);
    r := Record(OfI64Le(buffer[..8]), field[..end], OfI64Le(buffer[8 + NAME_SIZE..RECORD_SIZE]));
    assert buffer[..RECORD_SIZE][8..8 + NAME_SIZE] == field;
    assert buffer[..RECORD_SIZE][..8] == buffer[..8];
    assert buffer[..RECORD_SIZE][8 + NAME_SIZE..] == buffer[8 + NAME_SIZE..RECORD_SIZE];
  }

  /** The first NUL, or the end. */
  method FindNul(field: seq<byte>) returns (end: nat)
    ensures end <= |field| && field[..end] == UpToNul(field)
  {
    end := 0;
    while end < |field| && field[end] != 0
      invariant end <= |field| && UpToNul(field) == field[..end] + UpToNul(field[end..])
    {
      assert field[end..][1..] == field[end + 1..];
      end := end + 1;
    }
  }
}
