/** Integers as bytes, in the byte order of the host (little-endian) and of the network (big-endian). */
module Bytes {
  newtype byte = b: int | 0 <= b < 256

  function Power256(n: nat): nat {
    if n == 0 then 1 else 256 * Power256(n - 1)
  }

  const TWO32 := 0x1_0000_0000
  const TWO64 := 0x1_0000_0000_0000_0000

  lemma Sizes()
    ensures Power256(4) == TWO32 && Power256(8) == TWO64
  {
    assert Power256(2) == 0x1_0000;
    assert Power256(4) == 0x1_0000 * Power256(2);
    assert Power256(6) == 0x1_0000 * Power256(4);
    assert Power256(8) == 0x1_0000 * Power256(6);
  }

  // ----- Little-endian

  function Le(x: nat, n: nat): (s: seq<byte>)
    ensures |s| == n
    decreases n, x
  {
    if n == 0 then [] else [(x % 256) as byte] + Le(x / 256, n - 1)
  }

  lemma {:induction false} LePrefix(x: nat, n: nat)
    ensures Le(x, n + 1)[..n] == Le(x, n)
    decreases n
  {
    if n > 0 {
      LePrefix(x / 256, n - 1);
      assert Le(x, n + 1)[1..] == Le(x / 256, n);
    }
  }

  function OfLe(s: seq<byte>): nat {
    if s == [] then 0 else s[0] as int + 256 * OfLe(s[1..])
  }

  lemma {:induction false} LeRoundTrip(x: nat, n: nat)
    requires x < Power256(n)
    ensures OfLe(Le(x, n)) == x
    decreases n
  {
    if n > 0 {
      LeRoundTrip(x / 256, n - 1);
      assert Le(x, n)[1..] == Le(x / 256, n - 1);
    }
  }

  lemma {:induction false} OfLeRoundTrip(s: seq<byte>)
    ensures OfLe(s) < Power256(|s|) && Le(OfLe(s), |s|) == s
  {
    if s != [] {
      OfLeRoundTrip(s[1..]);
      var x := OfLe(s);
      assert x % 256 == s[0] as int && x / 256 == OfLe(s[1..]);
      assert s == [s[0]] + s[1..];
    }
  }

  // ----- Big-endian

  function Be(x: nat, n: nat): (s: seq<byte>)
    ensures |s| == n
    decreases n, x
  {
    if n == 0 then [] else Be(x / 256, n - 1) + [(x % 256) as byte]
  }

  function OfBe(s: seq<byte>): nat {
    if s == [] then 0 else 256 * OfBe(s[..|s| - 1]) + s[|s| - 1] as int
  }

  lemma {:induction false} BeRoundTrip(x: nat, n: nat)
    requires x < Power256(n)
    ensures OfBe(Be(x, n)) == x
    decreases n
  {
    if n > 0 {
      BeRoundTrip(x / 256, n - 1);
      assert Be(x, n)[..n - 1] == Be(x / 256, n - 1);
    }
  }

  lemma {:induction false} OfBeRoundTrip(s: seq<byte>)
    ensures OfBe(s) < Power256(|s|) && Be(OfBe(s), |s|) == s
  {
    if s != [] {
      var last := |s| - 1;
      OfBeRoundTrip(s[..last]);
      var x := OfBe(s);
      assert x % 256 == s[last] as int && x / 256 == OfBe(s[..last]);
      assert s == s[..last] + [s[last]];
    }
  }

  // ----- Signed numbers, as casts between them and the unsigned ones of the same width

  predicate IsInt32(x: int) { -0x8000_0000 <= x < 0x8000_0000 }

  predicate IsInt64(x: int) { -0x8000_0000_0000_0000 <= x < 0x8000_0000_0000_0000 }

  function Unsigned(x: int, modulus: nat): (u: int)
    requires 0 <= 2 * x + modulus < 2 * modulus
    ensures 0 <= u < modulus
  {
    if x < 0 then x + modulus else x
  }

  function Signed(u: nat, modulus: nat): (x: int)
    requires u < modulus
    ensures 0 <= 2 * x + modulus < 2 * modulus && Unsigned(x, modulus) == u
  {
    if 2 * u >= modulus then u - modulus else u
  }

  /** A 64-bit integer as the host keeps it in memory. */
  function I64Le(x: int): (s: seq<byte>)
    requires IsInt64(x)
    ensures |s| == 8
  {
    Le(Unsigned(x, TWO64), 8)
  }

  function OfI64Le(s: seq<byte>): (x: int)
    requires |s| == 8
    ensures IsInt64(x)
  {
    OfLeRoundTrip(s);
    Sizes();
    Signed(OfLe(s), TWO64)
  }

  lemma I64LeRoundTrip(x: int)
    requires IsInt64(x)
    ensures OfI64Le(I64Le(x)) == x
  {
    Sizes();
    LeRoundTrip(Unsigned(x, TWO64), 8);
  }

  lemma OfI64LeRoundTrip(s: seq<byte>)
    requires |s| == 8
    ensures I64Le(OfI64Le(s)) == s
  {
    Sizes();
    OfLeRoundTrip(s);
  }

  /** A 64-bit integer on the wire: its upper half and then its lower half. */
  function I64Be(x: int): (s: seq<byte>)
    requires IsInt64(x)
    ensures |s| == 8
  {
    var u := Unsigned(x, TWO64);
    Be(u / TWO32, 4) + Be(u % TWO32, 4)
  }

  function OfI64Be(s: seq<byte>): (x: int)
    requires |s| == 8
    ensures IsInt64(x)
  {
    OfBeRoundTrip(s[..4]);
    OfBeRoundTrip(s[4..]);
    Sizes();
    Signed(OfBe(s[..4]) * TWO32 + OfBe(s[4..]), TWO64)
  }

  lemma I64BeRoundTrip(x: int)
    requires IsInt64(x)
    ensures OfI64Be(I64Be(x)) == x
  {
    var u := Unsigned(x, TWO64);
    Sizes();
    BeRoundTrip(u / TWO32, 4);
    BeRoundTrip(u % TWO32, 4);
    assert I64Be(x)[..4] == Be(u / TWO32, 4) && I64Be(x)[4..] == Be(u % TWO32, 4);
  }

  lemma OfI64BeRoundTrip(s: seq<byte>)
    requires |s| == 8
    ensures I64Be(OfI64Be(s)) == s
  {
    Sizes();
    OfBeRoundTrip(s[..4]);
    OfBeRoundTrip(s[4..]);
    var hi, lo := OfBe(s[..4]), OfBe(s[4..]);
    assert (hi * TWO32 + lo) / TWO32 == hi && (hi * TWO32 + lo) % TWO32 == lo;
    assert s == s[..4] + s[4..];
  }

  // ----- Buffers

  function Zeroes(n: nat): seq<byte> { seq(n, i => 0) }

  /** The bytes from `offset` on are overwritten. */
  function Splice(bytes: seq<byte>, offset: nat, src: seq<byte>): seq<byte>
    requires offset + |src| <= |bytes|
  {
    bytes[..offset] + src + bytes[offset + |src|..]
  }

  lemma Rejoin(bytes: seq<byte>, a: nat, b: nat, c: nat)
    requires a <= b <= c <= |bytes|
    ensures bytes[a..b] + bytes[b..c] == bytes[a..c] && bytes[..a] + bytes[a..b] == bytes[..b]
  {
  }

  lemma Extend(bytes: seq<byte>, a: nat, b: nat, next: seq<byte>)
    requires a <= b <= |bytes| && next <= bytes[b..]
    ensures b + |next| <= |bytes| && bytes[a..b] + next == bytes[a..b + |next|]
  {
    assert next == bytes[b..][..|next|] == bytes[b..b + |next|];
  }

  lemma StepOver(bytes: seq<byte>, before: seq<byte>, next: seq<byte>)
    requires before + next <= bytes
    ensures next <= bytes[|before|..]
  {
    assert bytes[|before|..][..|next|] == bytes[..|before + next|][|before|..] == next;
  }

  /** `memcpy` into a buffer at an offset. */
  method CopyInto(buffer: array<byte>, offset: nat, src: seq<byte>)
    requires offset + |src| <= buffer.Length
    modifies buffer
    ensures buffer[..] == Splice(old(buffer[..]), offset, src)
  {
    forall i | 0 <= i < |src| {
      buffer[offset + i] := src[i];
    }
  }

  lemma FillStep(done: seq<byte>, n: nat, src: seq<byte>)
    requires |src| <= n
    ensures Splice(done + Zeroes(n), |done|, src) == done + src + Zeroes(n - |src|)
  {
  }

  /** The next field goes into a zeroed buffer behind those already `done`. */
  method Put(buffer: array<byte>, offset: nat, src: seq<byte>, ghost done: seq<byte>)
    returns (next: nat, ghost written: seq<byte>)
    requires offset == |done| && offset + |src| <= buffer.Length && buffer[..] == done + Zeroes(buffer.Length - offset)
    modifies buffer
    ensures written == done + src && next == |written| == offset + |src|
    ensures buffer[..] == written + Zeroes(buffer.Length - next)
  {
    FillStep(done, buffer.Length - offset, src);
    CopyInto(buffer, offset, src);
    next, written := offset + |src|, done + src;
  }
}
