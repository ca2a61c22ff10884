/** Byte strings, big-endian fields, and the byte-wise order of Go's bytes.Compare. */
module Bytes {
  type byte = x: int | 0 <= x < 0x100
  type bytes = seq<byte>

  const U32 := 0x1_0000_0000
  const U56 := 0x100_0000_0000_0000
  const U57 := 0x200_0000_0000_0000
  const U60 := 0x1000_0000_0000_0000
  const U63 := 0x8000_0000_0000_0000
  const U64 := 0x1_0000_0000_0000_0000

  /** The two's complement int64 that Go's arithmetic leaves for the exact value x. */
  function Int64(x: int): int {
    (x + U63) % U64 - U63
  }

  function Be16(b: bytes, at: nat): (v: nat)
    requires at + 2 <= |b|
    ensures v < 0x1_0000
  {
    b[at] as int * 0x100 + b[at + 1] as int
  }

  function Be24(b: bytes, at: nat): (v: nat)
    requires at + 3 <= |b|
    ensures v < 0x100_0000
  {
    b[at] as int * 0x1_0000 + b[at + 1] as int * 0x100 + b[at + 2] as int
  }

  function Be32(b: bytes, at: nat): (v: nat)
    requires at + 4 <= |b|
    ensures v < U32
  {
    b[at] as int * 0x100_0000 + Be24(b, at + 1)
  }

  function Be64(b: bytes, at: nat): (v: nat)
    requires at + 8 <= |b|
    ensures v < U64
  {
    Be32(b, at) * U32 + Be32(b, at + 4)
  }

  function PutBe16(v: nat): (b: bytes)
    requires v < 0x1_0000
    ensures |b| == 2 && Be16(b, 0) == v
  {
    [v / 0x100, v % 0x100]
  }

  function PutBe24(v: nat): (b: bytes)
    requires v < 0x100_0000
    ensures |b| == 3 && Be24(b, 0) == v
  {
    [v / 0x1_0000, v / 0x100 % 0x100, v % 0x100]
  }

  function PutBe32(v: nat): (b: bytes)
    requires v < U32
    ensures |b| == 4 && Be32(b, 0) == v
  {
    [v / 0x100_0000] + PutBe24(v % 0x100_0000)
  }

  function PutBe64(v: nat): (b: bytes)
    requires v < U64
    ensures |b| == 8 && Be64(b, 0) == v
  {
    var high, low := PutBe32(v / U32), PutBe32(v % U32);
    assert Be32(high + low, 0) == v / U32 && Be32(high + low, 4) == v % U32;
    high + low
  }

  lemma Be32Of(data: bytes, at: nat, v: nat)
    requires v < U32 && at + 4 <= |data| && data[at..at + 4] == PutBe32(v)
    ensures Be32(data, at) == v
  {
    hide PutBe32;
    var w := data[at..at + 4];
    assert w[0] == data[at] && w[1] == data[at + 1] && w[2] == data[at + 2] && w[3] == data[at + 3];
  }

  lemma Be64Of(data: bytes, at: nat, v: nat)
    requires v < U64 && at + 8 <= |data| && data[at..at + 8] == PutBe64(v)
    ensures Be64(data, at) == v
  {
    hide PutBe64;
    var w := data[at..at + 8];
    assert forall j :: 0 <= j < 8 ==> w[j] == data[at + j];
  }

  /** Big-endian, to the letter. */
  lemma BigEndian()
    ensures PutBe16(0x0102) == [1, 2] && PutBe24(0x01_0203) == [1, 2, 3] && PutBe32(0x0102_0304) == [1, 2, 3, 4]
    ensures PutBe64(0x0102_0304_0506_0708) == [1, 2, 3, 4, 5, 6, 7, 8]
  {
    assert 0x0102_0304_0506_0708 / U32 == 0x0102_0304 && 0x0102_0304_0506_0708 % U32 == 0x0506_0708;
  }

  /** The int64 that agrees with x modulo 2^64. */
  lemma Int64Is(x: int, v: int)
    ensures v == Int64(x) <==>
      -0x8000_0000_0000_0000 <= v < 0x8000_0000_0000_0000 && (x - v) % 0x1_0000_0000_0000_0000 == 0
  {
    var q := (x + U63) / U64;
    assert x - Int64(x) == q * U64;
    if -U63 <= v < U63 && (x - v) % U64 == 0 {
      assert x + U63 == (x - v) / U64 * U64 + (v + U63);
    }
  }

  /** bytes.Compare: -1, 0 or +1. */
  function Compare(a: seq<int>, b: seq<int>): (c: int)
    ensures -1 <= c <= 1
    ensures c == 0 <==> a == b
  {
    if a == [] then (if b == [] then 0 else -1)
    else if b == [] then 1
    else if a[0] != b[0] then (if a[0] < b[0] then -1 else 1)
    else
      assert a == [a[0]] + a[1..] && b == [b[0]] + b[1..];
      Compare(a[1..], b[1..])
  }

  predicate Less(a: seq<int>, b: seq<int>) {
    Compare(a, b) < 0
  }

  lemma {:induction false} CompareAntisymmetric(a: seq<int>, b: seq<int>)
    ensures Compare(a, b) == -Compare(b, a)
  {
    if a != [] && b != [] && a[0] == b[0] {
      CompareAntisymmetric(a[1..], b[1..]);
    }
  }

  lemma {:induction false} LessTransitive(a: seq<int>, b: seq<int>, c: seq<int>)
    requires Less(a, b) && Less(b, c)
    ensures Less(a, c)
  {
    if a != [] && b != [] && c != [] && a[0] == b[0] == c[0] {
      LessTransitive(a[1..], b[1..], c[1..]);
    }
  }

  /** Both halves of trichotomy, for use where a and b are compared either way round. */
  lemma LessTotal(a: seq<int>, b: seq<int>)
    ensures Less(a, b) || a == b || Less(b, a)
    ensures !(Less(a, b) && Less(b, a))
    ensures !Less(a, a)
  {
    CompareAntisymmetric(a, b);
  }

  /** a and b agree before position k, where a has the lower byte. */
  ghost predicate LowerAt(a: seq<int>, b: seq<int>, k: nat) {
    k < |a| && k < |b| && a[..k] == b[..k] && a[k] < b[k]
  }

  lemma LowerShift(a: seq<int>, b: seq<int>, k: nat)
    requires a != [] && b != [] && a[0] == b[0]
    ensures LowerAt(a, b, k + 1) <==> LowerAt(a[1..], b[1..], k)
  {
    if k + 1 <= |a| && k + 1 <= |b| {
      assert a[..k + 1] == [a[0]] + a[1..][..k] && b[..k + 1] == [b[0]] + b[1..][..k];
      assert a[..k + 1][1..] == a[1..][..k] && b[..k + 1][1..] == b[1..][..k];
    }
  }

  lemma HeadAgrees(a: seq<int>, b: seq<int>, k: nat)
    requires LowerAt(a, b, k) && k > 0
    ensures a[0] == b[0]
  {
    assert a[0] == a[..k][0] == b[..k][0] == b[0];
  }

  lemma HeadsDiffer(a: seq<int>, b: seq<int>)
    requires a != [] && b != [] && a[0] != b[0]
    ensures (exists k: nat :: LowerAt(a, b, k)) <==> a[0] < b[0]
  {
    assert a[0] < b[0] ==> LowerAt(a, b, 0);
    if exists k: nat :: LowerAt(a, b, k) {
      var k: nat :| LowerAt(a, b, k);
      if k > 0 {
        HeadAgrees(a, b, k);
      }
    }
  }

  /** The order is that of the first byte in which the two differ, and a proper prefix comes first. */
  lemma {:induction false} LessIs(a: seq<int>, b: seq<int>)
    ensures Less(a, b) <==> a < b || exists k: nat :: LowerAt(a, b, k)
  {
    if a == [] || b == [] {
    } else if a[0] != b[0] {
      HeadsDiffer(a, b);
    } else {
      LessIs(a[1..], b[1..]);
      assert a == [a[0]] + a[1..] && b == [b[0]] + b[1..];
      if exists k: nat :: LowerAt(a, b, k) {
        var k: nat :| LowerAt(a, b, k);
        LowerShift(a, b, k - 1);
      }
      if exists k: nat :: LowerAt(a[1..], b[1..], k) {
        var k: nat :| LowerAt(a[1..], b[1..], k);
        LowerShift(a, b, k);
      }
    }
  }

  ghost predicate Ascending(names: seq<bytes>) {
    forall i, j :: 0 <= i < j < |names| ==> Less(names[i], names[j])
  }
}
