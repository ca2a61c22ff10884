/** Pack index files, versions 1 and 2: parsing, offset lookup, and the next offset above a given one. */
module PackIndex {
  import opened Options
  import opened Bytes
  import opened FanoutSearch

  const V2Header := 8
  const V1Record := 24

  /** ver 1 stores SHA-1 names only; sha1 says whether the caller asked for SHA-1. */
  datatype Idx = Idx(ver: nat, data: bytes, count: nat, hashLen: nat, sha1: bool)

  datatype Error = Truncated | Corrupt | UnsupportedVersion

  datatype OpenResult = Opened(idx: Idx) | OpenError(error: Error)

  function FanoutStart(ver: nat): nat {
    if ver == 2 then V2Header else 0
  }

  function MinSize(ver: nat, count: nat, hashLen: nat): nat {
    if ver == 1 then FanoutLen + count * V1Record + 40
    else V2Header + FanoutLen + count * hashLen + count * 8 + 2 * hashLen
  }

  /** The layout every lookup relies on. */
  ghost predicate Valid(i: Idx) {
    && i.ver in {1, 2} && i.hashLen >= 1 && i.count < U32
    && MinSize(i.ver, i.count, i.hashLen) <= |i.data|
    && (i.sha1 <==> i.hashLen == 20)
    && Fanout(i.data, FanoutStart(i.ver))[255] == i.count
    && Monotone(Fanout(i.data, FanoutStart(i.ver)))
  }

  predicate HasV2Magic(data: bytes) {
    |data| >= 4 && data[0] == 0xff && data[1] == 0x74 && data[2] == 0x4f && data[3] == 0x63
  }

  ghost predicate IsV2(data: bytes) {
    |data| >= 4 && data[..4] == [0xff, 0x74, 0x4f, 0x63]
  }

  /** Too short for its fan-out, or for the tables of as many objects as the last counter says. */
  ghost predicate TooShort(data: bytes, hashLen: nat) {
    if IsV2(data) then
      |data| < 8 + 1024 || |data| < 8 + 1024 + Be32(data, 8 + 1020) * (hashLen + 8) + 2 * hashLen
    else
      |data| < 1024 || |data| < 1024 + Be32(data, 1020) * 24 + 40
  }

  ghost predicate OtherVersion(data: bytes) {
    IsV2(data) && |data| >= 8 && data[4..8] != [0, 0, 0, 2]
  }

  /** A counter of the fan-out is below the one before it. */
  ghost predicate FanoutFalls(data: bytes) {
    if IsV2(data) then 8 + 1024 <= |data| && exists n: nat :: 0 < n < 256 && Falls(data, 8, n)
    else 1024 <= |data| && exists n: nat :: 0 < n < 256 && Falls(data, 0, n)
  }

  /** OpenIdx on the file's bytes: what each version is refused for, and the layout every lookup relies on. */
  method OpenIdx(data: bytes, hashLen: nat) returns (r: OpenResult)
    requires hashLen in {20, 32}
    ensures r.Opened? ==> Valid(r.idx)
    ensures r.Opened? ==> r.idx.data == data && r.idx.hashLen == hashLen && r.idx.ver == if IsV2(data) then 2 else 1
    ensures r.Opened? <==> !OtherVersion(data) && !FanoutFalls(data) && !TooShort(data, hashLen)
    ensures r == OpenError(UnsupportedVersion) <==> OtherVersion(data)
    ensures r == OpenError(Corrupt) <==> !OtherVersion(data) && FanoutFalls(data)
  {
    var ver := 1;
    assert HasV2Magic(data) <==> IsV2(data);
    if HasV2Magic(data) {
      if |data| < V2Header {
        return OpenError(Truncated);
      }
      if Be32(data, 4) != 2 {
        return OpenError(UnsupportedVersion);
      }
      ver := 2;
    }
    var at := FanoutStart(ver);
    hide Falls;
    if |data| < at + FanoutLen {
      return OpenError(Truncated);
    }
    var monotone := ValidateFanout(data, at);
    MonotoneExactly(data, at);
    if !monotone {
      return OpenError(Corrupt);
    }
    var count := Be32(data, at + 4 * 255);
    assert count == Fanout(data, at)[255];
    if |data| < MinSize(ver, count, hashLen) {
      return OpenError(Truncated);
    }
    return Opened(Idx(ver, data, count, hashLen, hashLen == 20));
  }

  // ---------------------------------------------------------------- rows

  /** Where the names lie: inside the 24-byte records of version 1, or in a table of their own. */
  function NameRows(i: Idx): Rows {
    if i.ver == 1 then Rows(i.data, FanoutLen + 4, V1Record, 20, i.count)
    else Rows(i.data, V2Header + FanoutLen, i.hashLen, i.hashLen, i.count)
  }

  lemma RowsFit(i: Idx)
    requires Valid(i)
    ensures Fits(NameRows(i)) && FanoutStart(i.ver) + FanoutLen <= |i.data|
  {
    hide Fanout, Monotone;
  }

  ghost function FanOf(i: Idx): seq<nat>
    requires Valid(i)
  {
    RowsFit(i);
    Fanout(i.data, FanoutStart(i.ver))
  }

  function NameAt(i: Idx, k: nat): (name: bytes)
    requires Valid(i) && k < i.count
  {
    RowsFit(i);
    Row(NameRows(i), k)
  }

  function CrcTable(i: Idx): nat {
    V2Header + FanoutLen + i.count * i.hashLen
  }

  function OffsetTable(i: Idx): nat {
    CrcTable(i) + i.count * 4
  }

  lemma TablesFit(i: Idx)
    requires Valid(i) && i.ver == 2
    ensures OffsetTable(i) + 4 * i.count <= |i.data|
  {
    hide Fanout, Monotone;
  }

  /** The CRC-32 of row k. */
  function CrcAt(i: Idx, k: nat): (crc: nat)
    requires Valid(i) && i.ver == 2 && k < i.count
    ensures crc < U32
  {
    TablesFit(i);
    Be32(i.data, CrcTable(i) + 4 * k)
  }

  /** The four bytes of row k that hold or point to its offset. */
  function RawOffset(i: Idx, k: nat): (raw: nat)
    requires Valid(i) && k < i.count
    ensures raw < U32
  {
    if i.ver == 1 then
      RowsFit(i); RowFits(k, NameRows(i));
      Be32(i.data, FanoutLen + k * V1Record)
    else
      TablesFit(i);
      Be32(i.data, OffsetTable(i) + 4 * k)
  }

  /** The 64-bit slot a raw value with its top bit set points to, when the file is long enough. */
  function BigOffset(i: Idx, raw: nat): Option<nat>
    requires Valid(i) && 0x8000_0000 <= raw
  {
    var at := OffsetTable(i) + i.count * 4 + (raw - 0x8000_0000) * 8;
    if |i.data| < at + 8 then None else Some(Be64(i.data, at))
  }

  /** The offset of row k: 31 bits in place, or a 64-bit slot that fits a non-negative int64. */
  function Offset(i: Idx, k: nat): Option<nat>
    requires Valid(i) && k < i.count
  {
    var raw := RawOffset(i, k);
    if i.ver == 1 || raw < 0x8000_0000 then Some(raw)
    else
      var big := BigOffset(i, raw);
      if big == None || big.value >= U63 then None else big
  }

  /** What OffsetAfter reads from row k: an unreachable slot is passed over, a huge one turns negative. */
  function Recorded(i: Idx, k: nat): Option<int>
    requires Valid(i) && k < i.count
  {
    var raw := RawOffset(i, k);
    if i.ver == 1 || raw < 0x8000_0000 then Some(raw)
    else
      var big := BigOffset(i, raw);
      if big == None then None else Some(Int64(big.value))
  }

  // ---------------------------------------------------------------- the tables a writer makes

  /** The offsets too large for 31 bits, in row order. */
  function Large(offs: seq<nat>): (ls: seq<nat>)
    ensures |ls| <= |offs|
  {
    if offs == [] then []
    else
      var n := |offs| - 1;
      Large(offs[..n]) + if offs[n] < 0x8000_0000 then [] else [offs[n]]
  }

  /** Row k's four bytes: its offset, or the number of its 64-bit slot with the top bit set. */
  function Slot(offs: seq<nat>, k: nat): (raw: nat)
    requires k < |offs| <= 0x8000_0000
    ensures raw < U32
  {
    if offs[k] < 0x8000_0000 then offs[k] else 0x8000_0000 + |Large(offs[..k])|
  }

  /** The tables of a version 2 index hold these offsets. */
  ghost predicate Holds(i: Idx, offs: seq<nat>)
    requires Valid(i) && i.ver == 2
  {
    TablesFit(i);
    var large := OffsetTable(i) + 4 * i.count;
    && |offs| == i.count <= 0x8000_0000 && (forall k :: 0 <= k < i.count ==> offs[k] < U64)
    && (forall k :: 0 <= k < i.count ==>
        i.data[OffsetTable(i) + 4 * k..OffsetTable(i) + 4 * k + 4] == PutBe32(Slot(offs, k)))
    && large + 8 * |Large(offs)| <= |i.data|
    && forall j :: 0 <= j < |Large(offs)| ==>
        Large(offs)[j] < U64 && i.data[large + 8 * j..large + 8 * j + 8] == PutBe64(Large(offs)[j])
  }

  lemma {:induction false} LargeAt(offs: seq<nat>, k: nat)
    requires k < |offs| && offs[k] >= 0x8000_0000
    ensures |Large(offs[..k])| < |Large(offs)| && Large(offs)[|Large(offs[..k])|] == offs[k]
  {
    var n := |offs| - 1;
    if k < n {
      LargeAt(offs[..n], k);
      assert offs[..n][..k] == offs[..k];
    }
  }

  lemma SlotReads(i: Idx, offs: seq<nat>, k: nat)
    requires Valid(i) && i.ver == 2 && Holds(i, offs) && k < i.count
    ensures RawOffset(i, k) == Slot(offs, k)
  {
    hide MinSize, Fanout, Monotone, PutBe32, PutBe64, Large, Slot, Be32;
    TablesFit(i);
    Be32Of(i.data, OffsetTable(i) + 4 * k, Slot(offs, k));
  }

  lemma LargeReads(i: Idx, offs: seq<nat>, k: nat)
    requires Valid(i) && i.ver == 2 && Holds(i, offs) && k < i.count && offs[k] >= 0x8000_0000
    ensures BigOffset(i, Slot(offs, k)) == Some(offs[k])
  {
    hide MinSize, Fanout, Monotone, PutBe32, PutBe64, Large, Be64;
    var j := |Large(offs[..k])|;
    LargeAt(offs, k);
    Be64Of(i.data, OffsetTable(i) + 4 * i.count + 8 * j, offs[k]);
  }

  lemma Int64Of(v: nat)
    requires v < U64
    ensures Int64(v) == if v < U63 then v else v - U64
  {
  }

  /** Every written offset below 2^63 is read back; a larger one is refused by look-ups and negative to OffsetAfter. */
  lemma OffsetsReadBack(i: Idx, offs: seq<nat>, k: nat)
    requires Valid(i) && i.ver == 2 && Holds(i, offs) && k < i.count
    ensures Offset(i, k) == if offs[k] < U63 then Some(offs[k]) else None
    ensures Recorded(i, k) == Some(if offs[k] < U63 then offs[k] else offs[k] - U64)
  {
    assert |offs| == i.count <= 0x8000_0000 && offs[k] < U64;
    Int64Of(offs[k]);
    hide Valid, Holds, RawOffset, BigOffset, Large, Int64;
    SlotReads(i, offs, k);
    if offs[k] >= 0x8000_0000 {
      LargeReads(i, offs, k);
    }
  }

  /** Version 1 keeps 32 bits at the head of each 24-byte record. */
  lemma OffsetsReadBackV1(i: Idx, off: nat, k: nat)
    requires Valid(i) && i.ver == 1 && k < i.count && off < U32
    requires FanoutLen + V1Record * k + 4 <= |i.data|
    requires i.data[FanoutLen + V1Record * k..FanoutLen + V1Record * k + 4] == PutBe32(off)
    ensures Offset(i, k) == Some(off) && Recorded(i, k) == Some(off)
  {
    hide MinSize, Fanout, Monotone, PutBe32;
    Be32Of(i.data, FanoutLen + V1Record * k, off);
  }

  /** The names are sorted and the fan-out counts them, which the source assumes and does not check. */
  ghost predicate WellFormed(i: Idx) {
    Valid(i) && (i.ver == 2 || i.sha1) && Sound(NameRows(i), FanOf(i))
  }

  // ---------------------------------------------------------------- lookup

  /** A well-formed index names each object once. */
  lemma {:induction false} OneRow(i: Idx, k: nat)
    requires WellFormed(i) && k < i.count
    ensures forall j :: 0 <= j < i.count && NameAt(i, j) == NameAt(i, k) ==> j == k
  {
    hide Row, Less, Fanout, Counts, MinSize, Monotone;
    var names := Names(NameRows(i));
    AscendingIsNonDescending(names);
    forall j | 0 <= j < i.count && NameAt(i, j) == NameAt(i, k)
      ensures j == k
    {
      assert names[j] == names[k];
    }
  }

  /** searchV2, and the search in findOffsetV1. */
  method FindRow(i: Idx, name: bytes) returns (r: Option<nat>)
    requires Valid(i) && |name| == i.hashLen && (i.ver == 2 || i.sha1)
    ensures r.Some? ==> r.value < i.count && NameAt(i, r.value) == name
    ensures r == None && WellFormed(i) ==> forall k :: 0 <= k < i.count ==> NameAt(i, k) != name
  {
    hide Sound, Row, Fanout, Monotone, MinSize;
    RowsFit(i);
    var t := NameRows(i);
    r := Search(t, FanoutStart(i.ver), name);
    assert forall k :: 0 <= k < i.count ==> Names(t)[k] == NameAt(i, k);
  }

  /** The offset slot of row k, as findOffsetV1 and findOffsetV2 read it. */
  method ReadOffset(i: Idx, k: nat) returns (r: Option<nat>)
    requires Valid(i) && k < i.count
    ensures r == Offset(i, k)
  {
    hide Valid;
    var raw := RawOffset(i, k);
    if i.ver == 1 || raw < 0x8000_0000 {
      return Some(raw);
    }
    var big := BigOffset(i, raw);
    if big == None || big.value >= U63 {
      return None;
    }
    return big;
  }

  /**
   FindOffset: any hit is a row with the name; on a well-formed index it hits exactly when the name
   is present and its offset resolves, and then with that row's offset.
   */
  method FindOffset(i: Idx, name: bytes) returns (r: Option<nat>)
    requires Valid(i) && |name| == i.hashLen
    ensures r.Some? ==> i.ver == 2 || i.sha1
    ensures r.Some? ==> exists k :: 0 <= k < i.count && NameAt(i, k) == name && Offset(i, k) == r
    ensures i.ver == 1 && !i.sha1 ==> r == None
    ensures WellFormed(i) ==> forall k :: 0 <= k < i.count && NameAt(i, k) == name ==> r == Offset(i, k)
  {
    hide MinSize, Fanout, Monotone, Sound, FanOf, NameRows, NameAt, Offset;
    if i.ver == 1 && !i.sha1 {
      return None;
    }
    var row := FindRow(i, name);
    if row == None {
      return None;
    }
    var k := row.value;
    if WellFormed(i) {
      OneRow(i, k);
    }
    r := ReadOffset(i, k);
  }

  // ---------------------------------------------------------------- the next offset

  ghost predicate IsRecorded(i: Idx, n: nat, off: int)
    requires Valid(i) && n <= i.count
  {
    exists k :: 0 <= k < n && Recorded(i, k) == Some(off)
  }

  /** OffsetAfter returns the least recorded offset strictly above its argument. */
  method OffsetAfter(i: Idx, off: nat) returns (r: Option<int>)
    requires Valid(i)
    ensures i.ver == 1 && !i.sha1 ==> r == None
    ensures r.Some? ==> off < r.value && IsRecorded(i, i.count, r.value)
    ensures r.Some? ==> forall o :: IsRecorded(i, i.count, o) && off < o ==> r.value <= o
    ensures r == None && (i.ver == 2 || i.sha1) ==> forall o :: IsRecorded(i, i.count, o) ==> o <= off
  {
    if i.ver == 1 && !i.sha1 {
      return None;
    }
    hide Valid, Recorded;
    var want := -1;
    for k := 0 to i.count
      invariant want < 0 ==> forall o :: IsRecorded(i, k, o) ==> o <= off
      invariant want >= 0 ==> off < want && IsRecorded(i, k, want)
      invariant want >= 0 ==> forall o :: IsRecorded(i, k, o) && off < o ==> want <= o
    {
      var cand := Recorded(i, k);
      assert forall o :: IsRecorded(i, k + 1, o) ==> IsRecorded(i, k, o) || cand == Some(o);
      assert forall o :: IsRecorded(i, k, o) ==> IsRecorded(i, k + 1, o);
      if cand.Some? {
        assert IsRecorded(i, k + 1, cand.value);
        if cand.value > off && (want < 0 || cand.value < want) {
          want := cand.value;
        }
      }
    }
    return if want < 0 then None else Some(want);
  }
}
