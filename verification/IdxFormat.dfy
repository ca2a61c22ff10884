/** Pack index files as they lie on disk, versions 1 and 2, and everything the readers get back from them. */
module IdxFormat {
  import opened Options
  import opened Bytes
  import opened FanoutSearch
  import opened PackIndex

  /** An object of the pack: its name, the CRC-32 of its packed bytes, and where they begin. */
  datatype Entry = Entry(name: bytes, crc: nat, off: nat)

  ghost function NamesOf(es: seq<Entry>): (names: seq<bytes>)
    ensures |names| == |es| && forall k :: 0 <= k < |es| ==> names[k] == es[k].name
  {
    seq(|es|, k requires 0 <= k < |es| => es[k].name)
  }

  /** Names of one width, sorted, and numbers that fit their fields. */
  ghost predicate Storable(es: seq<Entry>, width: nat) {
    && |es| < U32 && Ascending(NamesOf(es))
    && forall k :: 0 <= k < |es| ==> |es[k].name| == width && es[k].crc < U32 && es[k].off < U64
  }

  // ---------------------------------------------------------------- version 2

  /** Row k of the tables behind the fan-out: names, sums, offsets, and the large offsets behind those. */
  ghost predicate RowV2(data: bytes, hashLen: nat, es: seq<Entry>, k: nat)
    requires k < |es| && es[k].crc < U32
  {
    var names, sums := 1032, 1032 + |es| * hashLen;
    var offs, large := 1032 + |es| * (hashLen + 4), 1032 + |es| * (hashLen + 8);
    && large + 2 * hashLen <= |data|
    && RowFitsV2(|es|, hashLen, k)
    && data[names + k * hashLen..names + k * hashLen + hashLen] == es[k].name
    && data[sums + 4 * k..sums + 4 * k + 4] == PutBe32(es[k].crc)
    && OffsetHolds(data, offs + 4 * k, large, |data| - 2 * hashLen, es[k].off)
  }

  ghost predicate RowFitsV2(n: nat, hashLen: nat, k: nat) {
    1032 + k * hashLen + hashLen <= 1032 + n * hashLen
  }

  /** A version 2 file: magic and version, fan-out, the tables, and a trailer of two hashes. */
  ghost predicate IsFileV2(data: bytes, hashLen: nat, es: seq<Entry>) {
    && Storable(es, hashLen) && 1032 + |es| * (hashLen + 8) + 2 * hashLen <= |data|
    && data[..8] == [0xff, 0x74, 0x4f, 0x63, 0, 0, 0, 2]
    && FanHolds(data, 8, NamesOf(es))
    && forall k: nat :: k < |es| ==> RowV2(data, hashLen, es, k)
  }

  ghost function IdxV2(data: bytes, hashLen: nat, es: seq<Entry>): Idx {
    Idx(2, data, |es|, hashLen, hashLen == 20)
  }

  lemma SizeV2(data: bytes, hashLen: nat, es: seq<Entry>)
    requires hashLen in {20, 32} && IsFileV2(data, hashLen, es)
    ensures Valid(IdxV2(data, hashLen, es)) && IsV2(data) && data[4..8] == [0, 0, 0, 2]
  {
    hide FanHolds, RowV2, Storable, Fanout, Monotone, Counts;
    FanReads(data, 8, NamesOf(es));
    assert data[..4] == data[..8][..4] && data[4..8] == data[..8][4..8];
    assert |es| < U32 by { StorableCount(es, hashLen); }
  }

  lemma StorableCount(es: seq<Entry>, width: nat)
    requires Storable(es, width)
    ensures |es| < U32
  {
  }

  /** The names the readers see are the names written. */
  lemma {:induction false} NamesReadV2(data: bytes, hashLen: nat, es: seq<Entry>)
    requires hashLen in {20, 32} && IsFileV2(data, hashLen, es) && Valid(IdxV2(data, hashLen, es))
    ensures Names(NameRows(IdxV2(data, hashLen, es))) == NamesOf(es)
  {
    hide FanHolds, OffsetHolds, Fanout, Monotone, Storable;
    var i := IdxV2(data, hashLen, es);
    RowsFit(i);
    forall k: nat | k < |es|
      ensures Row(NameRows(i), k) == es[k].name
    {
      assert es[k].crc < U32 by { StorableAt(es, hashLen, k); }
      assert RowV2(data, hashLen, es, k);
    }
    assert Names(NameRows(i)) == NamesOf(es);
  }

  lemma StorableAt(es: seq<Entry>, width: nat, k: nat)
    requires Storable(es, width) && k < |es|
    ensures |es[k].name| == width && es[k].crc < U32 && es[k].off < U64 && Ascending(NamesOf(es))
  {
  }

  /** A file without objects has no row to ask. */
  lemma AscendingNames(es: seq<Entry>, width: nat)
    requires Storable(es, width)
    ensures Ascending(NamesOf(es))
  {
  }

  lemma {:induction false} WellFormedV2(data: bytes, hashLen: nat, es: seq<Entry>)
    requires hashLen in {20, 32} && IsFileV2(data, hashLen, es)
    ensures WellFormed(IdxV2(data, hashLen, es))
    ensures forall k :: 0 <= k < |es| ==> NameAt(IdxV2(data, hashLen, es), k) == es[k].name
  {
    hide FanHolds, RowV2, Fanout, Monotone, Storable, Ascending, Counts, Row;
    var i := IdxV2(data, hashLen, es);
    SizeV2(data, hashLen, es);
    NamesReadV2(data, hashLen, es);
    FanReads(data, 8, NamesOf(es));
    AscendingNames(es, hashLen);
    RowsFit(i);
    forall k | 0 <= k < |es|
      ensures NameAt(i, k) == es[k].name
    {
      assert Names(NameRows(i))[k] == NamesOf(es)[k];
    }
  }

  lemma {:induction false} RowReadsV2(data: bytes, hashLen: nat, es: seq<Entry>, k: nat)
    requires hashLen in {20, 32} && IsFileV2(data, hashLen, es) && Valid(IdxV2(data, hashLen, es)) && k < |es|
    ensures var i := IdxV2(data, hashLen, es);
      && CrcAt(i, k) == es[k].crc
      && Offset(i, k) == (if es[k].off < 0x8000_0000_0000_0000 then Some(es[k].off) else None)
      && Recorded(i, k) == Some(if es[k].off < 0x8000_0000_0000_0000 then es[k].off else es[k].off - U64)
  {
    hide FanHolds, Fanout, Monotone, Storable, PutBe32, Be32, Be64, Int64, OffsetHolds;
    var i := IdxV2(data, hashLen, es);
    StorableAt(es, hashLen, k);
    assert RowV2(data, hashLen, es, k);
    TablesFit(i);
    Be32Of(data, CrcTable(i) + 4 * k, es[k].crc);
    Int64Of(es[k].off);
    var raw := OffsetReads(data, OffsetTable(i) + 4 * k, OffsetTable(i) + 4 * |es|, |data| - 2 * hashLen, es[k].off);
    assert RawOffset(i, k) == raw;
  }

  /**
   Opening a version 2 file and looking a name up gives the offset written for it, or nothing when the
   offset is 2^63 or more; a name that is not in the file is not found.
   */
  method FindInV2(data: bytes, hashLen: nat, ghost es: seq<Entry>, name: bytes) returns (r: Option<nat>)
    requires hashLen in {20, 32} && IsFileV2(data, hashLen, es) && |name| == hashLen
    ensures forall k :: 0 <= k < |es| && es[k].name == name ==>
      r == if es[k].off < 0x8000_0000_0000_0000 then Some(es[k].off) else None
    ensures (forall k :: 0 <= k < |es| ==> es[k].name != name) ==> r == None
  {
    hide IsFileV2, IsV2, TooShort, OtherVersion, FanoutFalls, Valid, WellFormed, NameAt, Offset;
    OpensV2(data, hashLen, es);
    var got := OpenIdx(data, hashLen);
    assert got.idx == IdxV2(data, hashLen, es) by { SameIdx(got.idx, IdxV2(data, hashLen, es)); }
    WellFormedV2(data, hashLen, es);
    r := FindOffset(got.idx, name);
    forall k | 0 <= k < |es|
      ensures Offset(got.idx, k) == if es[k].off < 0x8000_0000_0000_0000 then Some(es[k].off) else None
    {
      RowReadsV2(data, hashLen, es, k);
    }
  }

  /** An index is determined by its file. */
  lemma SameIdx(a: Idx, b: Idx)
    requires Valid(a) && Valid(b) && a.data == b.data && a.ver == b.ver && a.hashLen == b.hashLen
    ensures a == b
  {
    hide Fanout, Monotone;
  }

  lemma {:induction false} OpensV2(data: bytes, hashLen: nat, es: seq<Entry>)
    requires hashLen in {20, 32} && IsFileV2(data, hashLen, es)
    ensures IsV2(data) && !OtherVersion(data) && !FanoutFalls(data) && !TooShort(data, hashLen)
    ensures Valid(IdxV2(data, hashLen, es))
  {
    hide FanHolds, RowV2, Storable, Counts, Falls, Monotone;
    SizeV2(data, hashLen, es);
    FanReads(data, 8, NamesOf(es));
    MonotoneExactly(data, 8);
    assert Fanout(data, 8)[255] == Be32(data, 8 + 1020);
  }

  // ---------------------------------------------------------------- version 1

  /** Record k: four bytes of offset, then the name. */
  ghost predicate RowV1(data: bytes, es: seq<Entry>, k: nat)
    requires k < |es| && es[k].off < U32
  {
    && 1024 + 24 * k + 24 <= |data|
    && data[1024 + 24 * k..1024 + 24 * k + 4] == PutBe32(es[k].off)
    && data[1024 + 24 * k + 4..1024 + 24 * k + 24] == es[k].name
  }

  /** A version 1 file: fan-out, 24-byte records, and a trailer of two SHA-1 hashes. */
  ghost predicate IsFileV1(data: bytes, es: seq<Entry>) {
    && Storable(es, 20) && (forall k :: 0 <= k < |es| ==> es[k].off < U32)
    && 1024 + 24 * |es| + 40 <= |data| && data[..4] != [0xff, 0x74, 0x4f, 0x63]
    && FanHolds(data, 0, NamesOf(es))
    && forall k: nat :: k < |es| ==> RowV1(data, es, k)
  }

  ghost function IdxV1(data: bytes, es: seq<Entry>): Idx {
    Idx(1, data, |es|, 20, true)
  }

  lemma {:induction false} OpensV1(data: bytes, es: seq<Entry>)
    requires IsFileV1(data, es)
    ensures !IsV2(data) && !OtherVersion(data) && !FanoutFalls(data) && !TooShort(data, 20)
    ensures Valid(IdxV1(data, es))
  {
    hide FanHolds, RowV1, Storable, Counts, Falls, Monotone;
    FanReads(data, 0, NamesOf(es));
    MonotoneExactly(data, 0);
    assert Fanout(data, 0)[255] == Be32(data, 1020);
    StorableCount(es, 20);
  }

  lemma {:induction false} WellFormedV1(data: bytes, es: seq<Entry>)
    requires IsFileV1(data, es)
    ensures WellFormed(IdxV1(data, es))
    ensures forall k :: 0 <= k < |es| ==>
      NameAt(IdxV1(data, es), k) == es[k].name && Offset(IdxV1(data, es), k) == Some(es[k].off)
  {
    var i := IdxV1(data, es);
    OpensV1(data, es);
    RowsFit(i);
    FanReads(data, 0, NamesOf(es));
    AscendingNames(es, 20);
    hide FanHolds, Fanout, Monotone, Storable, PutBe32, Ascending, Counts, FanoutFalls, OtherVersion, TooShort;
    forall k: nat | k < |es|
      ensures NameAt(i, k) == es[k].name && Offset(i, k) == Some(es[k].off)
    {
      assert RowV1(data, es, k);
      Be32Of(data, 1024 + 24 * k, es[k].off);
    }
    assert Names(NameRows(i)) == NamesOf(es) by {
      assert forall k :: 0 <= k < |es| ==> Names(NameRows(i))[k] == NameAt(i, k);
    }
  }

  /** Opening a version 1 file and looking a name up gives the offset written for it, and nothing for another name. */
  method FindInV1(data: bytes, ghost es: seq<Entry>, name: bytes) returns (r: Option<nat>)
    requires IsFileV1(data, es) && |name| == 20
    ensures forall k :: 0 <= k < |es| && es[k].name == name ==> r == Some(es[k].off)
    ensures (forall k :: 0 <= k < |es| ==> es[k].name != name) ==> r == None
  {
    hide IsFileV1, IsV2, TooShort, OtherVersion, FanoutFalls, Valid, WellFormed, NameAt, Offset;
    OpensV1(data, es);
    var got := OpenIdx(data, 20);
    assert got.idx == IdxV1(data, es) by { SameIdx(got.idx, IdxV1(data, es)); }
    WellFormedV1(data, es);
    r := FindOffset(got.idx, name);
  }
}
