/** A multi-pack-index as it lies on disk, and everything the reader gets back from it. */
module MidxFormat {
  import opened Options
  import opened Bytes
  import opened FanoutSearch
  import opened Midx

  /** An object of the packs: its id, which pack holds it, and where it begins there. */
  datatype Object = Object(id: bytes, pack: nat, off: nat)

  /** What a file is made from: where the names and the fan-out begin, and where the chunks end. */
  datatype Plan = Plan(hashLen: nat, ver: byte, names: seq<bytes>, objs: seq<Object>, pnam: nat, oidf: nat, large: bool,
                       end: nat)
  {
    ghost function Oidl(): nat { oidf + 1024 }

    ghost function Ooff(): nat { Oidl() + |objs| * hashLen }

    ghost function Loff(): nat { Ooff() + |objs| * 8 }

    /** The chunk table: PNAM, OIDF, OIDL, OOFF, LOFF when there are large offsets, and the end of them all. */
    ghost function Table(): (es: seq<Entry>)
      ensures |es| == if large then 6 else 5
    {
      [Entry([0x50, 0x4e, 0x41, 0x4d], pnam), Entry([0x4f, 0x49, 0x44, 0x46], oidf),
       Entry([0x4f, 0x49, 0x44, 0x4c], Oidl()), Entry([0x4f, 0x4f, 0x46, 0x46], Ooff())]
      + (if large then [Entry([0x4c, 0x4f, 0x46, 0x46], Loff())] else [])
      + [Entry([0, 0, 0, 0], end)]
    }
  }

  ghost function IdsOf(objs: seq<Object>): (ids: seq<bytes>)
    ensures |ids| == |objs| && forall k :: 0 <= k < |objs| ==> ids[k] == objs[k].id
  {
    seq(|objs|, k requires 0 <= k < |objs| => objs[k].id)
  }

  /** Names without NUL, in order for version 1; ids of one width in order; packs that are listed. */
  ghost predicate Sane(p: Plan) {
    && p.hashLen in {20, 32} && p.ver in {1, 2} && |p.names| < U32 && |p.objs| < U32
    && NulFree(p.names) && (p.ver == 1 ==> Ascending(p.names)) && Ascending(IdsOf(p.objs))
    && forall k :: 0 <= k < |p.objs| ==>
        |p.objs[k].id| == p.hashLen && p.objs[k].pack < |p.names| && p.objs[k].off < U64
  }

  /** The chunks stand one behind the other, on multiples of four, behind the table. */
  ghost predicate Placed(p: Plan) {
    && 12 + 12 * |p.Table()| <= p.pnam <= p.oidf && p.pnam % 4 == 0 && p.oidf % 4 == 0
    && p.Loff() <= p.end < U63 && (!p.large ==> p.end == p.Loff())
  }

  ghost predicate HasTable(data: bytes, es: seq<Entry>) {
    forall i :: 0 <= i < |es| ==> HasEntry(data, 12 + 12 * i, es[i])
  }

  ghost predicate HasEntry(data: bytes, at: nat, e: Entry) {
    && at + 12 <= |data| && e.off < U64
    && data[at..at + 4] == e.id && data[at + 4..at + 12] == PutBe64(e.off)
  }

  /** Row k of the ids and of the offsets. */
  ghost predicate HasRow(data: bytes, p: Plan, k: nat)
    requires k < |p.objs| && p.objs[k].pack < U32 && p.end <= |data| && p.Loff() <= p.end
  {
    var id, row := p.Oidl() + k * p.hashLen, p.Ooff() + 8 * k;
    && id + p.hashLen <= p.Ooff()
    && data[id..id + p.hashLen] == p.objs[k].id
    && data[row..row + 4] == PutBe32(p.objs[k].pack)
    && OffsetHolds(data, row + 4, p.Loff(), p.end, p.objs[k].off)
  }

  /** The bytes of the file the plan describes, whatever pads its names and whatever its trailer holds. */
  ghost predicate IsFile(data: bytes, p: Plan) {
    && Sane(p) && Placed(p) && p.end + p.hashLen <= |data| < U63
    && data[..8] == [0x4d, 0x49, 0x44, 0x58, p.ver, if p.hashLen == 20 then 1 else 2, if p.large then 5 else 4, 0]
    && data[8..12] == PutBe32(|p.names|)
    && HasTable(data, p.Table())
    && Terminated(p.names) <= data[p.pnam..p.oidf]
    && FanHolds(data, p.oidf, IdsOf(p.objs))
    && forall k: nat :: k < |p.objs| ==> HasRow(data, p, k)
  }

  // ---------------------------------------------------------------- the table is accepted

  lemma SaneAt(p: Plan, k: nat)
    requires Sane(p) && k < |p.objs|
    ensures |p.objs[k].id| == p.hashLen && p.objs[k].pack < |p.names| < U32 && p.objs[k].off < U64
  {
  }

  lemma HeaderReads(data: bytes, p: Plan)
    requires IsFile(data, p)
    ensures HeaderOk(data, p.hashLen) && data[4] == p.ver && data[6] == |p.Table()| - 1 && Be32(data, 8) == |p.names|
  {
    hide FanHolds, HasRow, Ascending, HasTable, PutBe32, Be32, Terminated, Plan.Table;
    var head := data[..8];
    assert head[..4] == data[..4] && head[..4] == [0x4d, 0x49, 0x44, 0x58];
    assert forall i :: 0 <= i < 8 ==> head[i] == data[i];
    Be32Of(data, 8, |p.names|);
  }

  lemma EntryReads(data: bytes, p: Plan, i: nat)
    requires IsFile(data, p) && i < |p.Table()| && TocFits(data, |p.Table()| - 1)
    ensures TocId(data, |p.Table()| - 1, i) == p.Table()[i].id
    ensures p.Table()[i].off < U63 && TocOff(data, |p.Table()| - 1, i) == p.Table()[i].off
  {
    hide FanHolds, HasRow, Sane, PutBe64, PutBe32, Be64, Terminated, Int64;
    assert HasEntry(data, 12 + 12 * i, p.Table()[i]);
    Be64Of(data, 12 + 12 * i + 4, p.Table()[i].off);
    TableAt(p, i);
    Int64Low(p.Table()[i].off);
  }

  lemma TableIs(p: Plan)
    ensures |p.Table()| == if p.large then 6 else 5
    ensures p.Table()[0] == Entry(PNAM, p.pnam) && p.Table()[1] == Entry(OIDF, p.oidf)
    ensures p.Table()[2] == Entry(OIDL, p.Oidl()) && p.Table()[3] == Entry(OOFF, p.Ooff())
    ensures p.large ==> p.Table()[4] == Entry(LOFF, p.Loff()) && p.Table()[5].off == p.end
    ensures !p.large ==> p.Table()[4].off == p.end
  {
  }

  /** Every entry's offset is a multiple of four, and they ascend to the end. */
  lemma TableAt(p: Plan, i: nat)
    requires Placed(p) && i < |p.Table()|
    ensures p.Table()[i].off <= p.end < U63
    ensures i + 1 < |p.Table()| ==> p.Table()[i].off <= p.Table()[i + 1].off && p.Table()[i].id != [0, 0, 0, 0]
    ensures i + 1 < |p.Table()| && p.hashLen in {20, 32} ==> p.Table()[i].off % 4 == 0
    ensures i + 1 == |p.Table()| ==> p.Table()[i] == Entry([0, 0, 0, 0], p.end)
  {
    var id := p.Table()[i].id;
    assert i + 1 < |p.Table()| ==> id[0] != 0;
  }

  lemma TableFitsBefore(data: bytes, p: Plan)
    requires IsFile(data, p)
    ensures HeaderSize + |p.Table()| * TocEntry <= |data| - p.hashLen && TocFits(data, |p.Table()| - 1)
  {
    hide FanHolds, HasRow, Sane, Terminated, PutBe32, HasTable;
  }

  lemma EntryGood(data: bytes, p: Plan, i: nat)
    requires IsFile(data, p) && i + 1 < |p.Table()| && TocFits(data, |p.Table()| - 1)
    ensures EntryOk(data, p.hashLen, |p.Table()| - 1, i)
  {
    hide IsFile, TocId, TocOff, Placed, Plan.Table;
    FileParts(data, p);
    assert p.hashLen in {20, 32};
    hide Sane;
    EntryReads(data, p, i);
    EntryReads(data, p, i + 1);
    TableAt(p, i);
    TableAt(p, i + 1);
  }

  lemma DistinctEntries(p: Plan, i: nat, j: nat)
    requires i < j < |p.Table()|
    ensures p.Table()[i].id != p.Table()[j].id
  {
    var a, b := p.Table()[i].id, p.Table()[j].id;
    assert a[0] != b[0] || a[1] != b[1] || a[3] != b[3];
  }

  lemma IsListed(data: bytes, p: Plan, i: nat)
    requires IsFile(data, p) && i + 1 < |p.Table()| && TocFits(data, |p.Table()| - 1)
    ensures Listed(data, |p.Table()| - 1, |p.Table()| - 1, p.Table()[i].id)
  {
    hide IsFile, Plan.Table, TocId;
    EntryReads(data, p, i);
  }

  lemma {:induction false} TableIsGood(data: bytes, p: Plan)
    requires IsFile(data, p)
    ensures TocFits(data, |p.Table()| - 1) && GoodToc(data, p.hashLen, |p.Table()| - 1)
  {
    var n := |p.Table()| - 1;
    TableFitsBefore(data, p);
    hide IsFile, TocId, TocOff, EntryOk, Listed, Placed, Sane;
    FileParts(data, p);
    TableIs(p);
    hide Plan.Table;
    EntryReads(data, p, n);
    TableAt(p, n);
    forall i: nat | i < n
      ensures EntryOk(data, p.hashLen, n, i)
    {
      EntryGood(data, p, i);
    }
    forall i: nat, j: nat | i < j < n
      ensures TocId(data, n, i) != TocId(data, n, j)
    {
      EntryReads(data, p, i);
      EntryReads(data, p, j);
      DistinctEntries(p, i, j);
    }
    AllListed(data, p);
  }

  lemma AllListed(data: bytes, p: Plan)
    requires IsFile(data, p) && TocFits(data, |p.Table()| - 1)
    ensures var n := |p.Table()| - 1;
      Listed(data, n, n, PNAM) && Listed(data, n, n, OIDF) && Listed(data, n, n, OIDL) && Listed(data, n, n, OOFF)
  {
    hide *;
    TableIs(p);
    IsListed(data, p, 0);
    IsListed(data, p, 1);
    IsListed(data, p, 2);
    IsListed(data, p, 3);
  }

  // ---------------------------------------------------------------- what the chunks say

  /** The extents the table gives the chunks. */
  ghost predicate HasChunks(chunks: Chunks, p: Plan) {
    && HasRequired(chunks)
    && chunks[PNAM] == Extent(p.pnam, p.oidf - p.pnam) && chunks[OIDF] == Extent(p.oidf, 1024)
    && chunks[OIDL] == Extent(p.Oidl(), |p.objs| * p.hashLen) && chunks[OOFF] == Extent(p.Ooff(), |p.objs| * 8)
    && (p.large ==> LOFF in chunks && chunks[LOFF] == Extent(p.Loff(), p.end - p.Loff()))
  }

  lemma CollectedAt(data: bytes, n: nat, chunks: Chunks, i: nat)
    requires TocFits(data, n) && Collected(data, n, n, chunks) && i < n
    ensures TocId(data, n, i) in chunks
    ensures chunks[TocId(data, n, i)] == Extent(TocOff(data, n, i), Int64(TocOff(data, n, i + 1) - TocOff(data, n, i)))
  {
    hide TocId, TocOff;
  }

  lemma ExtentIs(data: bytes, p: Plan, chunks: Chunks, i: nat)
    requires IsFile(data, p) && i + 1 < |p.Table()| && TocFits(data, |p.Table()| - 1)
    requires Collected(data, |p.Table()| - 1, |p.Table()| - 1, chunks)
    ensures p.Table()[i].id in chunks
    ensures chunks[p.Table()[i].id] == Extent(p.Table()[i].off, p.Table()[i + 1].off - p.Table()[i].off)
  {
    hide *;
    FileParts(data, p);
    EntryReads(data, p, i);
    EntryReads(data, p, i + 1);
    TableAt(p, i);
    CollectedAt(data, |p.Table()| - 1, chunks, i);
    Int64Low(p.Table()[i + 1].off - p.Table()[i].off);
  }

  lemma {:induction false} ChunksOf(data: bytes, p: Plan) returns (chunks: Chunks)
    requires IsFile(data, p)
    ensures TocFits(data, |p.Table()| - 1) && GoodToc(data, p.hashLen, |p.Table()| - 1)
    ensures Collected(data, |p.Table()| - 1, |p.Table()| - 1, chunks) && HasChunks(chunks, p)
    ensures Inside(chunks, |data| - p.hashLen) && Tiled(chunks, |data| - p.hashLen)
  {
    hide Terminated, FanHolds, HasRow, HasTable, PutBe32;
    var n := |p.Table()| - 1;
    TableIsGood(data, p);
    chunks := Collect(data, p.hashLen, n, n);
    ChunkExtents(data, p, chunks);
    FileParts(data, p);
    EntryReads(data, p, 0);
    hide IsFile, TocOff, Sane, Placed, Inside, GoodToc, Collected, HasChunks, Tiled, Plan.Table;
    ChunksTile(data, p.hashLen, n, chunks);
  }

  lemma ChunkExtents(data: bytes, p: Plan, chunks: Chunks)
    requires IsFile(data, p) && TocFits(data, |p.Table()| - 1)
    requires Collected(data, |p.Table()| - 1, |p.Table()| - 1, chunks)
    ensures HasChunks(chunks, p)
  {
    hide IsFile, Collected, Plan.Table, TocFits;
    FileParts(data, p);
    TableIs(p);
    ExtentIs(data, p, chunks, 0);
    ExtentIs(data, p, chunks, 1);
    ExtentIs(data, p, chunks, 2);
    ExtentIs(data, p, chunks, 3);
    if p.large {
      ExtentIs(data, p, chunks, 4);
    }
  }

  /** What the reader should make of the file. */
  ghost function IndexOf(data: bytes, p: Plan, chunks: Chunks): Index {
    Index(data, p.hashLen, p.ver, |p.names|, |p.objs|, chunks, p.names)
  }

  lemma {:induction false} IdsAreRead(data: bytes, p: Plan, m: Index)
    requires IsFile(data, p) && HasChunks(m.chunks, p) && m == IndexOf(data, p, m.chunks)
    ensures FanoutSearch.Fits(OidRows(m)) && Names(OidRows(m)) == IdsOf(p.objs)
  {
    hide FanHolds, OffsetHolds, PutBe32, HasTable, Terminated;
    assert |IdsOf(p.objs)| == |p.objs|;
    forall k: nat | k < |p.objs|
      ensures Row(OidRows(m), k) == p.objs[k].id
    {
      SaneAt(p, k);
      assert HasRow(data, p, k);
    }
    assert Names(OidRows(m)) == IdsOf(p.objs);
  }

  lemma RowParts(data: bytes, p: Plan, k: nat)
    requires IsFile(data, p) && k < |p.objs|
    ensures var row := p.Ooff() + 8 * k;
      && p.objs[k].pack < U32 && p.objs[k].off < U64 && row + 8 <= p.Loff() <= p.end <= |data|
      && (!p.large ==> p.end == p.Loff())
      && data[row..row + 4] == PutBe32(p.objs[k].pack)
      && OffsetHolds(data, row + 4, p.Loff(), p.end, p.objs[k].off)
  {
    hide FanHolds, OffsetHolds, PutBe32, HasTable, Terminated;
    SaneAt(p, k);
    assert HasRow(data, p, k);
  }

  lemma RowIsRead(data: bytes, p: Plan, m: Index, k: nat)
    requires IsFile(data, p) && HasChunks(m.chunks, p) && m == IndexOf(data, p, m.chunks) && Laid(m) && k < |p.objs|
    ensures PackAt(m, k) == p.objs[k].pack
    ensures OffsetAt(m, k) == if p.objs[k].off < 0x8000_0000_0000_0000 then Some(p.objs[k].off) else None
  {
    hide FanHolds, PutBe32, PutBe64, Be32, Be64, OffsetHolds, IsFile, Inside, HasRow, Sane, Int64;
    RowParts(data, p, k);
    var at := p.Ooff() + 8 * k;
    var raw := OffsetReads(data, at + 4, p.Loff(), p.end, p.objs[k].off);
    Be32Of(data, at, p.objs[k].pack);
  }

  /** The reader's rules accept the file, and every row says what was written. */
  lemma {:induction false} FileDescribes(data: bytes, p: Plan) returns (m: Index)
    requires IsFile(data, p)
    ensures Describes(data, p.hashLen, m) && Valid(m) && m.packNames == p.names && m.count == |p.objs|
    ensures m.hashLen == p.hashLen && Laid(m)
    ensures Counts(FanOf(m), OidsOf(m)) && OidsOf(m) == IdsOf(p.objs)
    ensures forall k :: 0 <= k < |p.objs| ==>
      && PackAt(m, k) == p.objs[k].pack
      && OffsetAt(m, k) == if p.objs[k].off < 0x8000_0000_0000_0000 then Some(p.objs[k].off) else None
  {
    hide IsFile, Terminated, Fanout, Counts, Monotone, Less, HeaderOk, GoodToc, Collected, PackNames, Tiled, Inside;
    var chunks := ChunksOf(data, p);
    m := IndexOf(data, p, chunks);
    HeaderReads(data, p);
    TablesRead(data, p, m);
    IdsAreRead(data, p, m);
    FileParts(data, p);
    forall k: nat | k < |p.objs|
      ensures PackAt(m, k) == p.objs[k].pack < |p.names|
      ensures OffsetAt(m, k) == if p.objs[k].off < 0x8000_0000_0000_0000 then Some(p.objs[k].off) else None
    {
      RowIsRead(data, p, m, k);
      SaneAt(p, k);
    }
    assert Ascending(OidsOf(m)) by { SaneOrder(p); }
    PacksAreRead(m);
    hide Sane, OffsetAt, Plan.Table, HasChunks, Laid, Readable, NamesRead, FanoutRead;
    assert Midx.IdsRead(m);
    assert Reads(data, p.hashLen, chunks, m);
  }

  lemma PacksAreRead(m: Index)
    requires Laid(m) && Readable(m) && forall k :: 0 <= k < m.count ==> PackAt(m, k) < m.numPacks
    ensures PacksRead(m)
  {
    hide Be32, Tiled;
    forall k | 0 <= k < m.count
      ensures Be32(m.data, m.chunks[OOFF].off + 8 * k) < m.numPacks
    {
      assert PackAt(m, k) < m.numPacks;
    }
  }

  lemma SaneOrder(p: Plan)
    requires Sane(p)
    ensures Ascending(IdsOf(p.objs))
  {
  }

  lemma FileParts(data: bytes, p: Plan)
    requires IsFile(data, p)
    ensures Sane(p) && Placed(p) && p.end + p.hashLen <= |data| < U63
    ensures Terminated(p.names) <= data[p.pnam..p.oidf] && FanHolds(data, p.oidf, IdsOf(p.objs))
  {
  }

  lemma {:induction false} TablesRead(data: bytes, p: Plan, m: Index)
    requires IsFile(data, p) && HasChunks(m.chunks, p) && m == IndexOf(data, p, m.chunks)
    requires Inside(m.chunks, |data| - p.hashLen) && Tiled(m.chunks, |data| - p.hashLen)
    ensures Laid(m) && Readable(m) && NamesRead(m) && FanoutRead(m) && Counts(FanOf(m), IdsOf(p.objs))
  {
    hide Terminated, Fanout, Counts, Monotone, Less, FanHolds, Inside, Tiled;
    FileParts(data, p);
    hide IsFile;
    FanReads(data, p.oidf, IdsOf(p.objs));
    assert data[p.pnam..p.pnam + (p.oidf - p.pnam)] == data[p.pnam..p.oidf];
  }

  /**
   Opening the file and looking an id up gives the pack and the offset written for it, or nothing when the
   offset is 2^63 or more; an id that is not in the file is not found.
   */
  method FindInFile(data: bytes, ghost p: Plan, oid: bytes) returns (r: Found)
    requires IsFile(data, p) && |oid| == p.hashLen
    ensures forall k :: 0 <= k < |p.objs| && p.objs[k].id == oid ==>
      r == if p.objs[k].off < 0x8000_0000_0000_0000 then Hit(p.objs[k].pack, p.objs[k].off) else Miss
    ensures (forall k :: 0 <= k < |p.objs| ==> p.objs[k].id != oid) ==> r == Miss
  {
    hide *;
    HashLenIs(data, p);
    var m := FileDescribes(data, p);
    var got := OpenMidx(data, |oid|);
    r := Find(got.value, oid);
    RowIs(m, oid);
    assert forall k :: 0 <= k < |p.objs| ==> OidsOf(m)[k] == p.objs[k].id;
  }

  lemma HashLenIs(data: bytes, p: Plan)
    requires IsFile(data, p)
    ensures p.hashLen in {20, 32} && |data| < U63
  {
    hide FanHolds, HasRow, PutBe32, HasTable, Terminated, Ascending;
  }
}
