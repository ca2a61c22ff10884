/** Multi-pack-index files: the chunk table, the four required chunks, and lookup across packs. */
module Midx {
  import opened Options
  import opened Bytes
  import opened FanoutSearch

  const HeaderSize := 12
  const TocEntry := 12
  const Zeros: bytes := [0, 0, 0, 0]
  const PNAM: bytes := [0x50, 0x4e, 0x41, 0x4d]
  const OIDF: bytes := [0x4f, 0x49, 0x44, 0x46]
  const OIDL: bytes := [0x4f, 0x49, 0x44, 0x4c]
  const OOFF: bytes := [0x4f, 0x4f, 0x46, 0x46]
  const LOFF: bytes := [0x4c, 0x4f, 0x46, 0x46]

  datatype Extent = Extent(off: int, len: int)

  type Chunks = map<bytes, Extent>

  /** SliceBounds stands for the run-time panic of a slice whose bounds are out of range. */
  datatype Error = ShortFile | BadMagic | BadVersion | AlgoMismatch | Truncated | Corrupt | SliceBounds

  datatype Result<+T> = Ok(value: T) | Err(error: Error)

  // ---------------------------------------------------------------- the chunk table

  predicate TocFits(data: bytes, n: nat) {
    HeaderSize + (n + 1) * TocEntry <= |data|
  }

  function TocId(data: bytes, n: nat, i: nat): (id: bytes)
    requires i <= n && TocFits(data, n)
  {
    data[HeaderSize + i * TocEntry..HeaderSize + i * TocEntry + 4]
  }

  /** The offset as the reader sees it: cast to int64, so 2^63 and above read as negative. */
  function TocOff(data: bytes, n: nat, i: nat): int
    requires i <= n && TocFits(data, n)
  {
    Int64(Be64(data, HeaderSize + i * TocEntry + 4))
  }

  function ExtentAt(data: bytes, n: nat, i: nat): Extent
    requires i < n && TocFits(data, n)
  {
    Extent(TocOff(data, n, i), Int64(TocOff(data, n, i + 1) - TocOff(data, n, i)))
  }

  ghost predicate EntryOk(data: bytes, hashLen: nat, n: nat, i: nat)
    requires i < n && TocFits(data, n)
  {
    && TocId(data, n, i) != Zeros
    && TocOff(data, n, i) % 4 == 0
    && TocOff(data, n, i) <= TocOff(data, n, i + 1) <= |data| - hashLen
  }

  ghost predicate Listed(data: bytes, n: nat, k: nat, id: bytes)
    requires k <= n && TocFits(data, n)
  {
    exists i :: 0 <= i < k && TocId(data, n, i) == id
  }

  /** chunks holds exactly the first k entries. */
  ghost predicate Collected(data: bytes, n: nat, k: nat, chunks: Chunks)
    requires k <= n && TocFits(data, n)
  {
    && (forall i :: 0 <= i < k ==> TocId(data, n, i) in chunks && chunks[TocId(data, n, i)] == ExtentAt(data, n, i))
    && (forall id :: id in chunks ==> Listed(data, n, k, id))
    && (forall i, j :: 0 <= i < j < k ==> TocId(data, n, i) != TocId(data, n, j))
  }

  ghost predicate HasRequired(chunks: Chunks) {
    PNAM in chunks && OIDF in chunks && OIDL in chunks && OOFF in chunks
  }

  ghost predicate GoodToc(data: bytes, hashLen: nat, n: nat) {
    && HeaderSize + (n + 1) * TocEntry <= |data| - hashLen
    && TocId(data, n, n) == Zeros && TocOff(data, n, n) <= |data| - hashLen
    && (forall i :: 0 <= i < n ==> EntryOk(data, hashLen, n, i))
    && (forall i, j :: 0 <= i < j < n ==> TocId(data, n, i) != TocId(data, n, j))
    && Listed(data, n, n, PNAM) && Listed(data, n, n, OIDF) && Listed(data, n, n, OIDL) && Listed(data, n, n, OOFF)
  }

  /** The table itself, or the chunks it describes, do not fit before the trailer. */
  ghost predicate CutShort(data: bytes, hashLen: nat, n: nat) {
    || HeaderSize + (n + 1) * TocEntry > |data| - hashLen
    || (TocId(data, n, n) == Zeros && TocOff(data, n, n) > |data| - hashLen)
  }

  /** parseChunkTable accepts exactly the good tables and records one extent per entry. */
  method ParseChunkTable(data: bytes, hashLen: nat, n: nat) returns (r: Result<Chunks>)
    ensures r.Ok? <==> GoodToc(data, hashLen, n)
    ensures r.Ok? ==> Collected(data, n, n, r.value) && HasRequired(r.value)
    ensures r.Err? ==> r.error in {Truncated, Corrupt}
    ensures r == Err(Truncated) <==> CutShort(data, hashLen, n)
  {
    hide TocId, TocOff;
    if HeaderSize + (n + 1) * TocEntry > |data| - hashLen {
      return Err(Truncated);
    }
    var bodyEnd := |data| - hashLen;
    if TocId(data, n, n) != Zeros {
      return Err(Corrupt);
    }
    if TocOff(data, n, n) > bodyEnd {
      return Err(Truncated);
    }
    var chunks: Chunks := map[];
    for i := 0 to n
      invariant Collected(data, n, i, chunks)
      invariant forall j :: 0 <= j < i ==> EntryOk(data, hashLen, n, j)
    {
      var id, off, next := TocId(data, n, i), TocOff(data, n, i), TocOff(data, n, i + 1);
      if id == Zeros || off % 4 != 0 || next < off || next > bodyEnd {
        assert !EntryOk(data, hashLen, n, i);
        return Err(Corrupt);
      }
      if id in chunks {
        assert Listed(data, n, i, id);
        return Err(Corrupt);
      }
      chunks := chunks[id := Extent(off, Int64(next - off))];
    }
    if PNAM !in chunks || OIDF !in chunks || OIDL !in chunks || OOFF !in chunks {
      assert forall id :: Listed(data, n, n, id) ==> id in chunks;
      return Err(Corrupt);
    }
    assert forall id :: id in chunks ==> Listed(data, n, n, id);
    return Ok(chunks);
  }

  lemma {:induction false} OffsetsAscend(data: bytes, hashLen: nat, n: nat, i: nat, j: nat)
    requires GoodToc(data, hashLen, n) && i <= j <= n
    ensures TocOff(data, n, i) <= TocOff(data, n, j)
    decreases j - i
  {
    hide TocOff, TocId;
    if i < j {
      assert EntryOk(data, hashLen, n, i);
      OffsetsAscend(data, hashLen, n, i + 1, j);
    }
  }

  ghost predicate Inside(chunks: Chunks, bodyEnd: int) {
    forall id :: id in chunks ==>
      0 <= chunks[id].off && 0 <= chunks[id].len && chunks[id].off + chunks[id].len <= bodyEnd
  }

  /** Each chunk lies before the trailer, unless its offset, cast to int64, is negative. */
  ghost predicate Tiled(chunks: Chunks, bodyEnd: int) {
    forall id :: id in chunks ==>
      chunks[id].off < 0 || (0 <= chunks[id].len && chunks[id].off + chunks[id].len <= bodyEnd)
  }

  ghost predicate Disjoint(chunks: Chunks) {
    forall a, b :: a in chunks && b in chunks && a != b ==>
      || chunks[a].off + chunks[a].len <= chunks[b].off
      || chunks[b].off + chunks[b].len <= chunks[a].off
  }

  lemma EntryBounds(data: bytes, hashLen: nat, n: nat, i: nat)
    requires GoodToc(data, hashLen, n) && i < n && TocOff(data, n, i) >= 0 && |data| < U63
    ensures ExtentAt(data, n, i).len == TocOff(data, n, i + 1) - TocOff(data, n, i)
    ensures 0 <= TocOff(data, n, i) <= TocOff(data, n, i + 1) <= |data| - hashLen
  {
    hide TocOff, TocId;
    assert EntryOk(data, hashLen, n, i);
  }

  lemma {:induction false} EntriesOrdered(data: bytes, hashLen: nat, n: nat, i: nat, j: nat)
    requires GoodToc(data, hashLen, n) && i < j < n && TocOff(data, n, 0) >= 0 && |data| < U63
    ensures TocOff(data, n, i) + ExtentAt(data, n, i).len <= TocOff(data, n, j)
  {
    hide TocOff, TocId, GoodToc;
    assert TocFits(data, n) by { TableFits(data, hashLen, n); }
    OffsetsAscend(data, hashLen, n, 0, i);
    EntryBounds(data, hashLen, n, i);
    OffsetsAscend(data, hashLen, n, i + 1, j);
  }

  /** The entry an extent was recorded from. */
  lemma {:induction false} EntryOf(data: bytes, n: nat, chunks: Chunks, id: bytes) returns (i: nat)
    requires TocFits(data, n) && Collected(data, n, n, chunks) && id in chunks
    ensures i < n && TocId(data, n, i) == id && chunks[id] == ExtentAt(data, n, i)
  {
    hide TocOff, TocId;
    assert Listed(data, n, n, id);
    i :| 0 <= i < n && TocId(data, n, i) == id;
  }

  /**
   The chunks of an accepted table never overlap and lie before the trailer exactly when the first
   recorded offset is below 2^63: the only bound the reader does not check.
   */
  lemma {:induction false} ChunksTile(data: bytes, hashLen: nat, n: nat, chunks: Chunks)
    requires |data| < U63 && TocFits(data, n) && GoodToc(data, hashLen, n) && Collected(data, n, n, chunks)
    ensures TocOff(data, n, 0) >= 0 ==> Inside(chunks, |data| - hashLen) && Disjoint(chunks)
    ensures TocOff(data, n, 0) < 0 ==> !Inside(chunks, |data| - hashLen)
    ensures Tiled(chunks, |data| - hashLen)
  {
    hide TocOff, TocId, GoodToc, Collected;
    forall id | id in chunks && chunks[id].off >= 0
      ensures 0 <= chunks[id].len && chunks[id].off + chunks[id].len <= |data| - hashLen
    {
      var i := EntryOf(data, n, chunks, id);
      EntryBounds(data, hashLen, n, i);
    }
    if TocOff(data, n, 0) < 0 {
      FirstChunk(data, hashLen, n, chunks);
    } else {
      forall id | id in chunks
        ensures 0 <= chunks[id].off && 0 <= chunks[id].len && chunks[id].off + chunks[id].len <= |data| - hashLen
      {
        var i := EntryOf(data, n, chunks, id);
        OffsetsAscend(data, hashLen, n, 0, i);
        EntryBounds(data, hashLen, n, i);
      }
      forall a, b | a in chunks && b in chunks && a != b
        ensures || chunks[a].off + chunks[a].len <= chunks[b].off
                || chunks[b].off + chunks[b].len <= chunks[a].off
      {
        var i := EntryOf(data, n, chunks, a);
        var j := EntryOf(data, n, chunks, b);
        if i < j {
          EntriesOrdered(data, hashLen, n, i, j);
        } else {
          assert j != i;
          EntriesOrdered(data, hashLen, n, j, i);
        }
      }
    }
  }

  lemma {:induction false} FirstChunk(data: bytes, hashLen: nat, n: nat, chunks: Chunks)
    requires TocFits(data, n) && GoodToc(data, hashLen, n) && Collected(data, n, n, chunks)
    ensures n > 0 && TocId(data, n, 0) in chunks && chunks[TocId(data, n, 0)].off == TocOff(data, n, 0)
  {
    hide TocOff, TocId;
  }

  lemma TableFits(data: bytes, hashLen: nat, n: nat)
    requires GoodToc(data, hashLen, n)
    ensures TocFits(data, n)
  {
  }

  // ---------------------------------------------------------------- pack names

  /** The names as the chunk stores them, each closed by a NUL. */
  function Terminated(names: seq<bytes>): (b: bytes) {
    if names == [] then [] else names[0] + [0] + Terminated(names[1..])
  }

  lemma {:induction false} TerminatedSnoc(names: seq<bytes>, name: bytes)
    ensures Terminated(names + [name]) == Terminated(names) + name + [0]
  {
    if names == [] {
      assert Terminated([name][1..]) == [];
    } else {
      assert (names + [name])[1..] == names[1..] + [name];
      TerminatedSnoc(names[1..], name);
    }
  }

  ghost predicate NulFree(names: seq<bytes>) {
    forall i :: 0 <= i < |names| ==> 0 !in names[i]
  }

  /** At most one list of that many NUL-free names begins the chunk. */
  lemma {:induction false} TerminatedUnique(a: seq<bytes>, b: seq<bytes>, body: bytes)
    requires |a| == |b| && NulFree(a) && NulFree(b)
    requires Terminated(a) <= body && Terminated(b) <= body
    ensures a == b
  {
    if a != [] {
      var x, y := a[0], b[0];
      assert x + [0] <= body && y + [0] <= body by {
        PrefixOfConcat(x + [0], Terminated(a[1..]), body);
        PrefixOfConcat(y + [0], Terminated(b[1..]), body);
      }
      FirstNul(x, y, body);
      var rest := body[|x| + 1..];
      SuffixOfConcat(x + [0], Terminated(a[1..]), body);
      SuffixOfConcat(y + [0], Terminated(b[1..]), body);
      TerminatedUnique(a[1..], b[1..], rest);
      assert a == [a[0]] + a[1..] && b == [b[0]] + b[1..];
    }
  }

  lemma PrefixOfConcat(p: bytes, q: bytes, body: bytes)
    requires p + q <= body
    ensures p <= body
  {
    assert p == (p + q)[..|p|];
  }

  lemma SuffixOfConcat(p: bytes, q: bytes, body: bytes)
    requires p + q <= body
    ensures |p| <= |body| && q <= body[|p|..]
  {
    assert q == (p + q)[|p|..];
  }

  lemma FirstNul(x: bytes, y: bytes, body: bytes)
    requires x + [0] <= body && y + [0] <= body && 0 !in x && 0 !in y
    ensures x == y
  {
    assert body[|x|] == (x + [0])[|x|] == 0 && body[|y|] == (y + [0])[|y|] == 0;
    assert forall i :: 0 <= i < |x| ==> body[i] == (x + [0])[i] == x[i] != 0;
    assert forall i :: 0 <= i < |y| ==> body[i] == (y + [0])[i] == y[i] != 0;
    assert x == (x + [0])[..|x|] && y == (y + [0])[..|y|];
  }

  /** bytes.IndexByte for NUL. */
  method IndexNul(body: bytes) returns (k: int)
    ensures k < 0 ==> 0 !in body
    ensures k >= 0 ==> k < |body| && body[k] == 0 && 0 !in body[..k]
  {
    var i := 0;
    while i < |body|
      invariant i <= |body| && 0 !in body[..i]
    {
      if body[i] == 0 {
        return i;
      }
      i := i + 1;
    }
    return -1;
  }

  ghost predicate PackNames(body: bytes, numPacks: nat, ver: nat, names: seq<bytes>) {
    && |names| == numPacks && NulFree(names) && Terminated(names) <= body
    && (ver == 1 ==> Ascending(names))
  }

  /** parsePackNames yields the one list of num_packs names the chunk begins with, or refuses. */
  method ParsePackNames(body: bytes, numPacks: nat, ver: nat) returns (r: Result<seq<bytes>>)
    ensures r.Ok? ==> PackNames(body, numPacks, ver, r.value)
    ensures forall names :: PackNames(body, numPacks, ver, names) ==> r == Ok(names)
    ensures r.Err? ==> r.error == Corrupt
  {
    hide Compare;
    var rest := body;
    var names: seq<bytes> := [];
    while rest != [] && |names| < numPacks
      invariant |names| <= numPacks && NulFree(names) && Terminated(names) + rest == body
      decreases |rest|
    {
      var k := IndexNul(rest);
      if k < 0 {
        NoMoreNames(body, names, rest, numPacks);
        return Err(Corrupt);
      }
      TerminatedSnoc(names, rest[..k]);
      assert rest == rest[..k] + [0] + rest[k + 1..];
      names, rest := names + [rest[..k]], rest[k + 1..];
    }
    if |names| != numPacks {
      NoMoreNames(body, names, rest, numPacks);
      return Err(Corrupt);
    }
    assert Terminated(names) <= body;
    forall other | |other| == numPacks && NulFree(other) && Terminated(other) <= body
      ensures other == names
    {
      TerminatedUnique(other, names, body);
    }
    if ver == 1 {
      var sorted := CheckAscending(names);
      if !sorted {
        return Err(Corrupt);
      }
    }
    return Ok(names);
  }

  /** With no NUL left after the names read so far there is no longer list. */
  lemma {:induction false} NoMoreNames(body: bytes, names: seq<bytes>, rest: bytes, more: nat)
    requires NulFree(names) && Terminated(names) + rest == body && 0 !in rest && |names| < more
    ensures forall other :: |other| == more && NulFree(other) ==> !(Terminated(other) <= body)
  {
    forall other | |other| == more && NulFree(other) && Terminated(other) <= body
      ensures false
    {
      TerminatedTake(other, |names|);
      var front := other[..|names|];
      PrefixOfConcat(Terminated(front), Terminated(other[|names|..]), body);
      TerminatedUnique(front, names, body);
      SuffixOfConcat(Terminated(front), Terminated(other[|names|..]), body);
      var x := other[|names|];
      assert other[|names|..][0] == x;
      PrefixOfConcat(x + [0], Terminated(other[|names|..][1..]), rest);
      NulInside(x, rest);
    }
  }

  lemma NulInside(x: bytes, rest: bytes)
    requires x + [0] <= rest
    ensures 0 in rest
  {
    assert rest[|x|] == (x + [0])[|x|] == 0;
  }

  lemma {:induction false} TerminatedTake(names: seq<bytes>, k: nat)
    requires k <= |names|
    ensures Terminated(names) == Terminated(names[..k]) + Terminated(names[k..])
  {
    if k > 0 {
      TerminatedTake(names[1..], k - 1);
      assert names[..k][1..] == names[1..][..k - 1] && names[k..] == names[1..][k - 1..];
    } else {
      assert names[..0] == [] && names[0..] == names;
    }
  }

  /** The adjacent comparisons of parsePackNames and validateOIDLookup. */
  method CheckAscending(names: seq<bytes>) returns (ok: bool)
    ensures ok <==> Ascending(names)
  {
    hide Compare;
    var i := 1;
    while i < |names|
      invariant i >= 1
      invariant forall a, b :: 0 <= a < b < i && b < |names| ==> Less(names[a], names[b])
    {
      if Compare(names[i - 1], names[i]) >= 0 {
        assert !Less(names[i - 1], names[i]);
        return false;
      }
      forall a | 0 <= a < i
        ensures Less(names[a], names[i])
      {
        if a < i - 1 {
          LessTransitive(names[a], names[i - 1], names[i]);
        }
      }
      i := i + 1;
    }
    return true;
  }

  // ---------------------------------------------------------------- the whole file

  datatype Index = Index(data: bytes, hashLen: nat, ver: nat, numPacks: nat, count: nat, chunks: Chunks,
                         packNames: seq<bytes>)

  function OidRows(m: Index): Rows
    requires OIDL in m.chunks && m.chunks[OIDL].off >= 0
  {
    Rows(m.data, m.chunks[OIDL].off, m.hashLen, m.hashLen, m.count)
  }

  /** The layout every lookup relies on. */
  ghost predicate Laid(m: Index) {
    && m.hashLen >= 1 && m.hashLen <= |m.data| && HasRequired(m.chunks) && Inside(m.chunks, |m.data| - m.hashLen)
    && m.chunks[OIDF].len == FanoutLen
    && m.chunks[OIDL].len == m.count * m.hashLen
    && m.chunks[OOFF].len == m.count * 8
  }

  lemma LaidFits(m: Index)
    requires Laid(m)
    ensures Fits(OidRows(m)) && m.chunks[OIDF].off + FanoutLen <= |m.data|
    ensures m.chunks[OOFF].off + 8 * m.count <= |m.data|
  {
  }

  ghost function FanOf(m: Index): seq<nat>
    requires Laid(m)
  {
    Fanout(m.data, m.chunks[OIDF].off)
  }

  ghost function OidsOf(m: Index): seq<bytes>
    requires Laid(m)
  {
    LaidFits(m);
    Names(OidRows(m))
  }

  function PackAt(m: Index, k: nat): (pack: nat)
    requires Laid(m) && k < m.count
    ensures pack < U32
  {
    LaidFits(m);
    Be32(m.data, m.chunks[OOFF].off + 8 * k)
  }

  ghost predicate Valid(m: Index) {
    FanoutOk(m) && |m.packNames| == m.numPacks && Ascending(OidsOf(m))
  }

  /** The sub-slice, or nothing where Go would panic. */
  function Slice(data: bytes, e: Extent): (r: Result<bytes>)
    ensures r.Ok? ==> 0 <= e.off && e.off + e.len <= |data| && |r.value| == e.len
  {
    if 0 <= e.off && 0 <= e.len && e.off + e.len <= |data| then Ok(data[e.off..e.off + e.len]) else Err(SliceBounds)
  }

  ghost predicate HasMagic(data: bytes, hashLen: nat) {
    |data| >= HeaderSize + hashLen && data[..4] == [0x4d, 0x49, 0x44, 0x58]
  }

  ghost predicate HeaderOk(data: bytes, hashLen: nat) {
    && HasMagic(data, hashLen)
    && data[4] in {1, 2} && data[5] == (if hashLen == 20 then 1 else 2) && data[7] == 0
  }

  /** The header's checks, and what each refuses. */
  method CheckHeader(data: bytes, hashLen: nat) returns (e: Option<Error>)
    ensures e == None <==> HeaderOk(data, hashLen)
    ensures e == Some(ShortFile) <==> |data| < HeaderSize + hashLen
    ensures e == Some(BadMagic) <==> |data| >= HeaderSize + hashLen && !HasMagic(data, hashLen)
    ensures e == Some(BadVersion) <==> HasMagic(data, hashLen) && data[4] !in {1, 2}
    ensures e == Some(AlgoMismatch) <==>
      HasMagic(data, hashLen) && data[4] in {1, 2} && data[5] != (if hashLen == 20 then 1 else 2)
    ensures e.Some? ==> e.value in {ShortFile, BadMagic, BadVersion, AlgoMismatch, Corrupt}
  {
    if |data| < HeaderSize + hashLen {
      return Some(ShortFile);
    }
    if data[..4] != [0x4d, 0x49, 0x44, 0x58] {
      return Some(BadMagic);
    }
    if data[4] != 1 && data[4] != 2 {
      return Some(BadVersion);
    }
    if data[5] != (if hashLen == 20 then 1 else 2) {
      return Some(AlgoMismatch);
    }
    return if data[7] != 0 then Some(Corrupt) else None;
  }

  ghost predicate FanoutOk(m: Index) {
    && Laid(m) && Monotone(FanOf(m)) && m.count == FanOf(m)[255]
    && forall k :: 0 <= k < m.count ==> PackAt(m, k) < m.numPacks
  }

  /** What every reader below relies on. */
  ghost predicate Readable(m: Index) {
    && m.hashLen in {20, 32} && m.hashLen <= |m.data| && HasRequired(m.chunks)
    && Tiled(m.chunks, |m.data| - m.hashLen)
  }

  ghost predicate NamesRead(m: Index)
    requires Readable(m)
  {
    && m.chunks[PNAM].off >= 0
    && PackNames(Slice(m.data, m.chunks[PNAM]).value, m.numPacks, m.ver, m.packNames)
  }

  ghost predicate FanoutRead(m: Index)
    requires Readable(m)
  {
    && m.chunks[OIDF].len == FanoutLen && m.chunks[OIDF].off >= 0
    && Monotone(Fanout(m.data, m.chunks[OIDF].off)) && m.count == Fanout(m.data, m.chunks[OIDF].off)[255]
    && m.chunks[OIDL].len == m.count * m.hashLen && m.chunks[OOFF].len == m.count * 8
  }

  /** A file without objects is not asked where its pack indices lie. */
  ghost predicate PacksRead(m: Index)
    requires Readable(m) && m.chunks[OOFF].len == m.count * 8
  {
    m.count > 0 ==>
      m.chunks[OOFF].off >= 0 && forall k :: 0 <= k < m.count ==> Be32(m.data, m.chunks[OOFF].off + 8 * k) < m.numPacks
  }

  /** Nor one with fewer than two where its ids lie. */
  ghost predicate IdsRead(m: Index)
    requires Readable(m) && m.chunks[OIDL].len == m.count * m.hashLen
  {
    m.count >= 2 ==> m.chunks[OIDL].off >= 0 && Ascending(Names(OidRows(m)))
  }

  /** m has the fields the header and the chunk table give it. */
  ghost predicate HasFields(data: bytes, hashLen: nat, chunks: Chunks, m: Index)
    requires |data| >= HeaderSize
  {
    m.data == data && m.hashLen == hashLen && m.chunks == chunks && m.ver == data[4] && m.numPacks == Be32(data, 8)
  }

  /** m is what the chunks of the file say, as far as they are read. */
  ghost predicate Reads(data: bytes, hashLen: nat, chunks: Chunks, m: Index)
    requires |data| >= HeaderSize
  {
    HasFields(data, hashLen, chunks, m) && Readable(m) && NamesRead(m) && FanoutRead(m) && PacksRead(m) && IdsRead(m)
  }

  /** The fan-out, the pack indices or the ids are read at a negative offset, and all before them was well. */
  ghost predicate PanicsBehindNames(m: Index)
    requires Readable(m)
  {
    || (m.chunks[OIDF].len == FanoutLen && m.chunks[OIDF].off < 0)
    || (FanoutRead(m) && m.count > 0 && m.chunks[OOFF].off < 0)
    || (FanoutRead(m) && PacksRead(m) && m.count >= 2 && m.chunks[OIDL].off < 0)
  }

  /** All was well up to a chunk that is read and whose offset is negative. */
  ghost predicate Panics(m: Index)
    requires Readable(m)
  {
    m.chunks[PNAM].off < 0 || (NamesRead(m) && PanicsBehindNames(m))
  }

  ghost predicate PanicsOn(data: bytes, hashLen: nat, chunks: Chunks)
    requires |data| >= HeaderSize
  {
    exists m :: HasFields(data, hashLen, chunks, m) && Readable(m) && Panics(m)
  }

  /** m is what the file says. */
  ghost predicate Describes(data: bytes, hashLen: nat, m: Index) {
    && HeaderOk(data, hashLen) && GoodToc(data, hashLen, data[6])
    && Collected(data, data[6], data[6], m.chunks) && Reads(data, hashLen, m.chunks, m)
  }

  lemma SameChunks(data: bytes, n: nat, a: Chunks, b: Chunks)
    requires TocFits(data, n) && Collected(data, n, n, a) && Collected(data, n, n, b)
    ensures a == b
  {
    hide TocId, TocOff, ExtentAt;
    forall id
      ensures id in a ==> id in b && a[id] == b[id]
      ensures id in b ==> id in a
    {
      assert id in a || id in b ==> Listed(data, n, n, id);
    }
  }

  /**
   OpenMidx accepts exactly the files that say something, with what they say, and stops with an out-of-range
   slice exactly when the first chunk it reads that it cannot use has an offset of 2^63 or more. With a first
   offset below that, what it accepts has the layout every look-up relies on, and it never stops that way.
   */
  method OpenMidx(data: bytes, hashLen: nat) returns (r: Result<Index>)
    requires hashLen in {20, 32} && |data| < U63
    ensures forall m :: Describes(data, hashLen, m) <==> r == Ok(m)
    ensures r == Err(SliceBounds) <==>
      && HeaderOk(data, hashLen) && GoodToc(data, hashLen, data[6])
      && exists chunks :: Collected(data, data[6], data[6], chunks) && PanicsOn(data, hashLen, chunks)
    ensures r.Ok? ==> HeaderOk(data, hashLen) && GoodToc(data, hashLen, data[6])
    ensures r.Ok? && TocOff(data, data[6], 0) >= 0 ==> Valid(r.value) && Disjoint(r.value.chunks)
    ensures r == Err(SliceBounds) ==> TocOff(data, data[6], 0) < 0
    ensures r == Err(ShortFile) <==> |data| < HeaderSize + hashLen
    ensures r == Err(BadMagic) <==> |data| >= HeaderSize + hashLen && !HasMagic(data, hashLen)
    ensures r == Err(BadVersion) <==> HasMagic(data, hashLen) && data[4] !in {1, 2}
    ensures r == Err(AlgoMismatch) <==>
      HasMagic(data, hashLen) && data[4] in {1, 2} && data[5] != (if hashLen == 20 then 1 else 2)
    ensures r == Err(Truncated) <==> HeaderOk(data, hashLen) && CutShort(data, hashLen, data[6])
  {
    hide HasMagic, CutShort, GoodToc, Collected, TocOff, Reads, PanicsOn, Ascending, Tiled, Inside;
    var fault := CheckHeader(data, hashLen);
    if fault.Some? {
      return Err(fault.value);
    }
    var n: nat := data[6];
    var toc := ParseChunkTable(data, hashLen, n);
    if toc.Err? {
      return Err(toc.error);
    }
    var chunks := toc.value;
    assert TocFits(data, n) by { TableFits(data, hashLen, n); }
    ChunksTile(data, hashLen, n, chunks);
    forall other | Collected(data, n, n, other)
      ensures other == chunks
    {
      SameChunks(data, n, other, chunks);
    }
    r := ReadChunks(data, hashLen, chunks);
    forall m | Reads(data, hashLen, chunks, m)
      ensures m.chunks == chunks
    {
      ReadsFields(data, hashLen, chunks, m);
    }
    if TocOff(data, n, 0) >= 0 {
      InsideNeverPanics(data, hashLen, chunks);
      if r.Ok? {
        ReadsIsValid(data, hashLen, chunks, r.value);
      }
    }
  }

  lemma ReadsFields(data: bytes, hashLen: nat, chunks: Chunks, m: Index)
    requires |data| >= HeaderSize && Reads(data, hashLen, chunks, m)
    ensures m.chunks == chunks
  {
    hide NamesRead, FanoutRead, PacksRead, IdsRead;
  }

  lemma ReadsIsValid(data: bytes, hashLen: nat, chunks: Chunks, m: Index)
    requires |data| >= HeaderSize && Reads(data, hashLen, chunks, m) && Inside(chunks, |data| - hashLen)
    ensures m.chunks == chunks && Valid(m)
  {
    hide Terminated, NulFree, Fanout, Monotone, Less;
    assert m.count < 2 ==> Ascending(OidsOf(m));
  }

  lemma InsideNeverPanics(data: bytes, hashLen: nat, chunks: Chunks)
    requires |data| >= HeaderSize && Inside(chunks, |data| - hashLen)
    ensures !PanicsOn(data, hashLen, chunks)
  {
    hide NamesRead, FanoutRead, PacksRead;
  }

  /** OpenMidx behind the chunk table: the names, the fan-out with its cross-checks, the order of the ids. */
  method ReadChunks(data: bytes, hashLen: nat, chunks: Chunks) returns (r: Result<Index>)
    requires hashLen in {20, 32} && |data| >= HeaderSize + hashLen && HasRequired(chunks)
    requires Tiled(chunks, |data| - hashLen)
    ensures forall m :: Reads(data, hashLen, chunks, m) <==> r == Ok(m)
    ensures r == Err(SliceBounds) <==> PanicsOn(data, hashLen, chunks)
    ensures r.Err? ==> r.error in {Corrupt, SliceBounds}
  {
    hide PackNames, Fanout, Monotone, Ascending;
    var numPacks := Be32(data, 8);
    var bare := Index(data, hashLen, data[4], numPacks, 0, chunks, []);
    var pnam := Slice(data, chunks[PNAM]);
    if pnam.Err? {
      assert HasFields(data, hashLen, chunks, bare) && Panics(bare);
      return Err(pnam.error);
    }
    var names := ParsePackNames(pnam.value, numPacks, data[4]);
    if names.Err? {
      return Err(names.error);
    }
    var m := bare.(packNames := names.value);
    assert forall d :: HasFields(data, hashLen, chunks, d) && Readable(d) && NamesRead(d) ==> d == m.(count := d.count);
    r := ReadTables(m);
    assert forall c: nat :: HasFields(data, hashLen, chunks, m.(count := c)) && Readable(m.(count := c));
  }

  /** What follows the names, for an index whose count is still to be read. */
  method ReadTables(m: Index) returns (r: Result<Index>)
    requires Readable(m)
    ensures forall c: nat ::
      (FanoutRead(m.(count := c)) && PacksRead(m.(count := c)) && IdsRead(m.(count := c))) <==> r == Ok(m.(count := c))
    ensures r.Ok? ==> r.value == m.(count := r.value.count)
    ensures r == Err(SliceBounds) <==> exists c: nat :: PanicsBehindNames(m.(count := c))
    ensures r.Err? ==> r.error in {Corrupt, SliceBounds}
  {
    hide Fanout, Monotone, Ascending;
    r := ParseFanout(m);
    if r.Ok? {
      var ok := ValidateOidLookup(r.value);
      if ok != Ok(true) {
        r := Err(if ok == Ok(false) then Corrupt else SliceBounds);
      }
    }
  }

  /** The last loop of parseFanout: every row names a pack the file lists. */
  method CheckPackIndices(m: Index) returns (r: Result<bool>)
    requires Readable(m) && m.chunks[OOFF].len == m.count * 8
    ensures r == Err(SliceBounds) <==> m.count > 0 && m.chunks[OOFF].off < 0
    ensures r.Err? ==> r.error == SliceBounds
    ensures r.Ok? ==> r.value == PacksRead(m)
  {
    var ooff := m.chunks[OOFF];
    for k := 0 to m.count
      invariant k > 0 ==> ooff.off >= 0
      invariant ooff.off >= 0 ==> forall j :: 0 <= j < k ==> Be32(m.data, ooff.off + 8 * j) < m.numPacks
    {
      var slot := Slice(m.data, Extent(ooff.off + 8 * k, 4));
      if slot.Err? {
        return Err(SliceBounds);
      }
      if Be32(m.data, ooff.off + 8 * k) >= m.numPacks {
        return Ok(false);
      }
    }
    return Ok(true);
  }

  /** parseFanout, with its cross-checks of the other chunks. */
  method ParseFanout(m: Index) returns (r: Result<Index>)
    requires Readable(m)
    ensures forall c: nat :: FanoutRead(m.(count := c)) && PacksRead(m.(count := c)) <==> r == Ok(m.(count := c))
    ensures r.Ok? ==> r.value == m.(count := r.value.count)
    ensures r == Err(SliceBounds) <==>
      || (m.chunks[OIDF].len == FanoutLen && m.chunks[OIDF].off < 0)
      || exists c: nat :: FanoutRead(m.(count := c)) && c > 0 && m.chunks[OOFF].off < 0
    ensures r.Err? ==> r.error in {Corrupt, SliceBounds}
  {
    hide Fanout, Monotone;
    var oidf := m.chunks[OIDF];
    if oidf.len != FanoutLen {
      return Err(Corrupt);
    }
    var fanout := Slice(m.data, oidf);
    if fanout.Err? {
      return Err(SliceBounds);
    }
    var monotone := ValidateFanout(m.data, oidf.off);
    if !monotone {
      return Err(Corrupt);
    }
    var count := Be32(m.data, oidf.off + 4 * 255);
    assert count == Fanout(m.data, oidf.off)[255];
    assert forall c: nat :: FanoutRead(m.(count := c)) ==> c == count;
    if m.chunks[OIDL].len != count * m.hashLen || m.chunks[OOFF].len != count * 8 {
      return Err(Corrupt);
    }
    var counted := m.(count := count);
    assert FanoutRead(m.(count := count));
    var listed := CheckPackIndices(counted);
    if listed.Err? {
      assert FanoutRead(m.(count := count)) && count > 0 && m.chunks[OOFF].off < 0;
      return Err(SliceBounds);
    }
    return if listed.value then Ok(counted) else Err(Corrupt);
  }

  /** validateOIDLookup. */
  method ValidateOidLookup(m: Index) returns (r: Result<bool>)
    requires Readable(m) && m.chunks[OIDL].len == m.count * m.hashLen
    ensures r == Err(SliceBounds) <==> m.count >= 2 && m.chunks[OIDL].off < 0
    ensures r.Err? ==> r.error == SliceBounds
    ensures r.Ok? ==> r.value == IdsRead(m)
  {
    hide Compare;
    if m.count < 2 {
      return Ok(true);
    }
    var body := Slice(m.data, m.chunks[OIDL]);
    if body.Err? {
      return Err(SliceBounds);
    }
    var rows := OidRows(m);
    var ok := CheckAscending(Names(rows));
    return Ok(ok);
  }

  // ---------------------------------------------------------------- a first offset of 2^63

  /** An entry of the chunk table: four bytes of id and the offset. */
  datatype Entry = Entry(id: bytes, off: nat)

  predicate Encodable(es: seq<Entry>) {
    forall i :: 0 <= i < |es| ==> |es[i].id| == 4 && es[i].off < U64
  }

  function Toc(es: seq<Entry>): (b: bytes)
    requires Encodable(es)
    ensures |b| == TocEntry * |es|
  {
    if es == [] then []
    else
      var last := es[|es| - 1];
      Toc(es[..|es| - 1]) + (last.id + PutBe64(last.off))
  }

  lemma {:induction false} TocAt(es: seq<Entry>, i: nat)
    requires Encodable(es) && i < |es|
    ensures Toc(es)[TocEntry * i..TocEntry * i + TocEntry] == es[i].id + PutBe64(es[i].off)
  {
    hide PutBe64;
    var n := |es| - 1;
    if i < n {
      TocAt(es[..n], i);
      var rest := Toc(es[..n]);
      assert Toc(es)[..|rest|] == rest;
      assert Toc(es)[TocEntry * i..TocEntry * i + TocEntry] == rest[TocEntry * i..TocEntry * i + TocEntry];
    }
  }

  lemma {:induction false} TocReads(data: bytes, es: seq<Entry>, i: nat)
    requires Encodable(es) && i < |es| && TocFits(data, |es| - 1)
    requires data[HeaderSize..HeaderSize + TocEntry * |es|] == Toc(es)
    ensures TocId(data, |es| - 1, i) == es[i].id && TocOff(data, |es| - 1, i) == Int64(es[i].off)
  {
    hide Toc, PutBe64, Int64, Be64;
    var at := HeaderSize + TocEntry * i;
    TocAt(es, i);
    SliceOfSlice(data, HeaderSize, HeaderSize + TocEntry * |es|, TocEntry * i, TocEntry * i + TocEntry);
    var id, off := es[i].id, PutBe64(es[i].off);
    assert data[at..at + TocEntry] == id + off;
    SliceOfSlice(data, at, at + TocEntry, 0, 4);
    SliceOfSlice(data, at, at + TocEntry, 4, TocEntry);
    assert (id + off)[0..4] == id && (id + off)[4..TocEntry] == off;
    Be64Same(data, at + 4, off);
  }

  lemma SliceOfSlice(data: bytes, a: nat, b: nat, c: nat, d: nat)
    requires a <= b <= |data| && c <= d <= b - a
    ensures data[a..b][c..d] == data[a + c..a + d]
  {
    var x, y := data[a..b][c..d], data[a + c..a + d];
    forall k | 0 <= k < d - c
      ensures x[k] == y[k]
    {
    }
    assert x == y;
  }

  lemma Be64Same(data: bytes, at: nat, off: bytes)
    requires at + 8 <= |data| && |off| == 8 && data[at..at + 8] == off
    ensures Be64(data, at) == Be64(off, 0)
  {
    var w := data[at..at + 8];
    assert w[0] == data[at] && w[1] == data[at + 1] && w[2] == data[at + 2] && w[3] == data[at + 3];
    assert w[4] == data[at + 4] && w[5] == data[at + 5] && w[6] == data[at + 6] && w[7] == data[at + 7];
  }

  /** The header of a SHA-1 file with n chunks and no packs. */
  function BareHeader(n: byte): bytes {
    [0x4d, 0x49, 0x44, 0x58, 1, 1, n, 0, 0, 0, 0, 0]
  }

  /** A file with this table, then body, then its trailer of 20 bytes. */
  function File(es: seq<Entry>, body: bytes): bytes
    requires 1 <= |es| <= 0x100 && Encodable(es)
  {
    BareHeader(|es| - 1) + Toc(es) + (body + seq(20, _ => 0))
  }

  ghost predicate GoodStep(es: seq<Entry>, i: nat)
    requires i + 1 < |es|
  {
    && es[i].id != Zeros && es[i].off % 4 == 0
    && Int64(es[i].off) <= Int64(es[i + 1].off) <= Int64(es[|es| - 1].off)
  }

  /** Offsets that ascend as int64 values, from 2^63 on, and end with the body. */
  ghost predicate GoodEntries(es: seq<Entry>, body: bytes) {
    var n := |es| - 1;
    && 1 <= |es| <= 0x100 && Encodable(es) && es[n] == Entry(Zeros, HeaderSize + TocEntry * |es| + |body|)
    && |body| < 0x1_0000
    && (forall i: nat :: i < n ==> GoodStep(es, i))
    && (forall i, j :: 0 <= i < j < n ==> es[i].id != es[j].id)
  }

  lemma FilePieces(es: seq<Entry>, body: bytes)
    requires 1 <= |es| <= 0x100 && Encodable(es)
    ensures var data := File(es, body);
      && |data| == HeaderSize + TocEntry * |es| + |body| + 20 && data[..HeaderSize] == BareHeader(|es| - 1)
      && data[HeaderSize..HeaderSize + TocEntry * |es|] == Toc(es)
  {
    hide Toc;
  }

  lemma Int64Low(v: nat)
    requires v < U63
    ensures Int64(v) == v
  {
  }

  lemma Int64Mod4(v: nat)
    requires v < U64 && v % 4 == 0
    ensures Int64(v) % 4 == 0
  {
    if v < U63 {
      Int64Low(v);
    } else {
      assert (v + U63) % U64 == v - U63;
    }
  }

  /** data has the entries es. */
  ghost predicate HasEntries(data: bytes, es: seq<Entry>)
    requires es != [] && TocFits(data, |es| - 1)
  {
    forall i :: 0 <= i < |es| ==> IsEntry(data, es, i)
  }

  ghost predicate IsEntry(data: bytes, es: seq<Entry>, i: nat)
    requires i < |es| && TocFits(data, |es| - 1)
  {
    TocId(data, |es| - 1, i) == es[i].id && TocOff(data, |es| - 1, i) == Int64(es[i].off)
  }

  lemma FileHasEntries(es: seq<Entry>, body: bytes)
    requires 1 <= |es| <= 0x100 && Encodable(es)
    ensures TocFits(File(es, body), |es| - 1) && HasEntries(File(es, body), es)
  {
    hide Toc, File, TocId, TocOff, Int64;
    FilePieces(es, body);
    forall i | 0 <= i < |es|
      ensures IsEntry(File(es, body), es, i)
    {
      TocReads(File(es, body), es, i);
    }
  }

  lemma FileHasHeader(es: seq<Entry>, body: bytes)
    requires 1 <= |es| <= 0x100 && Encodable(es)
    ensures var data := File(es, body);
      HeaderOk(data, 20) && data[6] == |es| - 1 && data[4] == 1 && Be32(data, 8) == 0
  {
    var data := File(es, body);
    FilePieces(es, body);
    hide Toc, File;
    assert forall k :: 0 <= k < HeaderSize ==> data[k] == data[..HeaderSize][k];
    assert data[..4] == data[..HeaderSize][..4];
  }

  ghost predicate HasName(es: seq<Entry>, id: bytes) {
    exists i :: 0 <= i < |es| - 1 && es[i].id == id
  }

  lemma EntriesGood(data: bytes, es: seq<Entry>, body: bytes, i: nat)
    requires GoodEntries(es, body) && |data| == HeaderSize + TocEntry * |es| + |body| + 20 && i < |es| - 1
    requires HasEntries(data, es)
    ensures EntryOk(data, 20, |es| - 1, i)
  {
    hide TocId, TocOff, Int64;
    assert IsEntry(data, es, i) && IsEntry(data, es, i + 1);
    assert GoodStep(es, i);
    Int64Mod4(es[i].off);
    Int64Low(es[|es| - 1].off);
  }

  lemma ListsIt(data: bytes, es: seq<Entry>, id: bytes)
    requires es != [] && TocFits(data, |es| - 1) && HasEntries(data, es) && HasName(es, id)
    ensures Listed(data, |es| - 1, |es| - 1, id)
  {
    hide TocId, TocOff, Int64;
    var i :| 0 <= i < |es| - 1 && es[i].id == id;
    assert IsEntry(data, es, i);
  }

  /** Such a file has a table the reader accepts. */
  lemma FileIsGood(es: seq<Entry>, body: bytes)
    requires GoodEntries(es, body) && HasName(es, PNAM) && HasName(es, OIDF) && HasName(es, OIDL) && HasName(es, OOFF)
    ensures GoodToc(File(es, body), 20, |es| - 1)
  {
    var data, n := File(es, body), |es| - 1;
    FilePieces(es, body);
    FileHasEntries(es, body);
    hide Toc, File, TocId, TocOff, Int64, HasName, EntryOk, Listed, HasEntries;
    forall i | 0 <= i < n
      ensures EntryOk(data, 20, n, i)
    {
      EntriesGood(data, es, body, i);
    }
    EntryIs(data, es, n);
    Int64Low(es[n].off);
    forall i, j | 0 <= i < j < n
      ensures TocId(data, n, i) != TocId(data, n, j)
    {
      EntryIs(data, es, i);
      EntryIs(data, es, j);
    }
    ListsIt(data, es, PNAM);
    ListsIt(data, es, OIDF);
    ListsIt(data, es, OIDL);
    ListsIt(data, es, OOFF);
  }

  lemma EntryIs(data: bytes, es: seq<Entry>, i: nat)
    requires i < |es| && TocFits(data, |es| - 1) && HasEntries(data, es)
    ensures TocId(data, |es| - 1, i) == es[i].id && TocOff(data, |es| - 1, i) == Int64(es[i].off)
  {
    hide TocId, TocOff, Int64;
    assert IsEntry(data, es, i);
  }

  lemma CollectedSnoc(data: bytes, n: nat, k: nat, chunks: Chunks)
    requires k < n && TocFits(data, n) && Collected(data, n, k, chunks)
    requires forall j :: 0 <= j < k ==> TocId(data, n, j) != TocId(data, n, k)
    ensures Collected(data, n, k + 1, chunks[TocId(data, n, k) := ExtentAt(data, n, k)])
  {
    hide TocId, ExtentAt;
    var more := chunks[TocId(data, n, k) := ExtentAt(data, n, k)];
    forall id | id in more
      ensures Listed(data, n, k + 1, id)
    {
      if id != TocId(data, n, k) {
        assert Listed(data, n, k, id);
      }
    }
  }

  lemma DistinctIds(data: bytes, hashLen: nat, n: nat, i: nat, j: nat)
    requires TocFits(data, n) && GoodToc(data, hashLen, n) && i < j < n
    ensures TocId(data, n, i) != TocId(data, n, j)
  {
    hide TocId, TocOff;
  }

  /** The extents of an accepted table. */
  lemma {:induction false} Collect(data: bytes, hashLen: nat, n: nat, k: nat) returns (chunks: Chunks)
    requires TocFits(data, n) && GoodToc(data, hashLen, n) && k <= n
    ensures Collected(data, n, k, chunks)
  {
    hide TocId, ExtentAt, GoodToc;
    if k == 0 {
      chunks := map[];
    } else {
      hide Collected;
      chunks := Collect(data, hashLen, n, k - 1);
      forall j | 0 <= j < k - 1
        ensures TocId(data, n, j) != TocId(data, n, k - 1)
      {
        DistinctIds(data, hashLen, n, j, k - 1);
      }
      CollectedSnoc(data, n, k - 1, chunks);
      chunks := chunks[TocId(data, n, k - 1) := ExtentAt(data, n, k - 1)];
    }
  }

  lemma ChunkIs(data: bytes, es: seq<Entry>, chunks: Chunks, i: nat)
    requires i + 1 < |es| && TocFits(data, |es| - 1) && HasEntries(data, es)
    requires Collected(data, |es| - 1, |es| - 1, chunks)
    ensures es[i].id in chunks
    ensures chunks[es[i].id] == Extent(Int64(es[i].off), Int64(Int64(es[i + 1].off) - Int64(es[i].off)))
  {
    hide TocId, TocOff, Int64;
    EntryIs(data, es, i);
    EntryIs(data, es, i + 1);
  }

  const NamesFar := [Entry(PNAM, U63), Entry(OIDF, 72), Entry(OIDL, 72), Entry(OOFF, 72), Entry(Zeros, 72)]

  lemma NamesFarIsGood()
    ensures GoodEntries(NamesFar, []) && HasName(NamesFar, PNAM) && HasName(NamesFar, OIDF)
    ensures HasName(NamesFar, OIDL) && HasName(NamesFar, OOFF) && Int64(U63) == -U63
  {
    assert NamesFar[0].id == PNAM && NamesFar[1].id == OIDF && NamesFar[2].id == OIDL && NamesFar[3].id == OOFF;
    Int64Low(72);
  }

  /** A file of 92 bytes whose pack names lie at 2^63 has an acceptable table, and reading the names is out of range. */
  lemma NamesOutOfRange() returns (chunks: Chunks)
    ensures var data := File(NamesFar, []);
      && HeaderOk(data, 20) && data[6] == 4 && GoodToc(data, 20, 4)
      && Collected(data, 4, 4, chunks) && PanicsOn(data, 20, chunks)
  {
    hide File, Toc, GoodToc, Collected, Int64, GoodEntries, HasName, HasEntries;
    var data := File(NamesFar, []);
    NamesFarIsGood();
    assert Encodable(NamesFar);
    FilePieces(NamesFar, []);
    FileIsGood(NamesFar, []);
    FileHasHeader(NamesFar, []);
    FileHasEntries(NamesFar, []);
    chunks := Collect(data, 20, 4, 4);
    ChunkIs(data, NamesFar, chunks, 0);
    assert HasRequired(chunks) && Tiled(chunks, |data| - 20) by {
      hide Tiled;
      ChunksTile(data, 20, 4, chunks);
      ChunkIs(data, NamesFar, chunks, 1);
      ChunkIs(data, NamesFar, chunks, 2);
      ChunkIs(data, NamesFar, chunks, 3);
    }
    var m := Index(data, 20, data[4], Be32(data, 8), 0, chunks, []);
    assert HasFields(data, 20, chunks, m) && Readable(m) && Panics(m);
  }

  const BTMP: bytes := [0x42, 0x54, 0x4d, 0x50]
  const BitmapFar := [Entry(BTMP, U63), Entry(PNAM, 84), Entry(OIDF, 84), Entry(OIDL, 1108), Entry(OOFF, 1108),
                      Entry(Zeros, 1108)]

  /** An empty fan-out. */
  function Blank(): (b: bytes)
    ensures |b| == FanoutLen && forall k :: 0 <= k < |b| ==> b[k] == 0
  {
    seq(FanoutLen, _ => 0)
  }

  lemma BitmapFarIsGood()
    ensures GoodEntries(BitmapFar, Blank()) && HasName(BitmapFar, PNAM) && HasName(BitmapFar, OIDF)
    ensures HasName(BitmapFar, OIDL) && HasName(BitmapFar, OOFF) && Int64(U63) == -U63
    ensures Int64(84) == 84 && Int64(1108) == 1108 && Int64(1024) == 1024 && Int64(0) == 0
  {
    assert BitmapFar[1].id == PNAM && BitmapFar[2].id == OIDF && BitmapFar[3].id == OIDL && BitmapFar[4].id == OOFF;
    Int64Low(84);
    Int64Low(1108);
  }

  lemma ZeroFanout(data: bytes, at: nat)
    requires at + FanoutLen <= |data| && data[at..at + FanoutLen] == Blank()
    ensures Monotone(Fanout(data, at)) && Fanout(data, at)[255] == 0
  {
    hide Blank;
    var w := data[at..at + FanoutLen];
    forall n | 0 <= n < 256
      ensures Fanout(data, at)[n] == 0
    {
      assert data[at + 4 * n] == w[4 * n] && data[at + 4 * n + 1] == w[4 * n + 1];
      assert data[at + 4 * n + 2] == w[4 * n + 2] && data[at + 4 * n + 3] == w[4 * n + 3];
    }
  }

  lemma NoNames(ver: nat)
    ensures PackNames([], 0, ver, [])
  {
  }

  lemma BodyStands(es: seq<Entry>, body: bytes)
    requires 1 <= |es| <= 0x100 && Encodable(es)
    ensures var at := HeaderSize + TocEntry * |es|;
      |File(es, body)| == at + |body| + 20 && File(es, body)[at..at + |body|] == body
  {
    hide Toc;
  }

  /** A file whose bitmap chunk lies at 2^63, with nothing else out of place, is accepted: that chunk is never read. */
  lemma UnreadOutOfRange() returns (data: bytes, m: Index)
    ensures Describes(data, 20, m) && BTMP in m.chunks && m.chunks[BTMP].off < 0
  {
    hide File, Toc, GoodToc, Collected, Int64, GoodEntries, HasName, HasEntries, PackNames, Fanout, Monotone, Blank;
    BitmapFarIsGood();
    assert Encodable(BitmapFar);
    data := File(BitmapFar, Blank());
    FilePieces(BitmapFar, Blank());
    FileIsGood(BitmapFar, Blank());
    FileHasHeader(BitmapFar, Blank());
    FileHasEntries(BitmapFar, Blank());
    BodyStands(BitmapFar, Blank());
    var chunks := Collect(data, 20, 5, 5);
    ChunkIs(data, BitmapFar, chunks, 0);
    ChunkIs(data, BitmapFar, chunks, 1);
    ChunkIs(data, BitmapFar, chunks, 2);
    ChunkIs(data, BitmapFar, chunks, 3);
    ChunkIs(data, BitmapFar, chunks, 4);
    assert Tiled(chunks, |data| - 20) by {
      hide Tiled;
      ChunksTile(data, 20, 5, chunks);
    }
    m := Index(data, 20, data[4], Be32(data, 8), 0, chunks, []);
    ZeroFanout(data, 84);
    assert Slice(data, chunks[PNAM]).value == [];
    NoNames(data[4]);
  }

  // ---------------------------------------------------------------- lookup

  /** The offset of row k: 31 bits in place, or a slot of the LOFF chunk that fits a non-negative int64. */
  function OffsetAt(m: Index, k: nat): Option<nat>
    requires Laid(m) && k < m.count
  {
    LaidFits(m);
    var raw := Be32(m.data, m.chunks[OOFF].off + 8 * k + 4);
    if raw < 0x8000_0000 then Some(raw)
    else if LOFF !in m.chunks || (raw - 0x8000_0000) * 8 + 8 > m.chunks[LOFF].len then None
    else
      var off := Be64(m.data, m.chunks[LOFF].off + (raw - 0x8000_0000) * 8);
      if off >= U63 then None else Some(off)
  }

  datatype Found = Miss | Hit(pack: nat, offset: nat)

  /** The id at row k of the OIDL chunk is oid. */
  ghost predicate IsRow(m: Index, k: nat, oid: bytes)
    requires Laid(m)
  {
    && k < m.count
    && (LaidFits(m); RowFits(k, OidRows(m));
        var at := m.chunks[OIDL].off + k * m.hashLen; m.data[at..at + m.hashLen] == oid)
  }

  lemma RowIs(m: Index, oid: bytes)
    requires Laid(m)
    ensures forall k: nat :: IsRow(m, k, oid) <==> k < m.count && OidsOf(m)[k] == oid
  {
    hide FanoutSearch.Fits, Inside;
    LaidFits(m);
    forall k: nat | k < m.count
      ensures IsRow(m, k, oid) <==> OidsOf(m)[k] == oid
    {
      RowFits(k, OidRows(m));
    }
  }

  /**
   The OOFF row of pack and slot: a slot below 2^31 is the offset, another numbers a row of LOFF, which must
   be there and hold less than 2^63.
   */
  lemma RowReads(m: Index, k: nat, pack: nat, slot: nat)
    requires Laid(m) && k < m.count && pack < U32 && slot < U32
    requires m.chunks[OOFF].off + 8 * k + 8 <= |m.data|
    requires m.data[m.chunks[OOFF].off + 8 * k..m.chunks[OOFF].off + 8 * k + 8] == PutBe32(pack) + PutBe32(slot)
    ensures PackAt(m, k) == pack
    ensures slot < 0x8000_0000 ==> OffsetAt(m, k) == Some(slot)
    ensures slot >= 0x8000_0000 && (LOFF !in m.chunks || 8 * (slot - 0x8000_0000) + 8 > m.chunks[LOFF].len) ==>
      OffsetAt(m, k) == None
    ensures forall off: nat {:trigger PutBe64(off)} ::
      slot >= 0x8000_0000 && LOFF in m.chunks && 8 * (slot - 0x8000_0000) + 8 <= m.chunks[LOFF].len && off < U64 ==>
        var at := m.chunks[LOFF].off + 8 * (slot - 0x8000_0000);
        0 <= at && at + 8 <= |m.data| && (m.data[at..at + 8] == PutBe64(off) ==>
          OffsetAt(m, k) == if off < 0x8000_0000_0000_0000 then Some(off) else None)
  {
    hide PutBe32, Be32, PutBe64, Be64;
    var at := m.chunks[OOFF].off + 8 * k;
    var row := m.data[at..at + 8];
    assert row[..4] == m.data[at..at + 4] && row[4..] == m.data[at + 4..at + 8];
    assert row[..4] == PutBe32(pack) && row[4..] == PutBe32(slot);
    Be32Of(m.data, at, pack);
    Be32Of(m.data, at + 4, slot);
    LaidFits(m);
    if slot >= 0x8000_0000 && LOFF in m.chunks && 8 * (slot - 0x8000_0000) + 8 <= m.chunks[LOFF].len {
      var big := m.chunks[LOFF].off + 8 * (slot - 0x8000_0000);
      forall off: nat | off < U64 && m.data[big..big + 8] == PutBe64(off)
        ensures Be64(m.data, big) == off
      {
        Be64Of(m.data, big, off);
      }
    }
  }

  /**
   Find: a hit is the row whose name is the query, in a pack the file lists; when the fan-out counts the
   names, it hits exactly when some row has the name and its offset slot resolves.
   */
  method Find(m: Index, oid: bytes) returns (r: Found)
    requires Valid(m) && |oid| == m.hashLen
    ensures r.Hit? ==>
      && r.pack < |m.packNames|
      && exists k: nat :: IsRow(m, k, oid) && PackAt(m, k) == r.pack && OffsetAt(m, k) == Some(r.offset)
    ensures Counts(FanOf(m), OidsOf(m)) ==>
      forall k: nat :: IsRow(m, k, oid) ==>
        r == if OffsetAt(m, k).Some? then Hit(PackAt(m, k), OffsetAt(m, k).value) else Miss
  {
    hide Counts, Fanout, Monotone, Ascending, Row, IsRow;
    RowIs(m, oid);
    if m.count == 0 {
      return Miss;
    }
    LaidFits(m);
    var row := Search(OidRows(m), m.chunks[OIDF].off, oid);
    if row == None {
      assert Counts(FanOf(m), OidsOf(m)) ==> forall k: nat :: k < m.count ==> OidsOf(m)[k] != oid;
      return Miss;
    }
    var k := row.value;
    assert IsRow(m, k, oid);
    OneRow(m, k);
    var pack := PackAt(m, k);
    var off := OffsetAt(m, k);
    if off == None {
      return Miss;
    }
    return Hit(pack, off.value);
  }

  lemma OneRow(m: Index, k: nat)
    requires Valid(m) && k < m.count
    ensures forall j: nat :: IsRow(m, j, OidsOf(m)[k]) ==> j == k
  {
    hide Less, Row, Fanout, IsRow;
    RowIs(m, OidsOf(m)[k]);
    AscendingIsNonDescending(OidsOf(m));
  }
}
