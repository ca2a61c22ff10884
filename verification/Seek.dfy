/**
 Finding the leaf block that should hold a name: through the index levels, or by walking the ref
 blocks. Each step of the descent keeps one scratch buffer, which the source lets alias the
 previous key; the functions here say what every step computes on immutable sequences.
 */
module Seek {
  import opened Options
  import opened Bytes
  import opened RecordKey
  import opened Block
  import opened Table
  import Varint

  // ---------------------------------------------------------------- one index block

  datatype Descent = Go(pos: nat) | DescentError(error: Error)

  /** Does the record at restart i sort after probe? A key that does not decode counts as after. */
  function RestartKey(b: Block, i: nat): KeyResult
    requires ValidBlock(b) && i < b.restartCount && Restart(b, i) <= RecordsEnd(b)
  {
    DecodeKey(b.bytes[Restart(b, i)..RecordsEnd(b)], [])
  }

  predicate RestartAfter(b: Block, probe: bytes, i: nat)
    requires ValidBlock(b) && i < b.restartCount && Restart(b, i) <= RecordsEnd(b)
  {
    var k := RestartKey(b, i);
    k.KeyError? || Compare(k.key, probe) > 0
  }

  /** sort.Search's bisection between i and j; a restart past the records is a slice panic. */
  function SearchRestarts(b: Block, probe: bytes, i: nat, j: nat): (r: Option<nat>)
    requires ValidBlock(b) && i <= j <= b.restartCount
    ensures r.Some? ==> i <= r.value <= j
    decreases j - i
  {
    if i == j then Some(i)
    else
      var m := (i + j) / 2;
      if Restart(b, m) > RecordsEnd(b) then None
      else if RestartAfter(b, probe, m) then SearchRestarts(b, probe, i, m)
      else SearchRestarts(b, probe, m + 1, j)
  }

  predicate NotAfter(b: Block, probe: bytes, i: nat)
    requires ValidBlock(b) && i < b.restartCount
  {
    Restart(b, i) <= RecordsEnd(b) && !RestartAfter(b, probe, i)
  }

  /** The restart before the one found does not sort after probe, whatever order the table is in. */
  lemma {:induction false} RestartBeforeFound(b: Block, probe: bytes, i: nat, j: nat)
    requires ValidBlock(b) && i <= j <= b.restartCount
    ensures var r := SearchRestarts(b, probe, i, j);
      r.Some? && i < r.value ==> NotAfter(b, probe, r.value - 1)
    decreases j - i
  {
    hide RestartAfter, RecordsEnd, ValidBlock, Restart;
    if i < j {
      var m := (i + j) / 2;
      if Restart(b, m) <= RecordsEnd(b) {
        hide NotAfter;
        if RestartAfter(b, probe, m) {
          RestartBeforeFound(b, probe, i, m);
        } else {
          assert NotAfter(b, probe, m) by { NotAfterHere(b, probe, m); }
          RestartBeforeFound(b, probe, m + 1, j);
        }
      }
    }
  }

  /** The key at restart i decodes and is not above the probe. */
  ghost predicate KeyBelow(b: Block, probe: bytes, i: nat)
    requires ValidBlock(b) && i < b.restartCount
  {
    Restart(b, i) <= RecordsEnd(b) && RestartKey(b, i).Key? && !Less(probe, RestartKey(b, i).key)
  }

  /** The key at restart i is above the probe, or does not decode. */
  ghost predicate KeyAbove(b: Block, probe: bytes, i: nat)
    requires ValidBlock(b) && i < b.restartCount
  {
    Restart(b, i) <= RecordsEnd(b) && (RestartKey(b, i).KeyError? || Less(probe, RestartKey(b, i).key))
  }

  lemma AboveOrBelow(b: Block, probe: bytes, i: nat)
    requires ValidBlock(b) && i < b.restartCount && Restart(b, i) <= RecordsEnd(b)
    ensures if RestartAfter(b, probe, i) then KeyAbove(b, probe, i) else KeyBelow(b, probe, i)
  {
    hide RestartKey, RecordsEnd, ValidBlock, Restart, Compare;
    if RestartKey(b, i).Key? {
      CompareAntisymmetric(RestartKey(b, i).key, probe);
    }
  }

  /**
   The bisection's answer, whatever the order of the table: the restart before it has a key that is not above
   the probe, and its own key is above the probe or does not decode.
   */
  lemma {:induction false} RestartsBracket(b: Block, probe: bytes, i: nat, j: nat)
    requires ValidBlock(b) && i <= j <= b.restartCount && SearchRestarts(b, probe, i, j).Some?
    ensures var r := SearchRestarts(b, probe, i, j).value;
      (i < r ==> KeyBelow(b, probe, r - 1)) && (r < j ==> KeyAbove(b, probe, r))
    decreases j - i
  {
    hide RestartAfter, KeyAbove, KeyBelow, RecordsEnd, ValidBlock, Restart;
    if i < j {
      var m := (i + j) / 2;
      AboveOrBelow(b, probe, m);
      if RestartAfter(b, probe, m) {
        RestartsBracket(b, probe, i, m);
      } else {
        RestartsBracket(b, probe, m + 1, j);
      }
    }
  }

  lemma NotAfterHere(b: Block, probe: bytes, i: nat)
    requires ValidBlock(b) && i < b.restartCount && Restart(b, i) <= RecordsEnd(b) && !RestartAfter(b, probe, i)
    ensures NotAfter(b, probe, i)
  {
  }

  /** The records from cur on: the first key at or after probe wins, else the last record read. */
  function ScanIndex(b: bytes, cur: nat, end: nat, prev: bytes, probe: bytes, last: Option<nat>): Descent
    requires end <= |b|
    decreases if cur <= end then end - cur else 0
  {
    if cur >= end then (if last.Some? then Go(last.value) else DescentError(TruncatedBlock))
    else
      var k := DecodeKey(b[cur..end], prev);
      if k.KeyError? then DescentError(k.error)
      else
        var v := Varint.Decode(b[cur + k.used..end]);
        if !v.Decoded? then DescentError(VarintError(v))
        else if Compare(k.key, probe) >= 0 then Go(v.value)
        else ScanIndex(b, cur + k.used + v.used, end, k.key, probe, Some(v.value))
  }

  function DescendIndex(b: Block, probe: bytes): Descent
    requires ValidBlock(b)
  {
    var idx := SearchRestarts(b, probe, 0, b.restartCount);
    if idx.None? then DescentError(SliceBounds)
    else
      var from := if idx.value > 0 then Restart(b, idx.value - 1) else 4;
      ScanIndex(b.bytes, from, RecordsEnd(b), [], probe, None)
  }

  /** Restarts past the records, which parseBlock accepts, make the bisection slice out of range for every probe. */
  lemma RestartsPastRecords(records: bytes, restarts: seq<nat>, tail: bytes, probe: bytes)
    requires Encodable([], records, restarts) && forall i :: 0 <= i < |restarts| ==> restarts[i] > 4 + |records|
    ensures var p := ParseBlock(EncodeBlock([], TypeIndex, records, restarts) + tail, 0);
      p.Parsed? && DescendIndex(p.block, probe) == DescentError(SliceBounds)
  {
    hide EncodeBlock, ParseBlock, ScanIndex;
    BlockRoundTrip([], TypeIndex, records, restarts, tail);
    WrittenFields([], TypeIndex, records, restarts);
  }

  /** Nine bytes are enough: an index block without records whose one restart is 5. */
  lemma NineBytesSliceOutOfRange(probe: bytes)
    ensures var p := ParseBlock([TypeIndex, 0, 0, 9, 0, 0, 5, 0, 1], 0);
      p.Parsed? && DescendIndex(p.block, probe) == DescentError(SliceBounds)
  {
    hide ParseBlock, DescendIndex;
    assert EncodeTable([5]) == [0, 0, 5] by { assert [5][..0] == []; }
    var code := EncodeBlock([], TypeIndex, [], [5]);
    assert code == [TypeIndex, 0, 0, 9, 0, 0, 5, 0, 1];
    assert code + [] == code;
    RestartsPastRecords([], [5], [], probe);
  }

  /** An index block without records has no entry for any probe. */
  lemma {:induction false} EmptyIndex(restarts: seq<nat>, tail: bytes, probe: bytes)
    requires Encodable([], [], restarts) && forall i :: 0 <= i < |restarts| ==> restarts[i] == 4
    ensures var p := ParseBlock(EncodeBlock([], TypeIndex, [], restarts) + tail, 0);
      p.Parsed? && DescendIndex(p.block, probe) == DescentError(TruncatedBlock)
  {
    hide EncodeBlock, ParseBlock, SearchRestarts;
    BlockRoundTrip([], TypeIndex, [], restarts, tail);
    WrittenFields([], TypeIndex, [], restarts);
    var b := Written([], TypeIndex, [], restarts);
    forall i: nat | i < b.restartCount
      ensures Restart(b, i) == 4 == RecordsEnd(b) && RestartAfter(b, probe, i)
    {
      assert DecodeKey([], []) == KeyError(TruncatedRecord);
    }
    AllAfter(b, probe, b.restartCount);
  }

  lemma {:induction false} AllAfter(b: Block, probe: bytes, j: nat)
    requires ValidBlock(b) && j <= b.restartCount
    requires forall i: nat :: i < b.restartCount ==> Restart(b, i) <= RecordsEnd(b) && RestartAfter(b, probe, i)
    ensures SearchRestarts(b, probe, 0, j) == Some(0)
  {
    hide RestartAfter, RecordsEnd, ValidBlock, Restart;
    if j > 0 {
      AllAfter(b, probe, j / 2);
    }
  }

  // ---------------------------------------------------------------- seekToLeaf

  /** The block's bytes, with the frame shift to parse them under. */
  datatype LeafResult = Found(bytes: bytes, firstByteOffset: nat) | SeekError(error: Error)

  const MaxDepth := 64

  function SeekIndexed(file: bytes, h: Header, pos: nat, probe: bytes, fuel: nat): LeafResult
    decreases fuel
  {
    if fuel == 0 then SeekError(TruncatedBlock)
    else if pos >= |file| then SeekError(TruncatedBlock)
    else
      var p := ParseBlock(file[pos..], FirstByte(h, pos));
      if p.BlockError? then SeekError(p.error)
      else if p.block.blockType == TypeRef then Found(p.block.bytes, FirstByte(h, pos))
      else if p.block.blockType == TypeIndex then
        var d := DescendIndex(p.block, probe);
        if d.DescentError? then SeekError(d.error)
        else if d.pos == pos then SeekError(TruncatedBlock)
        else SeekIndexed(file, h, d.pos, probe, fuel - 1)
      else SeekError(BadBlockType)
  }

  /** The linear fallback, about to look at pos with candidate as the block to settle for. */
  function SeekLinear(file: bytes, h: Header, pos: nat, probe: bytes, candidate: Option<LeafResult>): (r: LeafResult)
    requires candidate.Some? ==> candidate.value.Found?
    decreases if pos <= |file| then |file| - pos else 0
  {
    if !RefBlockAt(file, h, pos) then
      if candidate.Some? then candidate.value else SeekError(NoRefBlocks)
    else
      var fbo := FirstByte(h, pos);
      var p := ParseBlock(file[pos..], fbo);
      if p.BlockError? then SeekError(p.error)
      else
        var k := DecodeKey(p.block.bytes[fbo + 4..], []);
        if k.KeyError? then SeekError(k.error)
        else if pos > 0 && candidate.Some? && Compare(k.key, probe) > 0 then candidate.value
        else
          var next := NextPos(h, pos, p.block.blockLen);
          if next <= pos then SeekError(TruncatedBlock)
          else SeekLinear(file, h, next, probe, Some(Found(p.block.bytes, fbo)))
  }

  function SeekToLeaf(file: bytes, h: Header, indexRoot: nat, probe: bytes): LeafResult {
    if indexRoot == 0 then SeekLinear(file, h, 0, probe, None)
    else SeekIndexed(file, h, indexRoot, probe, MaxDepth)
  }

  /** The block at pos, if one parses there. */
  ghost function BlockAt(file: bytes, h: Header, pos: nat): BlockResult
    requires pos < |file|
  {
    ParseBlock(file[pos..], if pos == 0 then h.size else 0)
  }

  /** At pos stands an index block whose entry for probe says next. */
  ghost predicate Leads(file: bytes, h: Header, probe: bytes, pos: nat, next: nat) {
    && pos < |file| && BlockAt(file, h, pos).Parsed? && BlockAt(file, h, pos).block.blockType == 0x69
    && DescendIndex(BlockAt(file, h, pos).block, probe) == Go(next)
  }

  /** Index blocks, each leading on to another position. */
  ghost predicate IndexPath(file: bytes, h: Header, probe: bytes, path: seq<nat>) {
    path != []
    && forall i :: 0 <= i < |path| - 1 ==> path[i] != path[i + 1] && Leads(file, h, probe, path[i], path[i + 1])
  }

  lemma {:induction false} PathFollowed(file: bytes, h: Header, probe: bytes, path: seq<nat>, fuel: nat)
    requires IndexPath(file, h, probe, path)
    ensures |path| <= fuel ==>
      SeekIndexed(file, h, path[0], probe, fuel)
      == SeekIndexed(file, h, path[|path| - 1], probe, fuel - (|path| - 1))
    ensures |path| > fuel ==> SeekIndexed(file, h, path[0], probe, fuel) == SeekError(TruncatedBlock)
    decreases |path|
  {
    hide ParseBlock, DescendIndex;
    if |path| > 1 && fuel > 0 {
      assert Leads(file, h, probe, path[0], path[1]);
      PathFollowed(file, h, probe, path[1..], fuel - 1);
    }
  }

  /**
   The descent reads at most 64 blocks. A ref block ends it; a position outside the file, a block that does
   not parse or has no entry, a third type of block and an entry that points back at its own block are errors.
   */
  lemma {:induction false} DescentEnds(file: bytes, h: Header, probe: bytes, path: seq<nat>)
    requires IndexPath(file, h, probe, path)
    ensures |path| > 64 ==> SeekToLeaf(file, h, path[0], probe) == SeekError(TruncatedBlock) || path[0] == 0
    ensures |path| <= 64 && path[0] != 0 ==>
      var last, r := path[|path| - 1], SeekToLeaf(file, h, path[0], probe);
      && (last >= |file| ==> r == SeekError(TruncatedBlock))
      && (last < |file| && BlockAt(file, h, last).BlockError? ==> r == SeekError(BlockAt(file, h, last).error))
      && (Leads(file, h, probe, last, last) ==> r == SeekError(TruncatedBlock))
      && (last < |file| && BlockAt(file, h, last).Parsed? ==>
            var b := BlockAt(file, h, last).block;
            && (b.blockType == 0x72 ==> r == Found(b.bytes, if last == 0 then h.size else 0))
            && (b.blockType == 0x6f ==> r == SeekError(BadBlockType))
            && (b.blockType == 0x69 && DescendIndex(b, probe).DescentError? ==>
                  r == SeekError(DescendIndex(b, probe).error)))
  {
    hide ParseBlock, DescendIndex;
    PathFollowed(file, h, probe, path, 64);
  }

  // ---------------------------------------------------------------- the source's loops

  /** The one key buffer a descent threads through every decode, grown when a key needs it. */
  class Scratch {
    var buf: Slice
    ghost var Repr: set<object>

    ghost predicate Valid()
      reads this, Repr
      ensures Valid() ==> this in Repr
    {
      this in Repr && ValidSlice(buf) && (buf.Slice? ==> buf.arr in Repr)
    }

    constructor ()
      ensures Valid() && fresh(Repr)
    {
      buf := Nil;
      Repr := {this};
    }

    /** storeScratch. */
    method Store(key: Slice)
      requires Valid() && ValidSlice(key)
      modifies this
      ensures Valid() && buf == key && Repr == old(Repr) + Arrays(key)
    {
      buf := key;
      Repr := Repr + Arrays(key);
    }

    /** Decode with no previous key and keep the buffer, as the restart comparator does. */
    method DecodeRestart(bytes: bytes) returns (r: KeyResult)
      requires Valid()
      modifies Repr
      ensures Valid() && fresh(Repr - old(Repr))
      ensures r == DecodeKey(bytes, [])
    {
      hide DecodeKey;
      var key, extra, used, err := DecodeKeyInto(bytes, Nil, buf);
      if err.Some? {
        return KeyError(err.value);
      }
      Store(key);
      return Key(if key.Slice? then key.arr[..key.len] else [], extra, used);
    }

    /**
     Decode with prev, which may be the very slice the buffer shows, and keep the result in it.
     */
    method DecodeNext(bytes: bytes, prev: Slice) returns (key: Slice, used: nat, err: Option<Error>)
      requires Valid() && ValidSlice(prev) && (prev == Nil || prev == buf)
      modifies Repr
      ensures Valid() && fresh(Repr - old(Repr))
      ensures var k := DecodeKey(bytes, old(View(prev)));
        if k.KeyError? then err == Some(k.error)
        else err == None && ValidSlice(key) && key == buf && View(key) == k.key && used == k.used
    {
      hide DecodeKey;
      var extra: nat;
      key, extra, used, err := DecodeKeyInto(bytes, prev, buf);
      if err == None {
        Store(key);
      }
    }
  }

  method SearchRestartTable(b: Block, probe: bytes, scratch: Scratch) returns (r: Option<nat>)
    requires ValidBlock(b) && scratch.Valid()
    modifies scratch.Repr
    ensures scratch.Valid() && fresh(scratch.Repr - old(scratch.Repr))
    ensures r == SearchRestarts(b, probe, 0, b.restartCount)
  {
    hide DecodeKey, Restart;
    var i: nat, j: nat := 0, b.restartCount;
    while i < j
      invariant i <= j <= b.restartCount
      invariant scratch.Valid() && fresh(scratch.Repr - old(scratch.Repr))
      invariant SearchRestarts(b, probe, i, j) == SearchRestarts(b, probe, 0, b.restartCount)
      decreases j - i
    {
      var m := (i + j) / 2;
      var off := Restart(b, m);
      if off > RecordsEnd(b) {
        return None;
      }
      var k := scratch.DecodeRestart(b.bytes[off..RecordsEnd(b)]);
      if k.KeyError? || Compare(k.key, probe) > 0 {
        j := m;
      } else {
        i := m + 1;
      }
    }
    return Some(i);
  }

  /** descendIndex: the key just decoded is the previous key of the next decode, in the same array. */
  method DescendIndexBlock(b: Block, probe: bytes, scratch: Scratch) returns (r: Descent)
    requires ValidBlock(b) && scratch.Valid()
    modifies scratch.Repr
    ensures scratch.Valid() && fresh(scratch.Repr - old(scratch.Repr))
    ensures r == DescendIndex(b, probe)
  {
    hide DecodeKey, SearchRestarts, Varint.Decode;
    var restartOff := RecordsEnd(b);
    var idx := SearchRestartTable(b, probe, scratch);
    if idx == None {
      return DescentError(SliceBounds);
    }
    var cur := if idx.value > 0 then Restart(b, idx.value - 1) else 4;
    var prevKey: Slice := Nil;
    var lastBlockPos: Option<nat> := None;
    while cur < restartOff
      invariant scratch.Valid() && fresh(scratch.Repr - old(scratch.Repr))
      invariant ValidSlice(prevKey) && (prevKey == Nil || prevKey == scratch.buf)
      invariant ScanIndex(b.bytes, cur, restartOff, View(prevKey), probe, lastBlockPos) == DescendIndex(b, probe)
      decreases restartOff - cur
    {
      var key, n, err := scratch.DecodeNext(b.bytes[cur..restartOff], prevKey);
      if err.Some? {
        return DescentError(err.value);
      }
      var v := Varint.DecodeVarint(b.bytes[cur + n..restartOff]);
      if !v.Decoded? {
        return DescentError(VarintError(v));
      }
      var cmp := Compare(if key.Slice? then key.arr[..key.len] else [], probe);
      if cmp >= 0 {
        return Go(v.value);
      }
      lastBlockPos := Some(v.value);
      prevKey := key;
      cur := cur + n + v.used;
    }
    if lastBlockPos.Some? {
      return Go(lastBlockPos.value);
    }
    return DescentError(TruncatedBlock);
  }

  method SeekIndexedLeaf(file: bytes, h: Header, indexRoot: nat, probe: bytes, scratch: Scratch) returns (r: LeafResult)
    requires scratch.Valid()
    modifies scratch.Repr
    ensures scratch.Valid() && fresh(scratch.Repr - old(scratch.Repr))
    ensures r == SeekIndexed(file, h, indexRoot, probe, 64)
  {
    hide ParseBlock, DescendIndex;
    var pos: nat := indexRoot;
    for depth := 0 to MaxDepth
      invariant scratch.Valid() && fresh(scratch.Repr - old(scratch.Repr))
      invariant SeekIndexed(file, h, pos, probe, MaxDepth - depth) == SeekIndexed(file, h, indexRoot, probe, MaxDepth)
    {
      if pos >= |file| {
        return SeekError(TruncatedBlock);
      }
      var firstByteOffset := if pos == 0 then h.size else 0;
      var p := ParseBlockBytes(file[pos..], firstByteOffset);
      if p.BlockError? {
        return SeekError(p.error);
      }
      if p.block.blockType == TypeRef {
        return Found(p.block.bytes, firstByteOffset);
      }
      if p.block.blockType != TypeIndex {
        return SeekError(BadBlockType);
      }
      var d := DescendIndexBlock(p.block, probe, scratch);
      if d.DescentError? {
        return SeekError(d.error);
      }
      if d.pos == pos {
        return SeekError(TruncatedBlock);
      }
      pos := d.pos;
    }
    return SeekError(TruncatedBlock);
  }

  method SeekLinearLeaf(file: bytes, h: Header, probe: bytes, scratch: Scratch) returns (r: LeafResult)
    requires ValidHeader(h) && |file| < U32 && scratch.Valid()
    modifies scratch.Repr
    ensures scratch.Valid() && fresh(scratch.Repr - old(scratch.Repr))
    ensures r == SeekLinear(file, h, 0, probe, None)
  {
    hide ParseBlock, DecodeKey, RoundUp, Compare;
    var pos: nat := 0;
    var first := true;
    var candidate: Option<LeafResult> := None;
    while pos < |file|
      invariant scratch.Valid() && fresh(scratch.Repr - old(scratch.Repr))
      invariant candidate.Some? ==> candidate.value.Found?
      invariant first <==> pos == 0
      invariant first <==> candidate == None
      invariant SeekLinear(file, h, pos, probe, candidate) == SeekLinear(file, h, 0, probe, None)
      decreases |file| - pos
    {
      var firstByteOffset := if first then h.size else 0;
      var slice := file[pos..];
      if |slice| <= firstByteOffset {
        break;
      }
      if slice[firstByteOffset] != TypeRef {
        break;
      }
      var p := ParseBlockBytes(slice, firstByteOffset);
      if p.BlockError? {
        return SeekError(p.error);
      }
      var k := scratch.DecodeRestart(p.block.bytes[firstByteOffset + 4..]);
      if k.KeyError? {
        return SeekError(k.error);
      }
      if !first && Compare(k.key, probe) > 0 {
        return candidate.value;
      }
      candidate := Some(Found(p.block.bytes, firstByteOffset));
      first := false;
      var nextPos := (pos + p.block.blockLen) % U32;
      if h.blockSize > 0 {
        nextPos := RoundUp(nextPos, h.blockSize);
      }
      if nextPos <= pos {
        return SeekError(TruncatedBlock);
      }
      pos := nextPos;
    }
    if candidate == None {
      return SeekError(NoRefBlocks);
    }
    return candidate.value;
  }
}
