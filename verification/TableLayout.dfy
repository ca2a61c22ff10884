/**
 Files as a reftable writer lays them out, and the walk over them: any split of the records into
 blocks, any prefix lengths the names share, any restart tables, any padding up to the alignment.
 */
module TableLayout {
  import opened Options
  import opened Bytes
  import opened RecordKey
  import opened RefRecord
  import opened Block
  import opened Table
  import Varint

  /** A record with the choices its writer makes. */
  datatype Placed = Placed(record: Record, prefixLen: nat, delta: nat)

  datatype Plan = Plan(records: seq<Placed>, restarts: seq<nat>)

  function Records(rs: seq<Placed>): seq<Record> {
    if rs == [] then [] else [rs[0].record] + Records(rs[1..])
  }

  /** The previous key behind the records rs. */
  function KeyAfter(rs: seq<Placed>, prev: bytes): bytes {
    if rs == [] then prev else rs[|rs| - 1].record.name
  }

  ghost predicate LegalRecord(r: Placed, prev: bytes, h: Header) {
    WellFormed(r.record, h.hashSize) && Shares(prev, r.record.name, r.prefixLen) && r.delta + h.minUpdateIndex < U64
  }

  ghost predicate LegalRecords(rs: seq<Placed>, prev: bytes, h: Header) {
    rs == [] || (LegalRecord(rs[0], prev, h) && LegalRecords(rs[1..], rs[0].record.name, h))
  }

  function EncodeRecords(rs: seq<Placed>): bytes
    requires forall r :: r in rs ==> r.prefixLen <= |r.record.name|
  {
    if rs == [] then [] else EncodeRecord(rs[0].record, rs[0].prefixLen, rs[0].delta) + EncodeRecords(rs[1..])
  }

  /** The record loop takes a region apart into the records that were put there, to its last byte. */
  lemma {:induction false} RecordsRoundTrip(rs: seq<Placed>, prev: bytes, h: Header)
    requires LegalRecords(rs, prev, h)
    requires forall r :: r in rs ==> r.prefixLen <= |r.record.name|
    ensures ScanRecords(EncodeRecords(rs), prev, h) == Scan(Records(rs), KeyAfter(rs, prev), None)
  {
    hide DecodeRecord, EncodeRecord;
    if rs != [] {
      var r, rest := rs[0], EncodeRecords(rs[1..]);
      var code := EncodeRecord(r.record, r.prefixLen, r.delta);
      RecordRoundTrip(r.record, prev, r.prefixLen, r.delta, h.hashSize, h.minUpdateIndex, rest);
      assert (code + rest)[|code|..] == rest;
      RecordsRoundTrip(rs[1..], r.record.name, h);
    }
  }

  /** Records in front of one that does not decode are yielded before the error. */
  lemma {:induction false} ScanStops(rs: seq<Placed>, bad: bytes, prev: bytes, h: Header)
    requires LegalRecords(rs, prev, h) && bad != []
    requires forall r :: r in rs ==> r.prefixLen <= |r.record.name|
    requires DecodeRecord(bad, KeyAfter(rs, prev), h.hashSize, h.minUpdateIndex).RecordError?
    ensures var s := ScanRecords(EncodeRecords(rs) + bad, prev, h);
      && s.records == Records(rs)
      && s.err == Some(DecodeRecord(bad, KeyAfter(rs, prev), h.hashSize, h.minUpdateIndex).error)
  {
    hide DecodeRecord, EncodeRecord;
    if rs == [] {
      assert EncodeRecords(rs) + bad == bad;
    } else {
      var r, rest := rs[0], EncodeRecords(rs[1..]) + bad;
      var code := EncodeRecord(r.record, r.prefixLen, r.delta);
      RecordRoundTrip(r.record, prev, r.prefixLen, r.delta, h.hashSize, h.minUpdateIndex, rest);
      assert EncodeRecords(rs) + bad == code + rest && (code + rest)[|code|..] == rest;
      ScanStops(rs[1..], bad, r.record.name, h);
    }
  }

  /** Only a record of prefix length 0 may open a block. */
  ghost predicate LegalPlan(p: Plan, preamble: bytes, h: Header) {
    && p.records != [] && p.records[0].prefixLen == 0 && LegalRecords(p.records, [], h)
    && (forall r :: r in p.records ==> r.prefixLen <= |r.record.name|)
    && Encodable(preamble, EncodeRecords(p.records), p.restarts)
  }

  lemma FirstPrefixIsFree(p: Plan, preamble: bytes, h: Header, prev: bytes)
    requires LegalPlan(p, preamble, h)
    ensures LegalRecords(p.records, prev, h)
  {
    assert prev[..0] == [];
  }

  function BlockBytes(p: Plan, preamble: bytes): bytes
    requires forall r :: r in p.records ==> r.prefixLen <= |r.record.name|
    requires Encodable(preamble, EncodeRecords(p.records), p.restarts)
  {
    EncodeBlock(preamble, TypeRef, EncodeRecords(p.records), p.restarts)
  }

  /** The bytes of the frame before the block proper: the file header, for the first block only. */
  function Preamble(file: bytes, h: Header, pos: nat): bytes
    requires h.size <= |file|
  {
    if pos == 0 then file[..h.size] else []
  }

  /** The planned blocks stand in the file, each where the walk comes to it, whatever fills the gaps. */
  ghost predicate Standing(file: bytes, h: Header, plans: seq<Plan>, pos: nat)
    decreases |plans|
  {
    plans == [] ||
    (&& h.size <= |file| && pos < |file|
     && var preamble := Preamble(file, h, pos);
     && LegalPlan(plans[0], preamble, h)
     && BlockBytes(plans[0], preamble) <= file[pos..]
     && Standing(file, h, plans[1..], NextPos(h, pos, |BlockBytes(plans[0], preamble)|)))
  }

  /** Where the walk comes to rest after the last planned block. */
  ghost function Landing(file: bytes, h: Header, plans: seq<Plan>, pos: nat): nat
    requires Standing(file, h, plans, pos)
    decreases |plans|
  {
    if plans == [] then pos
    else Landing(file, h, plans[1..], NextPos(h, pos, |BlockBytes(plans[0], Preamble(file, h, pos))|))
  }

  /** No ref block begins at pos: the file ends before its type byte, or that byte is not an 'r'. */
  ghost predicate NoRefBlock(file: bytes, h: Header, pos: nat) {
    var typeAt := pos + if pos == 0 then h.size else 0;
    |file| <= typeAt || file[typeAt] != 0x72
  }

  /** The file holds the planned blocks and no ref block begins where the walk lands after them. */
  ghost predicate LaidOut(file: bytes, h: Header, plans: seq<Plan>) {
    Standing(file, h, plans, 0) && NoRefBlock(file, h, Landing(file, h, plans, 0))
  }

  function AllRecords(plans: seq<Plan>): seq<Record> {
    if plans == [] then [] else Records(plans[0].records) + AllRecords(plans[1..])
  }

  /** Where the walk comes to the i-th planned block. */
  ghost function Start(file: bytes, h: Header, plans: seq<Plan>, pos: nat, i: nat): nat
    requires Standing(file, h, plans, pos) && i < |plans|
    decreases |plans|
  {
    if i == 0 then pos
    else Start(file, h, plans[1..], NextPos(h, pos, |BlockBytes(plans[0], Preamble(file, h, pos))|), i - 1)
  }

  /** The blocks walked are the planned ones, one by one. */
  ghost predicate AsPlanned(file: bytes, h: Header, plans: seq<Plan>, pos: nat, leaves: seq<Leaf>)
    requires Standing(file, h, plans, pos)
  {
    && |leaves| == |plans|
    && forall i: nat :: i < |plans| ==>
        leaves[i].pos == Start(file, h, plans, pos, i) && leaves[i].records == Records(plans[i].records)
  }

  /** A position moves strictly forward past a block, as long as uint32 holds the rounded result. */
  lemma {:induction false} Advances(h: Header, pos: nat, blockLen: nat, file: bytes)
    requires ValidHeader(h) && |file| <= MaxFile && blockLen > 0 && pos + blockLen <= |file|
    ensures NextPos(h, pos, blockLen) >= pos + blockLen
    ensures h.blockSize == 0 ==> NextPos(h, pos, blockLen) == pos + blockLen
    ensures h.blockSize > 0 ==>
      NextPos(h, pos, blockLen) % h.blockSize == 0 && NextPos(h, pos, blockLen) < pos + blockLen + h.blockSize
  {
    var v := pos + blockLen;
    assert v % U32 == v;
    if h.blockSize > 0 {
      var x := v + h.blockSize - 1;
      assert x % U32 == x;
      DivMul(x, h.blockSize);
      MulMod(x / h.blockSize, h.blockSize);
    }
  }

  /** Within one alignment of 4 GiB the next position wraps to 0, and the walk ends in an error. */
  lemma {:induction false} Wraps(file: bytes, h: Header, pos: nat, prev: bytes)
    requires ValidHeader(h) && h.blockSize > 0 && |file| < U32 && RefBlockAt(file, h, pos)
    requires var p := ParseBlock(file[pos..], FirstByte(h, pos));
      && p.Parsed? && pos + p.block.blockLen + h.blockSize > 0x1_0000_0000
      && ScanRecords(Region(p.block), prev, h).err == None
    ensures StepAt(file, h, pos, prev).Failed? && StepAt(file, h, pos, prev).error == TruncatedBlock
  {
    hide ParseBlock, ScanRecords, Region;
    var v, m := pos + ParseBlock(file[pos..], FirstByte(h, pos)).block.blockLen, h.blockSize;
    assert v <= |file| && v % U32 == v;
    var x := (v + m - 1) % U32;
    assert x == v + m - 1 - U32 < m;
    assert x / m == 0;
  }

  lemma {:induction false} MulMod(q: nat, m: nat)
    requires m > 0
    ensures (q * m) % m == 0
  {
    if q > 0 {
      MulMod(q - 1, m);
      assert q * m == (q - 1) * m + m;
      assert ((q - 1) * m + m) % m == 0 by {
        ModAdd((q - 1) * m, m);
      }
    }
  }

  lemma {:induction false} ModAdd(a: nat, m: nat)
    requires m > 0
    ensures (a + m) % m == a % m
  {
    var q, r := a / m, a % m;
    assert a == q * m + r;
    assert a + m == (q + 1) * m + r;
    ModUnique(a + m, q + 1, r, m);
  }

  lemma {:induction false} ModUnique(a: nat, q: nat, r: nat, m: nat)
    requires m > 0 && r < m && a == q * m + r
    ensures a % m == r
  {
    var d := a / m - q;
    assert a == (a / m) * m + a % m;
    assert d * m == r - a % m;
    assert d >= 1 ==> d * m >= m;
    assert d <= -1 ==> d * m + m <= 0;
  }

  lemma FirstKeyDecodes(plan: Plan, preamble: bytes, h: Header)
    requires LegalPlan(plan, preamble, h)
    ensures Records(plan.records) != [] && DecodeKey(EncodeRecords(plan.records), []).Key?
  {
    hide DecodeKey, DecodeRecord, EncodeKey, Encodable;
    var r := plan.records[0];
    RecordsRoundTrip(plan.records, [], h);
    var k := DecodeKey(EncodeRecords(plan.records), []);
    var rest := EncodeRecords(plan.records[1..]);
    RecordRoundTrip(r.record, [], r.prefixLen, r.delta, h.hashSize, h.minUpdateIndex, rest);
    KeyOfRecord(EncodeRecord(r.record, r.prefixLen, r.delta) + rest, [], h);
  }

  lemma KeyOfRecord(buf: bytes, prev: bytes, h: Header)
    requires DecodeRecord(buf, prev, h.hashSize, h.minUpdateIndex).Decoded?
    ensures DecodeKey(buf, prev).Key?
  {
  }

  lemma {:induction false} StepRoundTrip(file: bytes, h: Header, plan: Plan, pos: nat, prev: bytes)
    requires ValidHeader(h) && |file| <= MaxFile && h.size <= |file| && pos < |file|
    requires LegalPlan(plan, Preamble(file, h, pos), h)
    requires BlockBytes(plan, Preamble(file, h, pos)) <= file[pos..]
    ensures var s := StepAt(file, h, pos, prev);
      && s.More?
      && s.leaf.records == Records(plan.records)
      && s.last == KeyAfter(plan.records, prev)
      && s.next == NextPos(h, pos, |BlockBytes(plan, Preamble(file, h, pos))|)
      && s.leaf.records != [] && DecodeKey(Region(s.leaf.block), []).Key?
  {
    hide DecodeKey, Records, ParseBlock, ScanRecords, EncodeBlock, EncodeRecords, LegalRecords;
    var preamble := Preamble(file, h, pos);
    var records := EncodeRecords(plan.records);
    var code := EncodeBlock(preamble, TypeRef, records, plan.restarts);
    var buf := file[pos..];
    var tail := buf[|code|..];
    assert buf == code + tail;
    BlockRoundTrip(preamble, TypeRef, records, plan.restarts, tail);
    WrittenFields(preamble, TypeRef, records, plan.restarts);
    FirstPrefixIsFree(plan, preamble, h, prev);
    RecordsRoundTrip(plan.records, prev, h);
    Advances(h, pos, |code|, file);
    var b := Written(preamble, TypeRef, records, plan.restarts);
    assert Region(b) == records;
    FirstKeyDecodes(plan, preamble, h);
    assert buf[|preamble|] == TypeRef;
  }

  /**
   A block whose first record shares a prefix with the last name of the block before is read against that
   name: the reader carries the key over, though a writer need not.
   */
  lemma {:induction false} KeyCarriesOver(file: bytes, h: Header, plan: Plan, pos: nat, prev: bytes)
    requires ValidHeader(h) && |file| <= MaxFile && h.size <= |file| && pos < |file|
    requires LegalRecords(plan.records, prev, h) && (forall r :: r in plan.records ==> r.prefixLen <= |r.record.name|)
    requires Encodable(Preamble(file, h, pos), EncodeRecords(plan.records), plan.restarts)
    requires BlockBytes(plan, Preamble(file, h, pos)) <= file[pos..]
    ensures var s := StepAt(file, h, pos, prev);
      s.More? && s.leaf.records == Records(plan.records) && s.last == KeyAfter(plan.records, prev)
  {
    hide Records, ParseBlock, ScanRecords, EncodeBlock, EncodeRecords, LegalRecords;
    var preamble := Preamble(file, h, pos);
    var records := EncodeRecords(plan.records);
    var code := EncodeBlock(preamble, TypeRef, records, plan.restarts);
    var buf := file[pos..];
    assert buf == code + buf[|code|..];
    BlockRoundTrip(preamble, TypeRef, records, plan.restarts, buf[|code|..]);
    WrittenFields(preamble, TypeRef, records, plan.restarts);
    RecordsRoundTrip(plan.records, prev, h);
    Advances(h, pos, |code|, file);
    assert Region(Written(preamble, TypeRef, records, plan.restarts)) == records;
    assert buf[|preamble|] == TypeRef;
  }

  ghost predicate OpensAtRestart(leaves: seq<Leaf>) {
    forall l :: l in leaves ==> ValidBlock(l.block) && l.records != [] && DecodeKey(Region(l.block), []).Key?
  }

  lemma NothingPlanned(file: bytes, h: Header, pos: nat)
    ensures AsPlanned(file, h, [], pos, [])
  {
  }

  lemma PlannedCons(file: bytes, h: Header, plans: seq<Plan>, pos: nat, leaf: Leaf, rest: seq<Leaf>)
    requires plans != [] && Standing(file, h, plans, pos)
    requires leaf.pos == pos && leaf.records == Records(plans[0].records)
    requires AsPlanned(file, h, plans[1..], NextPos(h, pos, |BlockBytes(plans[0], Preamble(file, h, pos))|), rest)
    ensures AsPlanned(file, h, plans, pos, [leaf] + rest)
  {
    hide LegalPlan, BlockBytes, Records, NextPos, Preamble;
    var leaves := [leaf] + rest;
    forall i: nat | i < |plans|
      ensures leaves[i].pos == Start(file, h, plans, pos, i) && leaves[i].records == Records(plans[i].records)
    {
      if i > 0 {
        assert leaves[i] == rest[i - 1] && plans[i] == plans[1..][i - 1];
      }
    }
  }

  lemma WalkStep(file: bytes, h: Header, pos: nat, prev: bytes)
    requires StepAt(file, h, pos, prev).More?
    ensures var s := StepAt(file, h, pos, prev);
      var w := LeavesFrom(file, h, s.next, s.last);
      LeavesFrom(file, h, pos, prev) == Walk([s.leaf] + w.leaves, w.err)
  {
    hide StepAt;
  }

  lemma StandsNext(file: bytes, h: Header, plans: seq<Plan>, pos: nat)
    requires plans != [] && Standing(file, h, plans, pos)
    ensures h.size <= |file| && pos < |file|
    ensures LegalPlan(plans[0], Preamble(file, h, pos), h)
    ensures BlockBytes(plans[0], Preamble(file, h, pos)) <= file[pos..]
    ensures var next := NextPos(h, pos, |BlockBytes(plans[0], Preamble(file, h, pos))|);
      Standing(file, h, plans[1..], next) && Landing(file, h, plans, pos) == Landing(file, h, plans[1..], next)
  {
    hide LegalPlan, BlockBytes, Preamble, NextPos;
  }

  /** The walk from pos is the planned blocks followed by the walk from where they land. */
  lemma {:induction false} WalkTo(file: bytes, h: Header, plans: seq<Plan>, pos: nat, prev: bytes)
    returns (leaves: seq<Leaf>, last: bytes)
    requires ValidHeader(h) && |file| <= MaxFile && Standing(file, h, plans, pos)
    ensures var w := LeavesFrom(file, h, Landing(file, h, plans, pos), last);
      LeavesFrom(file, h, pos, prev) == Walk(leaves + w.leaves, w.err)
    ensures |leaves| == |plans| && Flatten(leaves) == AllRecords(plans) && OpensAtRestart(leaves)
    ensures AsPlanned(file, h, plans, pos, leaves)
    decreases |plans|
  {
    hide StepAt, LeavesFrom, LegalPlan, BlockBytes, DecodeKey, Region, ValidBlock, AsPlanned, NextPos, Preamble;
    if plans == [] {
      NothingPlanned(file, h, pos);
      leaves, last := [], prev;
      var w := LeavesFrom(file, h, pos, prev);
      assert [] + w.leaves == w.leaves;
    } else {
      StandsNext(file, h, plans, pos);
      hide Standing, Landing;
      StepRoundTrip(file, h, plans[0], pos, prev);
      var s := StepAt(file, h, pos, prev);
      WalkStep(file, h, pos, prev);
      var rest;
      rest, last := WalkTo(file, h, plans[1..], s.next, s.last);
      leaves := [s.leaf] + rest;
      PlannedCons(file, h, plans, pos, s.leaf, rest);
      assert leaves[1..] == rest;
      var w := LeavesFrom(file, h, Landing(file, h, plans, pos), last);
      assert [s.leaf] + (rest + w.leaves) == leaves + w.leaves;
    }
  }

  /** Where a ref block begins, the walk goes on: it fails or it has one more block. */
  lemma WalkGoesOn(file: bytes, h: Header, pos: nat, prev: bytes)
    ensures var w := LeavesFrom(file, h, pos, prev);
      if RefBlockAt(file, h, pos) then w.err.Some? || w.leaves != [] else w == Walk([], None)
  {
    hide ParseBlock, ScanRecords;
  }

  /** From pos on come only ref blocks without records, each leading on to the next, and then no ref block. */
  ghost predicate EmptyRun(file: bytes, h: Header, pos: nat)
    decreases if pos <= |file| then |file| - pos else 0
  {
    RefBlockAt(file, h, pos) ==>
      var p := ParseBlock(file[pos..], FirstByte(h, pos));
      && p.Parsed? && Region(p.block) == []
      && var next := NextPos(h, pos, p.block.blockLen);
      && pos < next && EmptyRun(file, h, next)
  }

  /** Such a run is what the walk passes without a record and without an error. */
  lemma {:induction false} EmptyRunExactly(file: bytes, h: Header, pos: nat, prev: bytes)
    ensures var w := LeavesFrom(file, h, pos, prev);
      EmptyRun(file, h, pos) <==> w.err == None && Flatten(w.leaves) == []
    decreases if pos <= |file| then |file| - pos else 0
  {
    hide ParseBlock, ScanRecords, NextPos, Region;
    var s := StepAt(file, h, pos, prev);
    if s.More? {
      EmptyRunExactly(file, h, s.next, s.last);
      var w := LeavesFrom(file, h, s.next, s.last);
      assert ([s.leaf] + w.leaves)[1..] == w.leaves;
    }
  }

  /**
   iterAllRefs yields exactly the planned records, in order and without error, exactly when nothing but
   ref blocks without records lies where the walk lands; and it visits the planned blocks only exactly
   when no byte that reads as a ref block's type lies there. An aligned file whose last block is not
   padded can break both: rounding up then carries the walk into the bytes that follow.
   */
  lemma {:induction false} IterationIsExact(file: bytes, h: Header, plans: seq<Plan>)
    requires ValidHeader(h) && |file| <= MaxFile && Standing(file, h, plans, 0)
    ensures EmptyRun(file, h, Landing(file, h, plans, 0))
      <==> Leaves(file, h).err == None && Flatten(Leaves(file, h).leaves) == AllRecords(plans)
    ensures LaidOut(file, h, plans)
      <==> Leaves(file, h).err == None && |Leaves(file, h).leaves| == |plans|
    ensures LaidOut(file, h, plans) ==>
      && Flatten(Leaves(file, h).leaves) == AllRecords(plans) && OpensAtRestart(Leaves(file, h).leaves)
      && AsPlanned(file, h, plans, 0, Leaves(file, h).leaves)
  {
    hide LeavesFrom, Flatten, Standing, Landing, RefBlockAt, NoRefBlock, OpensAtRestart, EmptyRun, AsPlanned;
    NoRefBlockIs(file, h, Landing(file, h, plans, 0));
    var leaves, last := WalkTo(file, h, plans, 0, []);
    var landing := Landing(file, h, plans, 0);
    var w := LeavesFrom(file, h, landing, last);
    WalkGoesOn(file, h, landing, last);
    EmptyRunExactly(file, h, landing, last);
    FlattenAppend(leaves, w.leaves);
    assert AllRecords(plans) + Flatten(w.leaves) == AllRecords(plans) ==> |Flatten(w.leaves)| == 0;
    assert leaves + [] == leaves;
  }

  lemma NoRefBlockIs(file: bytes, h: Header, pos: nat)
    ensures NoRefBlock(file, h, pos) <==> !RefBlockAt(file, h, pos)
  {
  }

  const OneRecord := Placed(Record([97], Deletion), 0, 0)
  const OnePlan := Plan([OneRecord], [28])
  const Unpadded := Header(24, 101, 0, 20)

  lemma OnePlanIsLegal(preamble: bytes, h: Header)
    requires |preamble| == 24 && ValidHeader(h)
    ensures LegalPlan(OnePlan, preamble, h) && |BlockBytes(OnePlan, preamble)| == 37
  {
    assert OnePlan.records[1..] == [];
    assert OneRecord.record.name[0..] == [97];
    assert Varint.Encode(0) == [0] && Varint.Encode(8) == [8];
    assert EncodeRecords(OnePlan.records) == [0, 8, 97, 0];
  }

  /** Four bytes that begin like a ref block cannot be one. */
  lemma TooShort(file: bytes, h: Header, pos: nat, prev: bytes)
    requires 0 < pos < |file| && |file| - pos == 4 && file[pos] == TypeRef
    ensures LeavesFrom(file, h, pos, prev) == Walk([], Some(TruncatedBlock))
  {
    assert file[pos..][0] == TypeRef;
  }

  /**
   A table of one short block in an aligned file, with its footer of 68 bytes right behind it: when the
   checksum that ends the footer begins with the letter of a ref block, iteration ends in an error.
   */
  lemma ChecksumTakenForBlock(preamble: bytes, footer: bytes)
    requires |preamble| == 24 && |footer| == 68 && footer[64] == TypeRef
    ensures LegalPlan(OnePlan, preamble, Unpadded)
    ensures var file := BlockBytes(OnePlan, preamble) + footer;
      Standing(file, Unpadded, [OnePlan], 0) && Leaves(file, Unpadded).err == Some(TruncatedBlock)
  {
    OnePlanIsLegal(preamble, Unpadded);
    hide LegalPlan, EncodeRecords, LegalRecords, LeavesFrom;
    var code := BlockBytes(OnePlan, preamble);
    var file := code + footer;
    assert code[..24] == preamble && file[..24] == preamble;
    assert file[0..] == file && code <= file;
    assert NextPos(Unpadded, 0, 37) == 101;
    assert [OnePlan][1..] == [];
    assert Standing(file, Unpadded, [], 101);
    assert Standing(file, Unpadded, [OnePlan], 0);
    assert Landing(file, Unpadded, [OnePlan], 0) == 101 && file[101] == footer[64];
    var leaves, last := WalkTo(file, Unpadded, [OnePlan], 0, []);
    TooShort(file, Unpadded, 101, last);
  }
}
