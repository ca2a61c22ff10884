/**
 Ref indexes as a writer lays them out over planned ref blocks: any number of levels, any prefix lengths
 the keys share, any restarts at keys written whole. What was written is found through them.
 */
module IndexLayout {
  import opened Options
  import opened Bytes
  import opened RecordKey
  import opened RefRecord
  import opened Block
  import opened Table
  import opened Seek
  import opened Find
  import opened IndexTree
  import opened TableLayout
  import FindTheorem
  import Varint

  // ---------------------------------------------------------------- one index block

  /** An index record with its writer's choice of prefix length. */
  datatype PlacedKey = PlacedKey(key: bytes, prefixLen: nat, child: nat)

  ghost predicate LegalKey(k: PlacedKey, prev: bytes) {
    Shares(prev, k.key, k.prefixLen) && |k.key| < U32 && k.child < U64
  }

  ghost predicate LegalKeys(ks: seq<PlacedKey>, prev: bytes) {
    ks == [] || (LegalKey(ks[0], prev) && LegalKeys(ks[1..], ks[0].key))
  }

  predicate Writable(ks: seq<PlacedKey>) {
    forall k :: k in ks ==> k.prefixLen <= |k.key|
  }

  function EncodeIndexRecord(k: PlacedKey): bytes
    requires k.prefixLen <= |k.key|
  {
    EncodeKey(k.prefixLen, k.key, 0) + Varint.Encode(k.child)
  }

  function EncodeIndexRecords(ks: seq<PlacedKey>): bytes
    requires Writable(ks)
  {
    if ks == [] then [] else EncodeIndexRecord(ks[0]) + EncodeIndexRecords(ks[1..])
  }

  /** The records as they are read back, the first at offset at. */
  function ReadBack(ks: seq<PlacedKey>, at: nat): (es: seq<IndexEntry>)
    requires Writable(ks)
    ensures |es| == |ks|
    ensures forall i :: 0 <= i < |ks| ==> es[i].key == ks[i].key && es[i].child == ks[i].child
  {
    if ks == [] then []
    else [IndexEntry(at, ks[0].key, ks[0].child)] + ReadBack(ks[1..], at + |EncodeIndexRecord(ks[0])|)
  }

  lemma IndexRecordRoundTrip(k: PlacedKey, prev: bytes, tail: bytes)
    requires LegalKey(k, prev)
    ensures var buf := EncodeIndexRecord(k) + tail;
      var d := DecodeKey(buf, prev);
      && d.Key? && d.key == k.key
      && var v := Varint.Decode(buf[d.used..]);
      v.Decoded? && v.value == k.child && d.used + v.used == |EncodeIndexRecord(k)|
  {
    hide Varint.Encode, Varint.Decode, DecodeKey, EncodeKey;
    var head, child := EncodeKey(k.prefixLen, k.key, 0), Varint.Encode(k.child);
    var buf := EncodeIndexRecord(k) + tail;
    assert buf == head + (child + tail);
    KeyRoundTrip(prev, k.key, k.prefixLen, 0, child + tail);
    assert buf[|head|..] == child + tail;
    Varint.EncodingDecodes(k.child, buf[|head|..]);
  }

  /** The record region of an index block reads back as the records put there. */
  lemma {:induction false} IndexRecordsRoundTrip(b: bytes, cur: nat, end: nat, prev: bytes, ks: seq<PlacedKey>)
    requires cur <= end <= |b| && Writable(ks) && LegalKeys(ks, prev) && b[cur..end] == EncodeIndexRecords(ks)
    ensures Entries(b, cur, end, prev) == Some(ReadBack(ks, cur))
    decreases |ks|
  {
    hide DecodeKey, Varint.Decode, EncodeIndexRecord;
    if ks != [] {
      var code, rest := EncodeIndexRecord(ks[0]), EncodeIndexRecords(ks[1..]);
      IndexRecordRoundTrip(ks[0], prev, rest);
      var d := DecodeKey(b[cur..end], prev);
      assert b[cur..end][d.used..] == b[cur + d.used..end];
      assert b[cur..end][|code|..] == rest;
      assert b[cur + |code|..end] == b[cur..end][|code|..];
      IndexRecordsRoundTrip(b, cur + |code|, end, ks[0].key, ks[1..]);
    }
  }

  /** The first m records and the others lie side by side. */
  lemma {:induction false} SplitRecords(ks: seq<PlacedKey>, m: nat)
    requires Writable(ks) && m <= |ks|
    ensures EncodeIndexRecords(ks) == EncodeIndexRecords(ks[..m]) + EncodeIndexRecords(ks[m..])
    decreases m
  {
    hide EncodeIndexRecord;
    if m == 0 {
      assert ks[..0] == [] && ks[0..] == ks;
    } else {
      SplitRecords(ks[1..], m - 1);
      EncodeCons(ks);
      EncodeCons(ks[..m]);
      hide EncodeIndexRecords;
      assert ks[..m][0] == ks[0] && ks[..m][1..] == ks[1..][..m - 1] && ks[m..] == ks[1..][m - 1..];
    }
  }

  lemma EncodeCons(ks: seq<PlacedKey>)
    requires Writable(ks) && ks != []
    ensures EncodeIndexRecords(ks) == EncodeIndexRecord(ks[0]) + EncodeIndexRecords(ks[1..])
  {
    hide EncodeIndexRecord;
  }

  lemma ReadBackCons(ks: seq<PlacedKey>, at: nat, m: nat)
    requires Writable(ks) && 0 < m < |ks|
    ensures ReadBack(ks, at)[m] == ReadBack(ks[1..], at + |EncodeIndexRecord(ks[0])|)[m - 1]
  {
    hide EncodeIndexRecord;
  }

  /** The m-th record is read back where the first m end. */
  lemma {:induction false} ReadBackAt(ks: seq<PlacedKey>, at: nat, m: nat)
    requires Writable(ks) && m < |ks|
    ensures ReadBack(ks, at)[m].at == at + |EncodeIndexRecords(ks[..m])|
    decreases m
  {
    hide EncodeIndexRecord;
    if m > 0 {
      hide ReadBack, EncodeIndexRecords;
      ReadBackAt(ks[1..], at + |EncodeIndexRecord(ks[0])|, m - 1);
      ReadBackCons(ks, at, m);
      EncodeCons(ks[..m]);
      assert ks[..m][0] == ks[0] && ks[..m][1..] == ks[1..][..m - 1];
    }
  }

  lemma {:induction false} LegalAt(ks: seq<PlacedKey>, prev: bytes, m: nat)
    requires LegalKeys(ks, prev) && m < |ks|
    ensures |ks[m].key| < U32 && ks[m].child < U64
    decreases m
  {
    if m > 0 {
      LegalAt(ks[1..], ks[0].key, m - 1);
    }
  }

  /** A record written whole decodes with no previous key where it is read back. */
  lemma {:induction false} RecordAt(b: bytes, cur: nat, end: nat, prev: bytes, ks: seq<PlacedKey>, m: nat)
    requires cur <= end <= |b| && Writable(ks) && LegalKeys(ks, prev) && b[cur..end] == EncodeIndexRecords(ks)
    requires m < |ks| && ks[m].prefixLen == 0
    ensures var at := ReadBack(ks, cur)[m].at; cur <= at < end && DecodeKey(b[at..end], []).Key?
  {
    hide DecodeKey, EncodeIndexRecord, LegalKeys, ReadBack;
    SplitRecords(ks, m);
    ReadBackAt(ks, cur, m);
    LegalAt(ks, prev, m);
    var before, tail := EncodeIndexRecords(ks[..m]), EncodeIndexRecords(ks[m..]);
    assert ks[m..][0] == ks[m];
    IndexRecordRoundTrip(ks[m], [], EncodeIndexRecords(ks[m..][1..]));
    hide EncodeIndexRecords;
    assert b[cur + |before|..end] == b[cur..end][|before|..] == tail;
  }

  /** Restart r points at a key written whole. */
  ghost predicate AtWholeKey(ks: seq<PlacedKey>, r: nat)
    requires Writable(ks)
  {
    exists m: nat :: m < |ks| && ks[m].prefixLen == 0 && ReadBack(ks, 4)[m].at == r
  }

  ghost predicate LegalIndex(ks: seq<PlacedKey>, restarts: seq<nat>) {
    && ks != [] && Writable(ks) && LegalKeys(ks, [])
    && Encodable([], EncodeIndexRecords(ks), restarts)
    && forall i :: 0 <= i < |restarts| ==> AtWholeKey(ks, restarts[i])
  }

  lemma {:induction false} IndexBlockIsGood(ks: seq<PlacedKey>, restarts: seq<nat>)
    requires LegalIndex(ks, restarts) && SortedKeys(ReadBack(ks, 4))
    ensures GoodIndexBlock(Written([], TypeIndex, EncodeIndexRecords(ks), restarts), ReadBack(ks, 4))
  {
    hide EncodeBlock, EncodeIndexRecords, SortedKeys, ReadBack, Entries, LegalKeys;
    var records := EncodeIndexRecords(ks);
    var b := Written([], TypeIndex, records, restarts);
    var es := ReadBack(ks, 4);
    WrittenFields([], TypeIndex, records, restarts);
    IndexRecordsRoundTrip(b.bytes, 4, RecordsEnd(b), [], ks);
    forall i | 0 <= i < b.restartCount
      ensures OnEntry(b, es, i)
    {
      assert AtWholeKey(ks, restarts[i]);
      var m: nat :| m < |ks| && ks[m].prefixLen == 0 && es[m].at == restarts[i];
      RecordAt(b.bytes, 4, RecordsEnd(b), [], ks, m);
      assert RestartAt(b, es, i, m);
    }
  }

  // ---------------------------------------------------------------- the levels

  /** Some legal choices of prefix lengths and restarts put these entries at pos. */
  ghost predicate IndexStanding(file: bytes, pos: nat, es: seq<IndexEntry>) {
    pos < |file| && exists ks, restarts :: StandingAs(file, pos, es, ks, restarts)
  }

  ghost predicate StandingAs(file: bytes, pos: nat, es: seq<IndexEntry>, ks: seq<PlacedKey>, restarts: seq<nat>)
    requires pos < |file|
  {
    && LegalIndex(ks, restarts) && es == ReadBack(ks, 4)
    && EncodeBlock([], TypeIndex, EncodeIndexRecords(ks), restarts) <= file[pos..]
  }

  /** The position an index record gives for a child. */
  ghost function ChildAt(file: bytes, h: Header, plans: seq<Plan>, t: Tree): nat
    requires Standing(file, h, plans, 0)
  {
    match t
    case LeafAt(i) => if i < |plans| then Start(file, h, plans, 0, i) else 0
    case Node(pos, _, _) => pos
  }

  /**
   Index blocks over the planned ref blocks: a key is the last name below its child, children cover consecutive
   blocks.
   */
  ghost predicate IndexPlanned(file: bytes, h: Header, plans: seq<Plan>, t: Tree)
    requires Standing(file, h, plans, 0)
  {
    match t
    case LeafAt(i) => i < |plans|
    case Node(pos, entries, kids) =>
      && 0 < pos && IndexStanding(file, pos, entries) && kids != [] && |entries| == |kids|
      && (forall k :: 0 <= k < |kids| ==> IndexPlanned(file, h, plans, kids[k]))
      && (forall k :: 0 <= k < |kids| ==> Lo(kids[k]) < Hi(kids[k]) <= |plans|)
      && (forall k :: 0 < k < |kids| ==> Lo(kids[k]) == Hi(kids[k - 1]))
      && (forall k :: 0 <= k < |kids| ==> entries[k].child == ChildAt(file, h, plans, kids[k]))
      && (forall k :: 0 <= k < |kids| ==> entries[k].key == KeyAfter(plans[Hi(kids[k]) - 1].records, []))
  }

  lemma {:induction false} RecordsByIndex(rs: seq<Placed>)
    ensures |Records(rs)| == |rs| && forall i :: 0 <= i < |rs| ==> Records(rs)[i] == rs[i].record
  {
    if rs != [] {
      RecordsByIndex(rs[1..]);
    }
  }

  lemma {:induction false} HiAscends(kids: seq<Tree>, i: nat, j: nat)
    requires i < j < |kids|
    requires forall k :: 0 <= k < |kids| ==> Lo(kids[k]) < Hi(kids[k])
    requires forall k :: 0 < k < |kids| ==> Lo(kids[k]) == Hi(kids[k - 1])
    ensures Hi(kids[i]) < Hi(kids[j])
  {
    hide Lo, Hi;
    if i + 1 < j {
      HiAscends(kids, i, j - 1);
    }
  }

  /** The last name of a planned block, as the walk records it. */
  lemma LastPlanned(file: bytes, h: Header, plans: seq<Plan>, leaves: seq<Leaf>, i: nat)
    requires Standing(file, h, plans, 0) && AsPlanned(file, h, plans, 0, leaves) && i < |plans|
    requires NonEmpty(leaves)
    ensures LastName(leaves[i]) == KeyAfter(plans[i].records, [])
  {
    hide Standing, Start;
    assert leaves[i] in leaves;
    RecordsByIndex(plans[i].records);
  }

  /** The first hi blocks end with the name key. */
  ghost predicate EndsAt(leaves: seq<Leaf>, key: bytes, hi: nat)
    requires NonEmpty(leaves)
  {
    0 < hi <= |leaves| && key == LastName(leaves[hi - 1])
  }

  /** An index block over the last names of consecutive runs of blocks reads back as its entries. */
  lemma {:induction false} NodeIsGood(file: bytes, leaves: seq<Leaf>, pos: nat, es: seq<IndexEntry>, kids: seq<Tree>)
    requires NonEmpty(leaves) && SortedLasts(leaves) && IndexStanding(file, pos, es) && |es| == |kids|
    requires forall k :: 0 <= k < |kids| ==> Lo(kids[k]) < Hi(kids[k])
    requires forall k :: 0 < k < |kids| ==> Lo(kids[k]) == Hi(kids[k - 1])
    requires forall k :: 0 <= k < |kids| ==> EndsAt(leaves, es[k].key, Hi(kids[k]))
    ensures ParseBlock(file[pos..], 0).Parsed? && GoodIndexBlock(ParseBlock(file[pos..], 0).block, es)
  {
    hide ParseBlock, EncodeBlock, EncodeIndexRecords, GoodIndexBlock, LegalKeys, ReadBack, Less, Lo, Hi, LastName,
      AtWholeKey, Encodable;
    forall i, j | 0 <= i < j < |es|
      ensures Less(es[i].key, es[j].key)
    {
      HiAscends(kids, i, j);
      SortedBetween(leaves, Hi(kids[i]) - 1, Hi(kids[j]) - 1);
    }
    var ks, restarts :| StandingAs(file, pos, es, ks, restarts);
    var code := EncodeBlock([], TypeIndex, EncodeIndexRecords(ks), restarts);
    assert file[pos..] == code + file[pos..][|code|..];
    BlockRoundTrip([], TypeIndex, EncodeIndexRecords(ks), restarts, file[pos..][|code|..]);
    IndexBlockIsGood(ks, restarts);
  }

  lemma SortedBetween(leaves: seq<Leaf>, i: nat, j: nat)
    requires NonEmpty(leaves) && SortedLasts(leaves) && i < j < |leaves|
    ensures Less(LastName(leaves[i]), LastName(leaves[j]))
  {
  }

  lemma {:induction false} PlannedNode(file: bytes, h: Header, plans: seq<Plan>, t: Tree)
    requires Standing(file, h, plans, 0) && t.Node? && IndexPlanned(file, h, plans, t)
    ensures 0 < t.pos && IndexStanding(file, t.pos, t.entries) && t.kids != [] && |t.entries| == |t.kids|
    ensures forall k :: 0 <= k < |t.kids| ==> Lo(t.kids[k]) < Hi(t.kids[k])
    ensures forall k :: 0 < k < |t.kids| ==> Lo(t.kids[k]) == Hi(t.kids[k - 1])
  {
    hide Standing, IndexStanding, Lo, Hi, KeyAfter;
  }

  lemma {:induction false} PlannedKid(file: bytes, h: Header, plans: seq<Plan>, t: Tree, k: nat)
    requires Standing(file, h, plans, 0) && t.Node? && IndexPlanned(file, h, plans, t) && k < |t.kids|
    ensures |t.entries| == |t.kids| && IndexPlanned(file, h, plans, t.kids[k])
    ensures 0 < Hi(t.kids[k]) <= |plans| && t.entries[k].child == ChildAt(file, h, plans, t.kids[k])
    ensures t.entries[k].key == KeyAfter(plans[Hi(t.kids[k]) - 1].records, [])
  {
    hide Standing, IndexStanding, Lo, Hi, KeyAfter;
  }

  /** The three things a kid needs to be a valid child of record k. */
  ghost predicate ValidKid(file: bytes, leaves: seq<Leaf>, e: IndexEntry, kid: Tree)
    requires NonEmpty(leaves)
  {
    ValidTree(file, leaves, kid) && e.child == Position(kid, leaves) && EndsAt(leaves, e.key, Hi(kid))
  }

  lemma {:induction false} NodeIsValid(file: bytes, leaves: seq<Leaf>, t: Tree)
    requires NonEmpty(leaves) && SortedLasts(leaves)
    requires t.Node? && 0 < t.pos && IndexStanding(file, t.pos, t.entries) && t.kids != [] && |t.entries| == |t.kids|
    requires forall k :: 0 <= k < |t.kids| ==> Lo(t.kids[k]) < Hi(t.kids[k])
    requires forall k :: 0 < k < |t.kids| ==> Lo(t.kids[k]) == Hi(t.kids[k - 1])
    requires forall k :: 0 <= k < |t.kids| ==> ValidKid(file, leaves, t.entries[k], t.kids[k])
    ensures ValidTree(file, leaves, t)
  {
    hide SortedLasts, NonEmpty, Lo, Hi, LastName, ParseBlock, GoodIndexBlock, Position;
    NodeIsGood(file, leaves, t.pos, t.entries, t.kids);
  }

  /** A planned index is a well-formed one. */
  lemma {:induction false} PlannedIsValid(file: bytes, h: Header, plans: seq<Plan>, leaves: seq<Leaf>, t: Tree)
    requires Standing(file, h, plans, 0) && AsPlanned(file, h, plans, 0, leaves)
    requires NonEmpty(leaves) && SortedLasts(leaves) && IndexPlanned(file, h, plans, t)
    ensures ValidTree(file, leaves, t) && Position(t, leaves) == ChildAt(file, h, plans, t)
    decreases t
  {
    hide Standing, SortedLasts, NonEmpty, Start, Lo, Hi, IndexStanding, KeyAfter;
    match t
    case LeafAt(i) =>
    case Node(pos, entries, kids) =>
      hide IndexPlanned, ValidTree, AsPlanned;
      PlannedNode(file, h, plans, t);
      forall k | 0 <= k < |kids|
        ensures ValidKid(file, leaves, entries[k], kids[k])
      {
        PlannedKid(file, h, plans, t, k);
        PlannedIsValid(file, h, plans, leaves, kids[k]);
        LastPlanned(file, h, plans, leaves, Hi(kids[k]) - 1);
      }
      NodeIsValid(file, leaves, t);
  }

  // ---------------------------------------------------------------- the theorem

  /** The written table has no index (root 0), or one over all its ref blocks with at most 63 levels. */
  ghost predicate IndexWritten(file: bytes, h: Header, plans: seq<Plan>, indexRoot: nat, t: Tree)
    requires Standing(file, h, plans, 0)
  {
    indexRoot == 0 ||
    (&& IndexPlanned(file, h, plans, t) && DepthAtMost(t, 63)
     && ChildAt(file, h, plans, t) == indexRoot && Lo(t) == 0 && Hi(t) == |plans|)
  }

  lemma {:induction false} WrittenIsIndexed(file: bytes, h: Header, plans: seq<Plan>, indexRoot: nat, t: Tree)
    requires ValidHeader(h) && |file| <= MaxFile
    requires LaidOut(file, h, plans) && SortedRecords(AllRecords(plans)) && IndexWritten(file, h, plans, indexRoot, t)
    ensures WellFormedLeaves(file, h) && FindTheorem.IndexedBy(file, h, indexRoot, t)
    ensures Flatten(Leaves(file, h).leaves) == AllRecords(plans) && (plans == [] <==> !RefBlockAt(file, h, 0))
  {
    hide LeavesFrom, Flatten, Landing, DecodeKey, Region, RefBlockAt, IndexPlanned, ValidTree, DepthAtMost,
      SortedLasts, Start;
    IterationIsExact(file, h, plans);
    FindTheorem.BlocksBegin(file, h);
    var leaves := Leaves(file, h).leaves;
    FindTheorem.LastsSorted(leaves);
    if indexRoot != 0 {
      PlannedIsValid(file, h, plans, leaves, t);
    }
  }

  /**
   A table laid out from any plan over strictly ascending names, without an index or with one of any shape:
   every record written is found and nothing else, unless nothing was written.
   */
  lemma {:induction false} WrittenIsFound(file: bytes, h: Header, plans: seq<Plan>, indexRoot: nat, t: Tree,
                                          name: bytes)
    requires ValidHeader(h) && |file| <= MaxFile
    requires LaidOut(file, h, plans) && SortedRecords(AllRecords(plans)) && IndexWritten(file, h, plans, indexRoot, t)
    ensures plans == [] ==> FindRef(file, h, indexRoot, name) == FindError(NoRefBlocks)
    ensures forall r :: r in AllRecords(plans) && r.name == name ==>
      FindRef(file, h, indexRoot, name) == if r.value == Deletion then Miss else Hit(r)
    ensures plans != [] && (forall r :: r in AllRecords(plans) ==> r.name != name) ==>
      FindRef(file, h, indexRoot, name) == Miss
  {
    hide LaidOut, IndexWritten, FindRef, Lookup, WellFormedLeaves, FindTheorem.IndexedBy, RefBlockAt, Flatten, Leaves;
    WrittenIsIndexed(file, h, plans, indexRoot, t);
    hide AllRecords;
    if plans == [] {
      FindTheorem.FindRefAgrees(file, h, indexRoot, name, t);
    } else {
      FindTheorem.FindRefAnswers(file, h, indexRoot, t, name);
    }
  }

  const Unaligned := Header(24, 0, 0, 20)
  const OneKey := PlacedKey([97], 0, 0)
  const OneIndex := Node(37, [IndexEntry(4, [97], 0)], [LeafAt(0)])

  lemma OneKeyIsLegal()
    ensures LegalIndex([OneKey], [4]) && ReadBack([OneKey], 4) == [IndexEntry(4, [97], 0)]
    ensures |EncodeBlock([], TypeIndex, EncodeIndexRecords([OneKey]), [4])| == 13
  {
    assert [OneKey][1..] == [];
    assert Varint.Encode(0) == [0] && Varint.Encode(8) == [8];
    assert OneKey.key[0..] == [97];
    assert EncodeIndexRecords([OneKey]) == [0, 8, 97, 0];
    assert AtWholeKey([OneKey], 4);
  }

  lemma OneBlockLaidOut(preamble: bytes, tail: bytes)
    requires |preamble| == 24 && |tail| > 0 && tail[0] != TypeRef && LegalPlan(OnePlan, preamble, Unaligned)
    requires |BlockBytes(OnePlan, preamble)| == 37
    ensures LaidOut(BlockBytes(OnePlan, preamble) + tail, Unaligned, [OnePlan])
  {
    hide LegalPlan, EncodeRecords, LegalRecords;
    var code := BlockBytes(OnePlan, preamble);
    var file := code + tail;
    assert code[..24] == preamble && file[..24] == preamble;
    assert file[0..] == file && file[37] == tail[0];
    assert [OnePlan][1..] == [];
    assert Standing(file, Unaligned, [], 37);
    assert Standing(file, Unaligned, [OnePlan], 0);
    assert Landing(file, Unaligned, [OnePlan], 0) == 37;
  }

  lemma OneLevel(file: bytes)
    requires Standing(file, Unaligned, [OnePlan], 0) && IndexStanding(file, 37, OneIndex.entries)
    ensures IndexWritten(file, Unaligned, [OnePlan], 37, OneIndex)
  {
    hide Standing, IndexStanding;
    assert ChildAt(file, Unaligned, [OnePlan], LeafAt(0)) == 0;
    assert IndexPlanned(file, Unaligned, [OnePlan], LeafAt(0));
    assert DepthAtMost(LeafAt(0), 62);
  }

  /** A table of one ref block with an index block of 13 bytes behind it is written as the theorem asks. */
  lemma OneIndexed(preamble: bytes)
    requires |preamble| == 24
    ensures LegalPlan(OnePlan, preamble, Unaligned) && LegalIndex([OneKey], [4])
    ensures var file := BlockBytes(OnePlan, preamble) + EncodeBlock([], TypeIndex, EncodeIndexRecords([OneKey]), [4]);
      LaidOut(file, Unaligned, [OnePlan]) && IndexWritten(file, Unaligned, [OnePlan], 37, OneIndex)
  {
    OnePlanIsLegal(preamble, Unaligned);
    OneKeyIsLegal();
    hide LegalPlan, EncodeRecords, LegalRecords, LegalIndex, EncodeIndexRecords, Landing, Standing, RefBlockAt;
    var code, index := BlockBytes(OnePlan, preamble), EncodeBlock([], TypeIndex, EncodeIndexRecords([OneKey]), [4]);
    var file := code + index;
    assert index[0] == TypeIndex;
    OneBlockLaidOut(preamble, index);
    hide LaidOut, BlockBytes, EncodeBlock;
    assert file[37..] == index;
    assert StandingAs(file, 37, OneIndex.entries, [OneKey], [4]);
    OneLevel(file);
  }
}
