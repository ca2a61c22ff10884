/** FindRef answers from one block what iteration would answer from the whole table. */
module FindTheorem {
  import opened Options
  import opened Bytes
  import opened RecordKey
  import opened RefRecord
  import opened Block
  import opened Table
  import opened Seek
  import opened Find
  import opened IndexTree

  // ---------------------------------------------------------------- order across blocks

  /** Where block i's records begin in the whole list. */
  function Offset(leaves: seq<Leaf>, i: nat): nat
    requires i <= |leaves|
  {
    |Flatten(leaves[..i])|
  }

  lemma {:induction false} FlattenSplit(leaves: seq<Leaf>, i: nat)
    requires i < |leaves|
    ensures Flatten(leaves) == Flatten(leaves[..i]) + leaves[i].records + Flatten(leaves[i + 1..])
  {
    assert leaves == leaves[..i] + leaves[i..];
    FlattenAppend(leaves[..i], leaves[i..]);
    assert leaves[i..][1..] == leaves[i + 1..];
    assert Flatten(leaves[i..]) == leaves[i].records + Flatten(leaves[i + 1..]);
  }

  lemma OffsetMonotone(leaves: seq<Leaf>, i: nat, j: nat)
    requires i < j <= |leaves|
    ensures Offset(leaves, i) + |leaves[i].records| <= Offset(leaves, j)
  {
    assert leaves[..j] == leaves[..i] + leaves[i..j];
    FlattenAppend(leaves[..i], leaves[i..j]);
  }

  lemma AtOffset(leaves: seq<Leaf>, i: nat, a: nat)
    requires i < |leaves| && a < |leaves[i].records|
    ensures Offset(leaves, i) + a < |Flatten(leaves)|
    ensures Flatten(leaves)[Offset(leaves, i) + a] == leaves[i].records[a]
  {
    FlattenSplit(leaves, i);
  }

  /** Records of an earlier block, and earlier records of one block, have the lesser names. */
  lemma {:induction false} NamesAscend(leaves: seq<Leaf>, i: nat, a: nat, j: nat, b: nat)
    requires SortedRecords(Flatten(leaves))
    requires i <= j < |leaves| && a < |leaves[i].records| && b < |leaves[j].records|
    requires i < j || a < b
    ensures Less(leaves[i].records[a].name, leaves[j].records[b].name)
  {
    hide Flatten, Compare;
    AtOffset(leaves, i, a);
    AtOffset(leaves, j, b);
    if i < j {
      OffsetMonotone(leaves, i, j);
    }
  }

  lemma LeafSorted(leaves: seq<Leaf>, i: nat)
    requires SortedRecords(Flatten(leaves)) && i < |leaves|
    ensures SortedRecords(leaves[i].records)
  {
    forall a, b | 0 <= a < b < |leaves[i].records|
      ensures Less(leaves[i].records[a].name, leaves[i].records[b].name)
    {
      NamesAscend(leaves, i, a, i, b);
    }
  }

  lemma LastsSorted(leaves: seq<Leaf>)
    requires SortedRecords(Flatten(leaves)) && NonEmpty(leaves)
    ensures SortedLasts(leaves)
  {
    forall i, j | 0 <= i < j < |leaves|
      ensures Less(LastName(leaves[i]), LastName(leaves[j]))
    {
      NamesAscend(leaves, i, |leaves[i].records| - 1, j, |leaves[j].records| - 1);
    }
  }

  /** Block i alone can hold name: names before it are less, names after it greater. */
  ghost predicate Separates(leaves: seq<Leaf>, i: nat, name: bytes) {
    && i < |leaves|
    && (forall k, a :: 0 <= k < i && 0 <= a < |leaves[k].records| ==> leaves[k].records[a].name != name)
    && (forall k, a :: i < k < |leaves| && 0 <= a < |leaves[k].records| ==> leaves[k].records[a].name != name)
  }

  lemma {:induction false} AbsentFromFlatten(leaves: seq<Leaf>, name: bytes)
    requires forall k, a :: 0 <= k < |leaves| && 0 <= a < |leaves[k].records| ==> leaves[k].records[a].name != name
    ensures forall r :: r in Flatten(leaves) ==> r.name != name
  {
    if leaves != [] {
      assert forall k :: 0 <= k < |leaves[1..]| ==> leaves[1..][k] == leaves[k + 1];
      AbsentFromFlatten(leaves[1..], name);
      assert forall r :: r in leaves[0].records ==> r.name != name;
    }
  }

  lemma OneLeafDecides(leaves: seq<Leaf>, i: nat, name: bytes)
    requires Separates(leaves, i, name)
    ensures Lookup(Flatten(leaves), name) == Lookup(leaves[i].records, name)
  {
    hide Lookup;
    var before, mid, after := leaves[..i], leaves[i].records, leaves[i + 1..];
    FlattenSplit(leaves, i);
    assert forall k :: 0 <= k < |after| ==> after[k] == leaves[i + 1 + k];
    AbsentFromFlatten(before, name);
    AbsentFromFlatten(after, name);
    LookupAppend(Flatten(before) + mid, Flatten(after), name);
    LookupAppend(Flatten(before), mid, name);
  }

  /** The index's choice of block separates. */
  lemma BlockForSeparates(leaves: seq<Leaf>, i: nat, name: bytes)
    requires SortedRecords(Flatten(leaves)) && NonEmpty(leaves) && BlockFor(leaves, i, name)
    ensures Separates(leaves, i, name)
  {
    hide Flatten, Compare;
    forall k, a | 0 <= k < i && 0 <= a < |leaves[k].records|
      ensures leaves[k].records[a].name != name
    {
      var m := |leaves[k].records| - 1;
      assert Less(LastName(leaves[k]), name);
      if a < m {
        NamesAscend(leaves, k, a, k, m);
        LessTransitive(leaves[k].records[a].name, LastName(leaves[k]), name);
      }
      LessTotal(name, name);
    }
    forall k, a | i < k < |leaves| && 0 <= a < |leaves[k].records|
      ensures leaves[k].records[a].name != name
    {
      NamesAscend(leaves, i, |leaves[i].records| - 1, k, a);
      LessTotal(LastName(leaves[i]), name);
    }
  }

  /** The linear walk's choice: block i begins at or before the name, the next one after it. */
  ghost predicate LinearBlock(leaves: seq<Leaf>, i: nat, name: bytes)
    requires NonEmpty(leaves)
  {
    && i < |leaves|
    && (i > 0 ==> !Less(name, leaves[i].records[0].name))
    && (i < |leaves| - 1 ==> Less(name, leaves[i + 1].records[0].name))
  }

  lemma LinearBlockSeparates(leaves: seq<Leaf>, i: nat, name: bytes)
    requires SortedRecords(Flatten(leaves)) && NonEmpty(leaves) && LinearBlock(leaves, i, name)
    ensures Separates(leaves, i, name)
  {
    hide Flatten, Compare;
    forall k, a | 0 <= k < i && 0 <= a < |leaves[k].records|
      ensures leaves[k].records[a].name != name
    {
      NamesAscend(leaves, k, a, i, 0);
    }
    forall k, a | i < k < |leaves| && 0 <= a < |leaves[k].records|
      ensures leaves[k].records[a].name != name
    {
      if k > i + 1 || a > 0 {
        NamesAscend(leaves, i + 1, 0, k, a);
        LessTransitive(name, leaves[i + 1].records[0].name, leaves[k].records[a].name);
      }
      LessTotal(name, name);
    }
  }

  // ---------------------------------------------------------------- from the walk to its blocks

  /** What the walk knows of block i, as the searches will read it again. */
  ghost predicate Rereads(file: bytes, h: Header, l: Leaf) {
    && l.pos < |file| && ValidBlock(l.block)
    && l.block.blockType == TypeRef && l.block.firstByteOffset == FirstByte(h, l.pos)
    && ParseBlock(file[l.pos..], FirstByte(h, l.pos)) == Parsed(l.block)
    && ScanRecords(Region(l.block), [], h).records == l.records
    && ScanRecords(Region(l.block), [], h).err == None
  }

  lemma {:induction false} WalkRereads(file: bytes, h: Header, pos: nat, prev: bytes)
    requires var w := LeavesFrom(file, h, pos, prev);
      w.err == None && NonEmpty(w.leaves) && forall l :: l in w.leaves ==> DecodeKey(Region(l.block), []).Key?
    ensures forall l :: l in LeavesFrom(file, h, pos, prev).leaves ==> Rereads(file, h, l)
    decreases if pos <= |file| then |file| - pos else 0
  {
    hide StepAt, DecodeKey, ParseBlock, ScanRecords;
    var s := StepAt(file, h, pos, prev);
    if s.More? {
      var w := LeavesFrom(file, h, pos, prev);
      var rest := LeavesFrom(file, h, s.next, s.last);
      assert w.leaves == [s.leaf] + rest.leaves;
      assert s.leaf in w.leaves;
      assert forall l :: l in rest.leaves ==> l in w.leaves;
      LeafScan(file, h, pos, prev);
      WalkRereads(file, h, s.next, s.last);
    }
  }

  /** The in-leaf scan of block i gives the answer of its own records. */
  lemma {:induction false} LeafAnswers(file: bytes, h: Header, l: Leaf, name: bytes)
    requires Rereads(file, h, l) && SortedRecords(l.records)
    ensures FindInLeaf(l.block.bytes, FirstByte(h, l.pos), name, h) == Lookup(l.records, name)
  {
    hide ParseBlock, ScanRecords, ScanLeaf, Lookup;
    var b := l.block;
    ReparsesAlone(file[l.pos..], FirstByte(h, l.pos));
    ScanLeafFinds(b.bytes, RecordsStart(b), RecordsEnd(b), [], name, h);
  }

  // ---------------------------------------------------------------- the linear fallback

  /** The first key the linear walk reads is the name of the block's first record. */
  lemma {:induction false} FirstKey(l: Leaf, h: Header)
    requires ValidBlock(l.block) && l.records != [] && DecodeKey(Region(l.block), []).Key?
    requires ScanRecords(Region(l.block), [], h).records == l.records
    ensures DecodeKey(l.block.bytes[RecordsStart(l.block)..], []).Key?
    ensures DecodeKey(l.block.bytes[RecordsStart(l.block)..], []).key == l.records[0].name
  {
    hide DecodeKey;
    var b := l.block;
    assert b.bytes[RecordsStart(b)..] == Region(b) + b.bytes[RecordsEnd(b)..];
    KeyIgnoresTail(Region(b), b.bytes[RecordsEnd(b)..], []);
    FirstName(Region(b), h);
  }

  lemma FirstName(region: bytes, h: Header)
    requires DecodeKey(region, []).Key? && ScanRecords(region, [], h).records != []
    ensures ScanRecords(region, [], h).records[0].name == DecodeKey(region, []).key
  {
  }

  /** The walk over leaves settled with r on the candidate it came with (i is -1) or on leaf i. */
  ghost predicate LandsAt(leaves: seq<Leaf>, h: Header, name: bytes, candidate: Option<LeafResult>, r: LeafResult,
                          i: int) {
    && (forall k :: 0 <= k < |leaves| ==> leaves[k].records != [])
    && -1 <= i < |leaves| && (candidate == None ==> i >= 0)
    && r == (if i < 0 then candidate.value else Found(leaves[i].block.bytes, FirstByte(h, leaves[i].pos)))
    && (i > 0 || (i == 0 && candidate.Some?) ==> !Less(name, leaves[i].records[0].name))
    && (i < |leaves| - 1 ==> Less(name, leaves[i + 1].records[0].name))
  }

  lemma LandsShift(leaf: Leaf, rest: seq<Leaf>, h: Header, name: bytes, candidate: Option<LeafResult>, r: LeafResult,
                   i: int)
    requires LandsAt(rest, h, name, Some(Found(leaf.block.bytes, FirstByte(h, leaf.pos))), r, i)
    requires leaf.records != [] && (candidate.Some? ==> !Less(name, leaf.records[0].name))
    ensures LandsAt([leaf] + rest, h, name, candidate, r, i + 1)
  {
    hide Less;
    var leaves := [leaf] + rest;
    assert leaves[i + 1] == if i < 0 then leaf else rest[i];
    assert i + 1 < |leaves| - 1 ==> leaves[i + 2] == rest[i + 1];
  }

  /** One block of the linear walk. */
  lemma {:induction false} LinearStep(file: bytes, h: Header, pos: nat, prev: bytes, name: bytes,
                                      candidate: Option<LeafResult>)
    requires candidate.Some? ==> candidate.value.Found?
    requires StepAt(file, h, pos, prev).More?
    requires var l := StepAt(file, h, pos, prev).leaf;
      l.records != [] && Rereads(file, h, l) && DecodeKey(Region(l.block), []).Key?
    ensures var s := StepAt(file, h, pos, prev);
      SeekLinear(file, h, pos, name, candidate) ==
      if pos > 0 && candidate.Some? && Less(name, s.leaf.records[0].name) then candidate.value
      else SeekLinear(file, h, s.next, name, Some(Found(s.leaf.block.bytes, FirstByte(h, s.leaf.pos))))
  {
    hide StepAt, DecodeKey, ParseBlock, ScanRecords, Region, Compare, NextPos, ValidBlock;
    var s := StepAt(file, h, pos, prev);
    StepShape(file, h, pos, prev);
    FirstKey(s.leaf, h);
    CompareAntisymmetric(s.leaf.records[0].name, name);
  }

  /** The walk from pos settles on the candidate it came with or on one of the blocks ahead. */
  lemma {:induction false} LinearLands(file: bytes, h: Header, pos: nat, prev: bytes, name: bytes,
                                       candidate: Option<LeafResult>)
    returns (i: int)
    requires candidate.Some? ==> candidate.value.Found?
    requires pos > 0 <==> candidate.Some?
    requires var w := LeavesFrom(file, h, pos, prev);
      && w.err == None && NonEmpty(w.leaves) && (w.leaves != [] || candidate.Some?)
      && forall l :: l in w.leaves ==> Rereads(file, h, l) && DecodeKey(Region(l.block), []).Key?
    ensures LandsAt(LeavesFrom(file, h, pos, prev).leaves, h, name, candidate,
                    SeekLinear(file, h, pos, name, candidate), i)
    decreases if pos <= |file| then |file| - pos else 0
  {
    hide StepAt, DecodeKey, Rereads, Region, Less, SeekLinear;
    var s := StepAt(file, h, pos, prev);
    var leaves := LeavesFrom(file, h, pos, prev).leaves;
    StepShape(file, h, pos, prev);
    if s.More? {
      var rest := LeavesFrom(file, h, s.next, s.last).leaves;
      assert leaves == [s.leaf] + rest;
      assert s.leaf in leaves;
      assert forall l :: l in rest ==> l in leaves;
      LinearStep(file, h, pos, prev, name, candidate);
      if pos > 0 && Less(name, s.leaf.records[0].name) {
        i := -1;
      } else {
        var found := Some(Found(s.leaf.block.bytes, FirstByte(h, s.leaf.pos)));
        i := LinearLands(file, h, s.next, s.last, name, found);
        LandsShift(s.leaf, rest, h, name, candidate, SeekLinear(file, h, s.next, name, found), i);
        i := i + 1;
      }
    } else {
      i := -1;
      NoBlockLeft(file, h, pos, name, candidate);
    }
  }

  lemma NoBlockLeft(file: bytes, h: Header, pos: nat, name: bytes, candidate: Option<LeafResult>)
    requires candidate.Some? && candidate.value.Found? && !RefBlockAt(file, h, pos)
    ensures SeekLinear(file, h, pos, name, candidate) == candidate.value
  {
  }

  lemma StepShape(file: bytes, h: Header, pos: nat, prev: bytes)
    ensures var s := StepAt(file, h, pos, prev);
      && (s.End? <==> !RefBlockAt(file, h, pos))
      && (s.More? ==>
        && ParseBlock(file[pos..], FirstByte(h, pos)) == Parsed(s.leaf.block)
        && s.leaf.pos == pos && s.next > pos
        && s.leaf.block.firstByteOffset == FirstByte(h, pos)
        && s.next == NextPos(h, pos, s.leaf.block.blockLen))
  {
    hide ScanRecords;
  }

  // ---------------------------------------------------------------- the theorem

  /** No index (root 0), or a tree over exactly the file's ref blocks, at most 63 index levels deep. */
  ghost predicate IndexedBy(file: bytes, h: Header, indexRoot: nat, t: Tree) {
    indexRoot == 0 ||
    var leaves := Leaves(file, h).leaves;
    && NonEmpty(leaves) && ValidTree(file, leaves, t) && DepthAtMost(t, 63)
    && Position(t, leaves) == indexRoot && Lo(t) == 0 && Hi(t) == |leaves|
  }

  lemma {:induction false} LandsOn(file: bytes, h: Header, indexRoot: nat, name: bytes, t: Tree) returns (i: nat)
    requires WellFormedLeaves(file, h) && IndexedBy(file, h, indexRoot, t) && Leaves(file, h).leaves != []
    ensures var leaves := Leaves(file, h).leaves;
      && Separates(leaves, i, name)
      && SeekToLeaf(file, h, indexRoot, name) == Found(leaves[i].block.bytes, FirstByte(h, leaves[i].pos))
  {
    hide LeavesFrom, Flatten, Separates, SeekLinear, SeekIndexed, DecodeKey, ScanRecords, ParseBlock;
    var leaves := Leaves(file, h).leaves;
    WalkRereads(file, h, 0, []);
    LastsSorted(leaves);
    if indexRoot == 0 {
      i := LinearLands(file, h, 0, [], name, None);
      LinearBlockSeparates(leaves, i, name);
    } else {
      i := IndexLands(file, h, leaves, t, name, 63);
      BlockForSeparates(leaves, i, name);
    }
  }

  /** A table with ref blocks: FindRef answers what iteration would. */
  lemma {:induction false} FindRefInBlocks(file: bytes, h: Header, indexRoot: nat, name: bytes, t: Tree)
    requires WellFormedLeaves(file, h) && IndexedBy(file, h, indexRoot, t) && Leaves(file, h).leaves != []
    ensures FindRef(file, h, indexRoot, name) == Lookup(Flatten(Leaves(file, h).leaves), name)
  {
    hide LeavesFrom, Flatten, Separates, SeekToLeaf, FindInLeaf, Lookup, DecodeKey, Rereads;
    var leaves := Leaves(file, h).leaves;
    var i := LandsOn(file, h, indexRoot, name, t);
    assert i < |leaves| by {
      SeparatesInRange(leaves, i, name);
    }
    WalkRereads(file, h, 0, []);
    assert leaves[i] in leaves;
    LeafSorted(leaves, i);
    LeafAnswers(file, h, leaves[i], name);
    OneLeafDecides(leaves, i, name);
  }

  lemma SeparatesInRange(leaves: seq<Leaf>, i: nat, name: bytes)
    requires Separates(leaves, i, name)
    ensures i < |leaves|
  {
  }

  /** A table without ref blocks has no index over them, and FindRef fails where iteration yields nothing. */
  lemma {:induction false} NoRefBlockToFind(file: bytes, h: Header, indexRoot: nat, name: bytes, t: Tree)
    requires IndexedBy(file, h, indexRoot, t) && !RefBlockAt(file, h, 0)
    ensures indexRoot == 0 && Leaves(file, h) == Walk([], None)
    ensures FindRef(file, h, indexRoot, name) == FindError(NoRefBlocks)
  {
    hide GoodIndexBlock, ParseBlock;
  }

  lemma BlocksBegin(file: bytes, h: Header)
    ensures Leaves(file, h).err == None ==> (Leaves(file, h).leaves != [] <==> RefBlockAt(file, h, 0))
  {
    hide ParseBlock, ScanRecords;
  }

  lemma {:induction false} LookupAnswers(records: seq<Record>, name: bytes)
    ensures !Lookup(records, name).FindError?
  {
    if records != [] {
      LookupAnswers(records[1..], name);
    }
  }

  /**
   On every well-formed table, with or without an index, FindRef returns the record iteration yields for
   the name, a miss when it yields none, and a miss for a tombstone, exactly when a ref block follows the
   file header. A table without one fails the look-up of every name.
   */
  lemma {:induction false} FindRefAgrees(file: bytes, h: Header, indexRoot: nat, name: bytes, t: Tree)
    requires WellFormedLeaves(file, h) && IndexedBy(file, h, indexRoot, t)
    ensures RefBlockAt(file, h, 0)
      <==> FindRef(file, h, indexRoot, name) == Lookup(Flatten(Leaves(file, h).leaves), name)
    ensures !RefBlockAt(file, h, 0) ==> FindRef(file, h, indexRoot, name) == FindError(NoRefBlocks)
  {
    hide LeavesFrom, Flatten, FindRef, Lookup, DecodeKey, Region, RefBlockAt, IndexedBy;
    BlocksBegin(file, h);
    if RefBlockAt(file, h, 0) {
      FindRefInBlocks(file, h, indexRoot, name, t);
    } else {
      NoRefBlockToFind(file, h, indexRoot, name, t);
      LookupAnswers(Flatten(Leaves(file, h).leaves), name);
    }
  }

  /** On strictly ascending names a record is the answer to its own name. */
  lemma {:induction false} LookupOwnName(records: seq<Record>, r: Record)
    requires SortedRecords(records) && r in records
    ensures Lookup(records, r.name) == if r.value == Deletion then Miss else Hit(r)
  {
    SortedTail(records);
    if records[0] != r {
      assert records == [records[0]] + records[1..];
      LessTotal(records[0].name, r.name);
      LookupOwnName(records[1..], r);
    }
  }

  /**
   What FindRef answers, record by record: a live record's name finds exactly that record, a tombstone's name
   is a miss, and so is a name no record has.
   */
  lemma {:induction false} FindRefAnswers(file: bytes, h: Header, indexRoot: nat, t: Tree, name: bytes)
    requires WellFormedLeaves(file, h) && IndexedBy(file, h, indexRoot, t) && RefBlockAt(file, h, 0)
    ensures forall r :: r in Flatten(Leaves(file, h).leaves) && r.name == name ==>
      FindRef(file, h, indexRoot, name) == if r.value == Deletion then Miss else Hit(r)
    ensures (forall r :: r in Flatten(Leaves(file, h).leaves) ==> r.name != name) ==>
      FindRef(file, h, indexRoot, name) == Miss
  {
    var records := Flatten(Leaves(file, h).leaves);
    assert SortedRecords(records);
    hide Leaves, Flatten, FindRef, Lookup, RefBlockAt, IndexedBy, WellFormedLeaves, SortedRecords;
    FindRefAgrees(file, h, indexRoot, name, t);
    forall r | r in records && r.name == name
      ensures FindRef(file, h, indexRoot, name) == if r.value == Deletion then Miss else Hit(r)
    {
      LookupOwnName(records, r);
    }
    LookupAbsent(records, name);
  }

  const FooterMagic: byte := 0x52

  /** A file header with its footer right behind it, which begins with the magic again: every look-up fails. */
  lemma EmptyTableFails(file: bytes, h: Header, name: bytes)
    requires h.size in {24, 28} && |file| == h.size + h.size + 44 && file[h.size] == FooterMagic
    ensures WellFormedLeaves(file, h) && Flatten(Leaves(file, h).leaves) == []
    ensures FindRef(file, h, 0, name) == FindError(NoRefBlocks) && Lookup([], name) == Miss
  {
    NoRefBlockToFind(file, h, 0, name, LeafAt(0));
  }
}
