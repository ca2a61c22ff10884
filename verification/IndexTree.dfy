/** Ref indexes of any number of levels: what a well-formed one is, and where the descent lands. */
module IndexTree {
  import opened Options
  import opened Bytes
  import opened RecordKey
  import opened Block
  import opened Table
  import opened Seek
  import opened Find
  import Varint

  // ---------------------------------------------------------------- the records of an index block

  datatype IndexEntry = IndexEntry(at: nat, key: bytes, child: nat)

  /** Every record of b[cur..end), or None when one does not decode. */
  function Entries(b: bytes, cur: nat, end: nat, prev: bytes): Option<seq<IndexEntry>>
    requires end <= |b|
    decreases if cur <= end then end - cur else 0
  {
    if cur >= end then Some([])
    else
      var k := DecodeKey(b[cur..end], prev);
      if k.KeyError? then None
      else
        var v := Varint.Decode(b[cur + k.used..end]);
        if !v.Decoded? then None
        else
          var rest := Entries(b, cur + k.used + v.used, end, k.key);
          if rest.None? then None else Some([IndexEntry(cur, k.key, v.value)] + rest.value)
  }

  /** The record the descent should follow: the first with a key at or after probe, else the last. */
  function Pick(es: seq<IndexEntry>, probe: bytes): (j: nat)
    requires es != []
    ensures j < |es|
  {
    if |es| == 1 || Compare(es[0].key, probe) >= 0 then 0 else 1 + Pick(es[1..], probe)
  }

  lemma {:induction false} PickIsFirst(es: seq<IndexEntry>, probe: bytes)
    requires es != []
    ensures forall i :: 0 <= i < Pick(es, probe) ==> Less(es[i].key, probe)
    ensures Pick(es, probe) < |es| - 1 ==> !Less(es[Pick(es, probe)].key, probe)
  {
    if |es| > 1 && Less(es[0].key, probe) {
      PickIsFirst(es[1..], probe);
      forall i | 0 <= i < Pick(es, probe)
        ensures Less(es[i].key, probe)
      {
        assert i > 0 ==> es[i] == es[1..][i - 1];
      }
    }
  }

  ghost predicate SortedKeys(es: seq<IndexEntry>) {
    forall i, j :: 0 <= i < j < |es| ==> Less(es[i].key, es[j].key)
  }

  /** Jumping in at a record whose key is not after probe changes nothing. */
  lemma {:induction false} PickSkips(es: seq<IndexEntry>, m: nat, probe: bytes)
    requires m < |es| && SortedKeys(es) && Compare(es[m].key, probe) <= 0
    ensures Pick(es, probe) == m + Pick(es[m..], probe)
  {
    if m == 0 {
      assert es[0..] == es;
    } else {
      assert Less(es[0].key, probe) by {
        if Less(es[m].key, probe) {
          LessTransitive(es[0].key, es[m].key, probe);
        }
      }
      assert es[1..][m - 1..] == es[m..];
      PickSkips(es[1..], m - 1, probe);
    }
  }

  lemma {:induction false} ScanPicks(b: bytes, cur: nat, end: nat, prev: bytes, probe: bytes, last: Option<nat>)
    requires end <= |b| && Entries(b, cur, end, prev).Some?
    ensures var es := Entries(b, cur, end, prev).value;
      es != [] ==> ScanIndex(b, cur, end, prev, probe, last) == Go(es[Pick(es, probe)].child)
    decreases if cur <= end then end - cur else 0
  {
    hide DecodeKey, Varint.Decode;
    if cur < end {
      var k := DecodeKey(b[cur..end], prev);
      var v := Varint.Decode(b[cur + k.used..end]);
      var next := cur + k.used + v.used;
      var es := Entries(b, cur, end, prev).value;
      assert es[1..] == Entries(b, next, end, k.key).value;
      ScanPicks(b, next, end, k.key, probe, Some(v.value));
    }
  }

  /** The records from the m-th on are what decoding from there gives. */
  lemma {:induction false} EntriesSuffix(b: bytes, cur: nat, end: nat, prev: bytes, m: nat)
    requires end <= |b| && Entries(b, cur, end, prev).Some? && m < |Entries(b, cur, end, prev).value|
    ensures var es := Entries(b, cur, end, prev).value;
      && cur <= es[m].at < end
      && Entries(b, es[m].at, end, if m == 0 then prev else es[m - 1].key) == Some(es[m..])
    decreases m
  {
    hide DecodeKey, Varint.Decode;
    var es := Entries(b, cur, end, prev).value;
    if m == 0 {
      assert es[0..] == es;
    } else {
      var k := DecodeKey(b[cur..end], prev);
      var v := Varint.Decode(b[cur + k.used..end]);
      var next := cur + k.used + v.used;
      assert es[1..] == Entries(b, next, end, k.key).value;
      EntriesSuffix(b, next, end, k.key, m - 1);
      assert es[1..][m - 1..] == es[m..];
    }
  }

  /** At a record of prefix length 0 the previous key does not matter. */
  lemma {:induction false} EntriesAtRestart(b: bytes, at: nat, end: nat, prev: bytes)
    requires at < end <= |b| && Entries(b, at, end, prev).Some? && DecodeKey(b[at..end], []).Key?
    ensures Entries(b, at, end, []) == Entries(b, at, end, prev)
    ensures Entries(b, at, end, prev).value != []
    ensures DecodeKey(b[at..end], []).key == Entries(b, at, end, prev).value[0].key
  {
    hide DecodeKey, Varint.Decode;
    RestartKeyIgnoresPrev(b[at..end], prev);
  }

  // ---------------------------------------------------------------- a well-formed index block

  /** Restart i stands at the start of record m, which has prefix length 0. */
  ghost predicate RestartAt(b: Block, es: seq<IndexEntry>, i: nat, m: nat)
    requires ValidBlock(b) && i < b.restartCount
  {
    m < |es| && Restart(b, i) == es[m].at && es[m].at < RecordsEnd(b) && RestartKey(b, i).Key?
  }

  ghost predicate OnEntry(b: Block, es: seq<IndexEntry>, i: nat)
    requires ValidBlock(b) && i < b.restartCount
  {
    exists m: nat :: RestartAt(b, es, i, m)
  }

  ghost predicate GoodIndexBlock(b: Block, es: seq<IndexEntry>) {
    && ValidBlock(b) && b.blockType == TypeIndex && b.firstByteOffset == 0
    && Entries(b.bytes, 4, RecordsEnd(b), []) == Some(es) && es != [] && SortedKeys(es)
    && forall i :: 0 <= i < b.restartCount ==> OnEntry(b, es, i)
  }

  lemma {:induction false} SearchSucceeds(b: Block, probe: bytes, i: nat, j: nat)
    requires ValidBlock(b) && i <= j <= b.restartCount
    requires forall k :: 0 <= k < b.restartCount ==> Restart(b, k) <= RecordsEnd(b)
    ensures SearchRestarts(b, probe, i, j).Some?
    decreases j - i
  {
    hide RestartAfter;
    if i < j {
      var m := (i + j) / 2;
      SearchSucceeds(b, probe, i, m);
      SearchSucceeds(b, probe, m + 1, j);
    }
  }

  lemma RestartsInside(b: Block, es: seq<IndexEntry>)
    requires GoodIndexBlock(b, es)
    ensures forall k :: 0 <= k < b.restartCount ==> Restart(b, k) <= RecordsEnd(b)
  {
    hide Entries, RestartKey;
    forall k | 0 <= k < b.restartCount
      ensures Restart(b, k) <= RecordsEnd(b)
    {
      assert OnEntry(b, es, k);
      var m: nat :| RestartAt(b, es, k, m);
    }
  }

  /** Scanning from a restart not after probe follows the same record as scanning from the start. */
  lemma ScanFromRestart(b: Block, es: seq<IndexEntry>, probe: bytes, i: nat)
    requires GoodIndexBlock(b, es) && i < b.restartCount && Restart(b, i) <= RecordsEnd(b) && !RestartAfter(b, probe, i)
    ensures ScanIndex(b.bytes, Restart(b, i), RecordsEnd(b), [], probe, None) == Go(es[Pick(es, probe)].child)
  {
    hide Entries, ScanIndex, DecodeKey, Pick;
    var end := RecordsEnd(b);
    assert OnEntry(b, es, i);
    var m: nat :| RestartAt(b, es, i, m);
    EntriesSuffix(b.bytes, 4, end, [], m);
    var prev := if m == 0 then [] else es[m - 1].key;
    EntriesAtRestart(b.bytes, es[m].at, end, prev);
    PickSkips(es, m, probe);
    ScanPicks(b.bytes, es[m].at, end, [], probe, None);
  }

  /** descendIndex follows the first record at or after probe, else the last. */
  lemma DescentPicks(b: Block, es: seq<IndexEntry>, probe: bytes)
    requires GoodIndexBlock(b, es)
    ensures DescendIndex(b, probe) == Go(es[Pick(es, probe)].child)
  {
    hide SearchRestarts, Entries, ScanIndex, RestartAfter, Pick, OnEntry, SortedKeys;
    RestartsInside(b, es);
    SearchSucceeds(b, probe, 0, b.restartCount);
    RestartBeforeFound(b, probe, 0, b.restartCount);
    var idx := SearchRestarts(b, probe, 0, b.restartCount).value;
    if idx == 0 {
      ScanPicks(b.bytes, 4, RecordsEnd(b), [], probe, None);
    } else {
      ScanFromRestart(b, es, probe, idx - 1);
    }
  }

  // ---------------------------------------------------------------- the index as a tree

  /** A subtree covers the ref blocks [Lo, Hi) of the file. */
  datatype Tree = LeafAt(i: nat) | Node(pos: nat, entries: seq<IndexEntry>, kids: seq<Tree>)

  function Lo(t: Tree): nat {
    match t
    case LeafAt(i) => i
    case Node(_, _, kids) => if kids == [] then 0 else Lo(kids[0])
  }

  function Hi(t: Tree): nat {
    match t
    case LeafAt(i) => i + 1
    case Node(_, _, kids) => if kids == [] then 0 else Hi(kids[|kids| - 1])
  }

  function Position(t: Tree, leaves: seq<Leaf>): nat {
    match t
    case LeafAt(i) => if i < |leaves| then leaves[i].pos else 0
    case Node(pos, _, _) => pos
  }

  /** At most d index levels. */
  ghost predicate DepthAtMost(t: Tree, d: nat) {
    match t
    case LeafAt(_) => true
    case Node(_, _, kids) => d > 0 && forall k :: 0 <= k < |kids| ==> DepthAtMost(kids[k], d - 1)
  }

  ghost predicate NonEmpty(leaves: seq<Leaf>) {
    forall l :: l in leaves ==> l.records != []
  }

  /** Each key is the last name under its child, and the children cover consecutive blocks. */
  ghost predicate ValidTree(file: bytes, leaves: seq<Leaf>, t: Tree)
    requires NonEmpty(leaves)
  {
    match t
    case LeafAt(i) => i < |leaves|
    case Node(pos, entries, kids) =>
      && 0 < pos < |file| && kids != [] && |entries| == |kids|
      && ParseBlock(file[pos..], 0).Parsed? && GoodIndexBlock(ParseBlock(file[pos..], 0).block, entries)
      && (forall k :: 0 <= k < |kids| ==> ValidTree(file, leaves, kids[k]))
      && (forall k :: 0 <= k < |kids| ==> Lo(kids[k]) < Hi(kids[k]) <= |leaves|)
      && (forall k :: 0 < k < |kids| ==> Lo(kids[k]) == Hi(kids[k - 1]))
      && (forall k :: 0 <= k < |kids| ==> entries[k].child == Position(kids[k], leaves))
      && (forall k :: 0 <= k < |kids| ==> entries[k].key == LastName(leaves[Hi(kids[k]) - 1]))
  }

  /** An index block is not one of the ref blocks. */
  ghost predicate LeavesAreRef(file: bytes, h: Header, leaves: seq<Leaf>) {
    forall l :: l in leaves ==>
      && l.pos < |file| && l.block.blockType == TypeRef
      && ParseBlock(file[l.pos..], FirstByte(h, l.pos)) == Parsed(l.block)
  }

  /** No valid subtree hangs below a block at the subtree's own position. */
  lemma {:induction false} NoLoop(file: bytes, h: Header, leaves: seq<Leaf>, parent: Tree, k: nat, t: Tree)
    requires NonEmpty(leaves) && LeavesAreRef(file, h, leaves)
    requires parent.Node? && ValidTree(file, leaves, parent) && k < |parent.kids|
    requires parent.entries[k].child == parent.pos
    requires ValidTree(file, leaves, t) && Position(t, leaves) == parent.pos
    ensures false
    decreases t
  {
    hide ParseBlock, Entries, SortedKeys;
    match t
    case LeafAt(i) =>
    case Node(pos, entries, kids) =>
      NoLoop(file, h, leaves, parent, k, kids[k]);
  }

  /** Names below block i all precede probe. */
  ghost predicate AllBefore(leaves: seq<Leaf>, i: nat, probe: bytes)
    requires NonEmpty(leaves) && i <= |leaves|
  {
    forall k :: 0 <= k < i ==> Less(LastName(leaves[k]), probe)
  }

  /** Block i is the one for probe: earlier blocks end before it, and its own end does not unless it is the last. */
  ghost predicate BlockFor(leaves: seq<Leaf>, i: nat, probe: bytes)
    requires NonEmpty(leaves)
  {
    && i < |leaves| && AllBefore(leaves, i, probe)
    && (i < |leaves| - 1 ==> !Less(LastName(leaves[i]), probe))
  }

  ghost predicate SortedLasts(leaves: seq<Leaf>)
    requires NonEmpty(leaves)
  {
    forall i, j :: 0 <= i < j < |leaves| ==> Less(LastName(leaves[i]), LastName(leaves[j]))
  }

  /** Everything before Lo(t) ends before probe; and t's last block does not, unless t reaches the file's end. */
  ghost predicate Covers(leaves: seq<Leaf>, t: Tree, probe: bytes)
    requires NonEmpty(leaves)
  {
    && Lo(t) < Hi(t) <= |leaves| && AllBefore(leaves, Lo(t), probe)
    && (Hi(t) < |leaves| ==> !Less(LastName(leaves[Hi(t) - 1]), probe))
  }

  lemma {:induction false} ChildFacts(file: bytes, leaves: seq<Leaf>, t: Tree, k: nat)
    requires NonEmpty(leaves) && t.Node? && ValidTree(file, leaves, t) && k < |t.kids|
    ensures |t.entries| == |t.kids| && ValidTree(file, leaves, t.kids[k])
    ensures Lo(t.kids[k]) < Hi(t.kids[k]) <= |leaves|
    ensures Lo(t.kids[k]) == if k == 0 then Lo(t) else Hi(t.kids[k - 1])
    ensures k == |t.kids| - 1 ==> Hi(t.kids[k]) == Hi(t)
    ensures t.entries[k].child == Position(t.kids[k], leaves)
    ensures t.entries[k].key == LastName(leaves[Hi(t.kids[k]) - 1])
  {
    hide ParseBlock, GoodIndexBlock, LastName;
  }

  lemma BeforeBlock(leaves: seq<Leaf>, last: nat, probe: bytes)
    requires NonEmpty(leaves) && SortedLasts(leaves) && last < |leaves| && Less(LastName(leaves[last]), probe)
    ensures AllBefore(leaves, last + 1, probe)
  {
    hide Compare, LastName;
    forall k | 0 <= k < last
      ensures Less(LastName(leaves[k]), probe)
    {
      LessTransitive(LastName(leaves[k]), LastName(leaves[last]), probe);
    }
  }

  lemma {:induction false} KidCovers(file: bytes, leaves: seq<Leaf>, t: Tree, probe: bytes)
    requires NonEmpty(leaves) && SortedLasts(leaves)
    requires t.Node? && ValidTree(file, leaves, t) && Covers(leaves, t, probe)
    requires t.entries != [] && |t.entries| == |t.kids|
    ensures Covers(leaves, t.kids[Pick(t.entries, probe)], probe)
  {
    hide ParseBlock, GoodIndexBlock, ValidTree, LastName, Compare, Pick, Lo, Hi, SortedLasts;
    PickIsFirst(t.entries, probe);
    var j := Pick(t.entries, probe);
    ChildFacts(file, leaves, t, j);
    if j > 0 {
      ChildFacts(file, leaves, t, j - 1);
      assert Less(t.entries[j - 1].key, probe);
      BeforeBlock(leaves, Hi(t.kids[j - 1]) - 1, probe);
    }
  }

  /** The descent through at most fuel index levels lands on the block for probe. */
  lemma {:induction false} IndexLands(file: bytes, h: Header, leaves: seq<Leaf>, t: Tree, probe: bytes, fuel: nat)
    returns (i: nat)
    requires NonEmpty(leaves) && SortedLasts(leaves) && LeavesAreRef(file, h, leaves)
    requires ValidTree(file, leaves, t) && DepthAtMost(t, fuel) && Covers(leaves, t, probe)
    ensures BlockFor(leaves, i, probe)
    ensures SeekIndexed(file, h, Position(t, leaves), probe, fuel + 1)
         == Found(leaves[i].block.bytes, FirstByte(h, leaves[i].pos))
    decreases t
  {
    hide ParseBlock, GoodIndexBlock, Pick, DescendIndex, Compare, LastName, SortedLasts, Covers, AllBefore;
    match t
    case LeafAt(k) =>
      assert leaves[k] in leaves;
      LeafCovered(leaves, k, probe);
      i := k;
    case Node(pos, entries, kids) =>
      var b := ParseBlock(file[pos..], 0).block;
      GoodBlockIsIndex(b, entries);
      DescentPicks(b, entries, probe);
      var j := Pick(entries, probe);
      ChildFacts(file, leaves, t, j);
      if entries[j].child == pos {
        NoLoop(file, h, leaves, t, j, kids[j]);
      }
      KidCovers(file, leaves, t, probe);
      i := IndexLands(file, h, leaves, kids[j], probe, fuel - 1);
  }

  lemma LeafCovered(leaves: seq<Leaf>, k: nat, probe: bytes)
    requires NonEmpty(leaves) && Covers(leaves, LeafAt(k), probe)
    ensures BlockFor(leaves, k, probe)
  {
  }

  lemma GoodBlockIsIndex(b: Block, es: seq<IndexEntry>)
    requires GoodIndexBlock(b, es)
    ensures es != [] && ValidBlock(b) && b.blockType == TypeIndex
  {
  }
}
