/** FindRef, and its agreement with the full iteration on every well-formed table. */
module Find {
  import opened Options
  import opened Bytes
  import opened RecordKey
  import opened RefRecord
  import opened Block
  import opened Table
  import opened Seek

  datatype FindResult = Hit(record: Record) | Miss | FindError(error: Error)

  /** A name found as a tombstone is a miss. */
  function Observe(r: Record): FindResult {
    if r.value == Deletion then Miss else Hit(r)
  }

  /** The leaf scan: decode until the name is reached or passed. */
  function ScanLeaf(b: bytes, cur: nat, end: nat, prev: bytes, name: bytes, h: Header): FindResult
    requires end <= |b|
    decreases if cur <= end then end - cur else 0
  {
    if cur >= end then Miss
    else
      var r := DecodeRecord(b[cur..end], prev, h.hashSize, h.minUpdateIndex);
      if r.RecordError? then FindError(r.error)
      else if Compare(r.record.name, name) == 0 then Observe(r.record)
      else if Compare(r.record.name, name) > 0 then Miss
      else ScanLeaf(b, cur + r.used, end, r.record.name, name, h)
  }

  function FindInLeaf(leaf: bytes, firstByteOffset: nat, name: bytes, h: Header): FindResult {
    var p := ParseBlock(leaf, firstByteOffset);
    if p.BlockError? then FindError(p.error)
    else if p.block.blockType != TypeRef then FindError(BadBlockType)
    else ScanLeaf(p.block.bytes, firstByteOffset + 4, RecordsEnd(p.block), [], name, h)
  }

  function FindRef(file: bytes, h: Header, indexRoot: nat, name: bytes): FindResult {
    var leaf := SeekToLeaf(file, h, indexRoot, name);
    if leaf.SeekError? then FindError(leaf.error)
    else FindInLeaf(leaf.bytes, leaf.firstByteOffset, name, h)
  }

  method FindLeafRecord(b: bytes, start: nat, recordsEnd: nat, name: bytes, h: Header) returns (r: FindResult)
    requires start <= recordsEnd <= |b| && ValidHeader(h)
    ensures r == ScanLeaf(b, start, recordsEnd, [], name, h)
  {
    hide DecodeRecord;
    var kb := new KeyBuf();
    var cur := start;
    while cur < recordsEnd
      invariant start <= cur <= recordsEnd && kb.Valid() && fresh(kb.Repr)
      invariant ScanLeaf(b, cur, recordsEnd, kb.Prev(), name, h) == ScanLeaf(b, start, recordsEnd, [], name, h)
      decreases recordsEnd - cur
    {
      var record, n, err := IterRecord(b[cur..recordsEnd], h, kb);
      if err.Some? {
        return FindError(err.value);
      }
      var cmp := Compare(record.name, name);
      if cmp == 0 {
        if record.value.Deletion? {
          return Miss;
        }
        return Hit(record);
      }
      if cmp > 0 {
        return Miss;
      }
      cur := cur + n;
    }
    return Miss;
  }

  /** Reader.FindRef, on the file's bytes and the index position from its footer. */
  method FindRefInFile(file: bytes, h: Header, indexRoot: nat, name: bytes) returns (r: FindResult)
    requires ValidHeader(h) && |file| < U32
    ensures r == FindRef(file, h, indexRoot, name)
  {
    hide ParseBlock, DecodeRecord, SeekIndexed, SeekLinear;
    var scratch := new Scratch();
    var leaf: LeafResult;
    if indexRoot == 0 {
      leaf := SeekLinearLeaf(file, h, name, scratch);
    } else {
      leaf := SeekIndexedLeaf(file, h, indexRoot, name, scratch);
    }
    if leaf.SeekError? {
      return FindError(leaf.error);
    }
    var p := ParseBlockBytes(leaf.bytes, leaf.firstByteOffset);
    if p.BlockError? {
      return FindError(p.error);
    }
    if p.block.blockType != TypeRef {
      return FindError(BadBlockType);
    }
    r := FindLeafRecord(p.block.bytes, leaf.firstByteOffset + 4, RecordsEnd(p.block), name, h);
  }

  // ---------------------------------------------------------------- the reference answer

  /** What iteration says about a name. */
  function Lookup(records: seq<Record>, name: bytes): FindResult {
    if records == [] then Miss
    else if records[0].name == name then Observe(records[0])
    else Lookup(records[1..], name)
  }

  ghost predicate SortedRecords(records: seq<Record>) {
    forall i, j :: 0 <= i < j < |records| ==> Less(records[i].name, records[j].name)
  }

  function LastName(l: Leaf): bytes
    requires l.records != []
  {
    l.records[|l.records| - 1].name
  }

  /**
   A well-formed run of ref blocks: it decodes to the end, no block is empty, every block opens
   with a record of prefix length 0, and the names ascend strictly across the whole file. The run may
   be empty.
   */
  ghost predicate WellFormedLeaves(file: bytes, h: Header) {
    var w := Leaves(file, h);
    && w.err == None
    && SortedRecords(Flatten(w.leaves))
    && forall l :: l in w.leaves ==> l.records != [] && DecodeKey(Region(l.block), []).Key?
  }

  lemma {:induction false} LookupAppend(a: seq<Record>, b: seq<Record>, name: bytes)
    ensures (forall r :: r in a ==> r.name != name) ==> Lookup(a + b, name) == Lookup(b, name)
    ensures (forall r :: r in b ==> r.name != name) ==> Lookup(a + b, name) == Lookup(a, name)
  {
    if a == [] {
      assert a + b == b;
      LookupAbsent(b, name);
    } else {
      assert (a + b)[1..] == a[1..] + b;
      LookupAppend(a[1..], b, name);
    }
  }

  lemma {:induction false} LookupAbsent(a: seq<Record>, name: bytes)
    ensures (forall r :: r in a ==> r.name != name) ==> Lookup(a, name) == Miss
  {
    if a != [] {
      LookupAbsent(a[1..], name);
    }
  }

  // ---------------------------------------------------------------- one leaf

  lemma SortedTail(records: seq<Record>)
    requires SortedRecords(records) && records != []
    ensures SortedRecords(records[1..])
    ensures forall r :: r in records[1..] ==> Less(records[0].name, r.name)
  {
    forall r | r in records[1..]
      ensures Less(records[0].name, r.name)
    {
      var k :| 0 <= k < |records[1..]| && records[1..][k] == r;
      assert records[k + 1] == r;
    }
  }

  lemma AbsentAbove(r: Record, rest: seq<Record>, name: bytes)
    requires SortedRecords([r] + rest) && Less(name, r.name)
    ensures Lookup([r] + rest, name) == Miss
  {
    SortedTail([r] + rest);
    assert ([r] + rest)[1..] == rest;
    LessTotal(name, name);
    forall x | x in rest
      ensures x.name != name
    {
      LessTransitive(name, r.name, x.name);
    }
    LookupAbsent(rest, name);
  }

  lemma ScanUnfold(b: bytes, cur: nat, end: nat, prev: bytes, h: Header)
    requires cur < end <= |b| && ScanRecords(b[cur..end], prev, h).err == None
    ensures var r := DecodeRecord(b[cur..end], prev, h.hashSize, h.minUpdateIndex);
      && r.Decoded? && cur + r.used <= end
      && var rest := ScanRecords(b[cur + r.used..end], r.record.name, h);
      ScanRecords(b[cur..end], prev, h) == Scan([r.record] + rest.records, rest.last, None) && rest.err == None
  {
    hide DecodeRecord;
    var r := DecodeRecord(b[cur..end], prev, h.hashSize, h.minUpdateIndex);
    assert b[cur..end][r.used..] == b[cur + r.used..end];
  }

  /** On sorted records the early stop of the leaf scan loses nothing. */
  lemma {:induction false} ScanLeafFinds(b: bytes, cur: nat, end: nat, prev: bytes, name: bytes, h: Header)
    requires cur <= end <= |b|
    requires var s := ScanRecords(b[cur..end], prev, h); s.err == None && SortedRecords(s.records)
    ensures ScanLeaf(b, cur, end, prev, name, h) == Lookup(ScanRecords(b[cur..end], prev, h).records, name)
    decreases end - cur
  {
    hide DecodeRecord, ScanRecords;
    if cur < end {
      ScanUnfold(b, cur, end, prev, h);
      var r := DecodeRecord(b[cur..end], prev, h.hashSize, h.minUpdateIndex);
      var rest := ScanRecords(b[cur + r.used..end], r.record.name, h).records;
      assert ([r.record] + rest)[1..] == rest;
      SortedTail([r.record] + rest);
      CompareAntisymmetric(r.record.name, name);
      if Less(r.record.name, name) {
        ScanLeafFinds(b, cur + r.used, end, r.record.name, name, h);
      } else if Less(name, r.record.name) {
        AbsentAbove(r.record, rest, name);
      }
    } else {
      ScanEmpty(b[cur..end], prev, h);
    }
  }

  /** A record that does not decode fails the look-up of every name behind the ones before it. */
  lemma {:induction false} ScanLeafFails(b: bytes, cur: nat, end: nat, prev: bytes, name: bytes, h: Header)
    requires cur <= end <= |b|
    requires var s := ScanRecords(b[cur..end], prev, h);
      s.err.Some? && forall r :: r in s.records ==> Less(r.name, name)
    ensures ScanLeaf(b, cur, end, prev, name, h) == FindError(ScanRecords(b[cur..end], prev, h).err.value)
    decreases end - cur
  {
    hide DecodeRecord, Compare;
    var r := DecodeRecord(b[cur..end], prev, h.hashSize, h.minUpdateIndex);
    if r.Decoded? {
      assert b[cur..end][r.used..] == b[cur + r.used..end];
      var rest := ScanRecords(b[cur + r.used..end], r.record.name, h);
      assert forall x :: x in rest.records ==> x in [r.record] + rest.records;
      assert r.record in [r.record] + rest.records;
      ScanLeafFails(b, cur + r.used, end, r.record.name, name, h);
    }
  }

  lemma ScanEmpty(rest: bytes, prev: bytes, h: Header)
    requires rest == []
    ensures ScanRecords(rest, prev, h) == Scan([], prev, None)
  {
  }

  /** What the walk recorded about a leaf, read again on its own. */
  lemma {:induction false} LeafScan(file: bytes, h: Header, pos: nat, prev: bytes)
    requires var s := StepAt(file, h, pos, prev);
      s.More? && s.leaf.records != [] && DecodeKey(Region(s.leaf.block), []).Key?
    ensures var l := StepAt(file, h, pos, prev).leaf;
      && ParseBlock(file[pos..], FirstByte(h, pos)) == Parsed(l.block)
      && l.block.blockType == TypeRef && l.block.firstByteOffset == FirstByte(h, pos)
      && ScanRecords(Region(l.block), [], h).records == l.records
      && ScanRecords(Region(l.block), [], h).err == None
      && DecodeKey(Region(l.block), []).key == l.records[0].name
  {
    var b := StepAt(file, h, pos, prev).leaf.block;
    assert ParseBlock(file[pos..], FirstByte(h, pos)).block == b;
    assert file[pos..][FirstByte(h, pos)] == TypeRef;
    FirstRecordAnyPrev(Region(b), prev, h);
  }

  lemma FirstRecordAnyPrev(region: bytes, prev: bytes, h: Header)
    requires region != [] && DecodeKey(region, []).Key?
    ensures var s, t := ScanRecords(region, prev, h), ScanRecords(region, [], h);
      s.records == t.records && s.err == t.err
      && (s.records != [] ==> s.records[0].name == DecodeKey(region, []).key)
  {
    RestartRecordIgnoresPrev(region, prev, h.hashSize, h.minUpdateIndex);
  }
}
