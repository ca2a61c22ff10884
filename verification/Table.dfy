/**
 The walk over a reftable's ref blocks. Leaves says which blocks and records the bytes hold, on
 immutable sequences; IterAllRefs is the source's loop with its two rotating key buffers.
 */
module Table {
  import opened Options
  import opened Bytes
  import opened RecordKey
  import opened RefRecord
  import opened Block

  /** What the parsed file header contributes: its own length, the alignment, and record parameters. */
  datatype Header = Header(size: nat, blockSize: nat, minUpdateIndex: nat, hashSize: nat)

  predicate ValidHeader(h: Header) {
    h.size in {24, 28} && h.blockSize < 0x100_0000 && h.minUpdateIndex < U64 && h.hashSize in {20, 32}
  }

  // ---------------------------------------------------------------- records of one block

  datatype Scan = Scan(records: seq<Record>, last: bytes, err: Option<Error>)

  function ScanRecords(rest: bytes, prev: bytes, h: Header): (s: Scan)
    ensures s.err == None && s.records == [] <==> rest == []
    ensures s.err == None && rest != [] ==> s.last == s.records[|s.records| - 1].name
  {
    if rest == [] then Scan([], prev, None)
    else
      var r := DecodeRecord(rest, prev, h.hashSize, h.minUpdateIndex);
      if r.RecordError? then Scan([], prev, Some(r.error))
      else
        var s := ScanRecords(rest[r.used..], r.record.name, h);
        Scan([r.record] + s.records, s.last, s.err)
  }

  function Region(b: Block): bytes
    requires ValidBlock(b)
  {
    b.bytes[RecordsStart(b)..RecordsEnd(b)]
  }

  // ---------------------------------------------------------------- blocks of one file

  datatype Leaf = Leaf(pos: nat, block: Block, records: seq<Record>)

  datatype Walk = Walk(leaves: seq<Leaf>, err: Option<Error>)

  /** The first ref block shares its frame with the file header. */
  function FirstByte(h: Header, pos: nat): nat {
    if pos == 0 then h.size else 0
  }

  /** A ref block starts here: the byte that would be its type says so. */
  predicate RefBlockAt(file: bytes, h: Header, pos: nat) {
    pos < |file| && FirstByte(h, pos) < |file| - pos && file[pos + FirstByte(h, pos)] == TypeRef
  }

  /** roundUp in uint32. */
  function RoundUp(v: nat, m: nat): (r: nat)
    requires m > 0
    ensures r <= v + m - 1
  {
    var x := (v + m - 1) % U32;
    DivMul(x, m);
    x / m * m
  }

  lemma DivMul(x: nat, m: nat)
    requires m > 0
    ensures 0 <= x / m * m <= x < x / m * m + m
  {
    assert x == x / m * m + x % m;
  }

  function NextPos(h: Header, pos: nat, blockLen: nat): nat {
    var next := (pos + blockLen) % U32;
    if h.blockSize > 0 then RoundUp(next, h.blockSize) else next
  }

  /** One turn of the block walk: the ref blocks are over, the turn fails, or the walk goes on at next. */
  datatype Step = End | Failed(leaves: seq<Leaf>, error: Error) | More(leaf: Leaf, last: bytes, next: nat)

  function StepAt(file: bytes, h: Header, pos: nat, prev: bytes): (s: Step)
    ensures s.More? ==> pos < s.next && s.leaf.pos == pos < |file| && ValidBlock(s.leaf.block)
    ensures s.Failed? ==> forall l :: l in s.leaves ==> ValidBlock(l.block)
  {
    if !RefBlockAt(file, h, pos) then End
    else
      var b := ParseBlock(file[pos..], FirstByte(h, pos));
      if b.BlockError? then Failed([], b.error)
      else
        var s := ScanRecords(Region(b.block), prev, h);
        var leaf := Leaf(pos, b.block, s.records);
        var next := NextPos(h, pos, b.block.blockLen);
        if s.err.Some? then Failed([leaf], s.err.value)
        else if next <= pos then Failed([leaf], TruncatedBlock)
        else More(leaf, s.last, next)
  }

  function LeavesFrom(file: bytes, h: Header, pos: nat, prev: bytes): (w: Walk)
    ensures forall l :: l in w.leaves ==> ValidBlock(l.block)
    decreases if pos <= |file| then |file| - pos else 0
  {
    match StepAt(file, h, pos, prev)
    case End => Walk([], None)
    case Failed(leaves, e) => Walk(leaves, Some(e))
    case More(leaf, last, next) =>
      var w := LeavesFrom(file, h, next, last);
      Walk([leaf] + w.leaves, w.err)
  }

  function Leaves(file: bytes, h: Header): Walk {
    LeavesFrom(file, h, 0, [])
  }

  function Flatten(leaves: seq<Leaf>): seq<Record> {
    if leaves == [] then [] else leaves[0].records + Flatten(leaves[1..])
  }

  lemma {:induction false} FlattenAppend(a: seq<Leaf>, b: seq<Leaf>)
    ensures Flatten(a + b) == Flatten(a) + Flatten(b)
  {
    if a == [] {
      assert a + b == b;
    } else {
      assert (a + b)[1..] == a[1..] + b;
      FlattenAppend(a[1..], b);
    }
  }

  // ---------------------------------------------------------------- iterAllRefs

  /**
   The record loop of one block, over blk[cur..recordsEnd]. The buffers come and go between kb and
   the decoder; the names collected are copies made when the record is yielded.
   */
  method IterBlock(blk: bytes, start: nat, recordsEnd: nat, h: Header, kb: KeyBuf, ghost all: Scan)
    returns (records: seq<Record>, err: Option<Error>)
    requires start <= recordsEnd <= |blk| && ValidHeader(h) && kb.Valid()
    requires all == ScanRecords(blk[start..recordsEnd], kb.Prev(), h)
    modifies kb.Repr
    ensures kb.Valid() && fresh(kb.Repr - old(kb.Repr))
    ensures records == all.records && err == all.err
    ensures err == None ==> kb.Prev() == all.last
  {
    hide DecodeRecord, ScanRecords;
    records, err := [], None;
    var cur := start;
    while cur < recordsEnd
      invariant start <= cur <= recordsEnd
      invariant kb.Valid() && fresh(kb.Repr - old(kb.Repr))
      invariant Continues(all, records, ScanRecords(blk[cur..recordsEnd], kb.Prev(), h))
    {
      ghost var before := kb.Prev();
      var record, n, e := IterRecord(blk[cur..recordsEnd], h, kb);
      ContinuesStep(all, records, blk, cur, recordsEnd, before, h);
      if e.Some? {
        return records, e;
      }
      records := records + [record];
      cur := cur + n;
    }
    ContinuesEnd(all, records, kb.Prev(), h);
  }

  /** A scan split at the records already taken. */
  ghost predicate Continues(all: Scan, taken: seq<Record>, s: Scan) {
    all == Scan(taken + s.records, s.last, s.err)
  }

  lemma ContinuesStep(all: Scan, taken: seq<Record>, blk: bytes, cur: nat, end: nat, prev: bytes, h: Header)
    requires cur < end <= |blk| && Continues(all, taken, ScanRecords(blk[cur..end], prev, h))
    ensures match DecodeRecord(blk[cur..end], prev, h.hashSize, h.minUpdateIndex)
      case RecordError(e) => all.records == taken && all.err == Some(e)
      case Decoded(record, n) =>
        0 < n && cur + n <= end && Continues(all, taken + [record], ScanRecords(blk[cur + n..end], record.name, h))
  {
    hide DecodeRecord;
    match DecodeRecord(blk[cur..end], prev, h.hashSize, h.minUpdateIndex)
    case RecordError(e) =>
    case Decoded(record, n) =>
      assert blk[cur..end][n..] == blk[cur + n..end];
      var s := ScanRecords(blk[cur + n..end], record.name, h);
      assert taken + ([record] + s.records) == taken + [record] + s.records;
  }

  lemma ContinuesEnd(all: Scan, taken: seq<Record>, prev: bytes, h: Header)
    requires Continues(all, taken, ScanRecords([], prev, h))
    ensures all == Scan(taken, prev, None)
  {
  }

  /** One turn of the record loop: decode out of the buffers, copy the name out, rotate. */
  method IterRecord(rest: bytes, h: Header, kb: KeyBuf) returns (record: Record, used: nat, err: Option<Error>)
    requires rest != [] && ValidHeader(h) && kb.Valid()
    modifies kb.Repr
    ensures kb.Valid() && fresh(kb.Repr - old(kb.Repr))
    ensures var r := DecodeRecord(rest, old(kb.Prev()), h.hashSize, h.minUpdateIndex);
      if r.RecordError? then err == Some(r.error)
      else err == None && r == Decoded(record, used) && kb.Prev() == record.name
  {
    var prev, scratch := kb.Next();
    var name, value, n, e := DecodeRefRecord(rest, prev, scratch, h.hashSize, h.minUpdateIndex);
    if e.Some? {
      return Record([], Deletion), 0, e;
    }
    record := Record(if name.Slice? then name.arr[..name.len] else [], value);
    kb.Swap(name);
    return record, n, None;
  }

  /** Parse the block at pos, collect its records, and say where the next one would be. */
  method IterStep(file: bytes, h: Header, pos: nat, kb: KeyBuf, ghost step: Step)
    returns (records: seq<Record>, err: Option<Error>, next: nat)
    requires ValidHeader(h) && |file| < U32 && pos < |file| && kb.Valid()
    requires RefBlockAt(file, h, pos) && step == StepAt(file, h, pos, kb.Prev())
    modifies kb.Repr
    ensures kb.Valid() && fresh(kb.Repr - old(kb.Repr))
    ensures err == None ==> step.More? && records == step.leaf.records && next == step.next && kb.Prev() == step.last
    ensures err.Some? ==> step.Failed? && records == Flatten(step.leaves) && err.value == step.error
  {
    hide DecodeRecord, ScanRecords, ParseBlock;
    records, err, next := [], None, pos;
    var firstByteOffset := if pos == 0 then h.size else 0;
    var parsed := ParseBlockBytes(file[pos..], firstByteOffset);
    if parsed.BlockError? {
      return [], Some(parsed.error), pos;
    }
    var b := parsed.block;
    records, err := IterBlock(b.bytes, firstByteOffset + 4, RecordsEnd(b), h, kb, ScanRecords(Region(b), kb.Prev(), h));
    if err.Some? {
      return;
    }
    next := (pos + b.blockLen) % U32;
    if h.blockSize > 0 {
      next := RoundUp(next, h.blockSize);
    }
    if next <= pos {
      err := Some(TruncatedBlock);
    }
  }

  method IterAllRefs(file: bytes, h: Header) returns (records: seq<Record>, err: Option<Error>)
    requires ValidHeader(h) && |file| < U32
    ensures records == Flatten(Leaves(file, h).leaves) && err == Leaves(file, h).err
  {
    records := [];
    var kb := new KeyBuf();
    var pos := 0;
    ghost var all := Leaves(file, h);
    while pos < |file|
      invariant kb.Valid() && fresh(kb.Repr)
      invariant Walks(all, records, LeavesFrom(file, h, pos, kb.Prev()))
      decreases |file| - pos
    {
      var firstByteOffset := if pos == 0 then h.size else 0;
      if |file| - pos <= firstByteOffset {
        return records, None;
      }
      if file[pos + firstByteOffset] != TypeRef {
        return records, None;
      }
      ghost var before := kb.Prev();
      ghost var step := StepAt(file, h, pos, before);
      var found, e, next := IterStep(file, h, pos, kb, step);
      WalksStep(all, records, file, h, pos, before);
      records := records + found;
      if e.Some? {
        return records, e;
      }
      pos := next;
    }
    return records, None;
  }

  /** A walk split at the records already yielded. */
  ghost predicate Walks(all: Walk, yielded: seq<Record>, w: Walk) {
    Flatten(all.leaves) == yielded + Flatten(w.leaves) && all.err == w.err
  }

  lemma WalksStep(all: Walk, yielded: seq<Record>, file: bytes, h: Header, pos: nat, prev: bytes)
    requires Walks(all, yielded, LeavesFrom(file, h, pos, prev))
    ensures match StepAt(file, h, pos, prev)
      case End => Flatten(all.leaves) == yielded && all.err == None
      case Failed(leaves, e) => Flatten(all.leaves) == yielded + Flatten(leaves) && all.err == Some(e)
      case More(leaf, last, next) => Walks(all, yielded + leaf.records, LeavesFrom(file, h, next, last))
  {
    match StepAt(file, h, pos, prev)
    case End =>
    case Failed(_, _) =>
    case More(leaf, last, next) =>
      var w := LeavesFrom(file, h, next, last);
      assert ([leaf] + w.leaves)[1..] == w.leaves;
      assert yielded + (leaf.records + Flatten(w.leaves)) == yielded + leaf.records + Flatten(w.leaves);
  }
}
