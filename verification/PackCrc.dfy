/** The byte range whose CRC-32 a pack index records for an object, and the check over it. */
module PackCrc {
  import opened Options
  import opened Bytes
  import opened FanoutSearch
  import opened PackIndex

  const ReadChunk := 0x1_0000

  // ---------------------------------------------------------------- the ranges tile the pack

  /** end is where the object at offset at stops: the next recorded offset, or the trailer. */
  ghost predicate Ends(offsets: set<int>, trailer: int, at: int, end: int) {
    && at < end
    && (end in offsets || end == trailer)
    && forall o :: o in offsets && at < o ==> end <= o
  }

  /** Two objects' ranges never share a byte. */
  lemma RangesDisjoint(offsets: set<int>, trailer: int, a: int, aEnd: int, b: int, bEnd: int)
    requires a in offsets && b in offsets && a != b
    requires Ends(offsets, trailer, a, aEnd) && Ends(offsets, trailer, b, bEnd)
    ensures aEnd <= b || bEnd <= a
  {
    if a < b {
      assert aEnd <= b;
    } else {
      assert bEnd <= a;
    }
  }

  /** Every byte from the first object to the trailer lies in some object's range. */
  lemma {:induction false} RangesCover(offsets: set<int>, trailer: int, x: int) returns (at: int, end: int)
    requires (exists o :: o in offsets && o <= x)
    requires x < trailer && forall o :: o in offsets ==> o < trailer
    ensures at in offsets && at <= x < end && Ends(offsets, trailer, at, end)
    decreases |offsets|
  {
    var o :| o in offsets;
    var rest := offsets - {o};
    assert forall p :: p in offsets ==> p == o || p in rest;
    if exists p :: p in rest && p <= x {
      at, end := RangesCover(rest, trailer, x);
      if at < o <= x {
        at := o;
      } else if x < o < end {
        end := o;
      }
    } else {
      at := o;
      end := LeastAbove(rest, trailer);
    }
  }

  lemma {:induction false} LeastAbove(offsets: set<int>, trailer: int) returns (end: int)
    ensures end in offsets || end == trailer
    ensures end <= trailer && forall o :: o in offsets ==> end <= o
    decreases |offsets|
  {
    if o :| o in offsets {
      var rest := offsets - {o};
      assert forall p :: p in offsets ==> p == o || p in rest;
      end := LeastAbove(rest, trailer);
      end := if o < end then o else end;
    } else {
      end := trailer;
    }
  }

  // ---------------------------------------------------------------- chunked reading

  /** The checksum as a fold of an update step over bytes; CRC-32 is one such step. */
  function Fold(update: (nat, byte) -> nat, sum: nat, b: bytes): (r: nat)
    decreases |b|
  {
    if b == [] then sum else Fold(update, update(sum, b[0]), b[1..])
  }

  /** Nothing leaves the sum as it is, and one byte is one update. */
  lemma FoldOne(update: (nat, byte) -> nat, sum: nat, b: byte)
    ensures Fold(update, sum, []) == sum && Fold(update, sum, [b]) == update(sum, b)
  {
    assert [b][1..] == [];
  }

  lemma {:induction false} FoldConcat(update: (nat, byte) -> nat, sum: nat, a: bytes, b: bytes)
    ensures Fold(update, sum, a + b) == Fold(update, Fold(update, sum, a), b)
    decreases |a|
  {
    if a == [] {
      assert a + b == b;
    } else {
      assert (a + b)[1..] == a[1..] + b;
      FoldConcat(update, update(sum, a[0]), a[1..], b);
    }
  }

  /** A pack's bytes, and the offsets at which reading it fails. */
  datatype Pack = Pack(data: bytes, faults: set<nat>)

  ghost predicate Faultless(pack: Pack, start: nat, end: nat) {
    forall off :: start <= off < end ==> off !in pack.faults
  }

  /** Pack.ReadAt: at least one byte and at most want of them from off on, none behind the end, or a failure. */
  method ReadAt(pack: Pack, off: nat, want: nat) returns (r: Option<bytes>)
    requires want > 0
    ensures r == None <==> off in pack.faults
    ensures r.Some? ==> |r.value| <= want && (r.value == [] <==> off >= |pack.data|)
    ensures r.Some? && r.value != [] ==> off + |r.value| <= |pack.data| && r.value == pack.data[off..off + |r.value|]
  {
    if off in pack.faults {
      return None;
    }
    if off >= |pack.data| {
      return Some([]);
    }
    var n :| 1 <= n <= want && off + n <= |pack.data|;
    return Some(pack.data[off..off + n]);
  }

  /**
   crc32Range: however the reads are cut up, the sum is that of one pass over the range, and there is one
   unless a read fails or the range runs past the pack.
   */
  method Crc32Range(update: (nat, byte) -> nat, pack: Pack, start: nat, end: nat) returns (r: Option<nat>)
    requires start <= end
    ensures r.Some? ==> start == end || end <= |pack.data|
    ensures r.Some? && end <= |pack.data| ==> r.value == Fold(update, 0, pack.data[start..end])
    ensures r == None ==> start < end && (end > |pack.data| || !Faultless(pack, start, end))
  {
    var sum := 0;
    var off := start;
    while off < end
      invariant start <= off <= end
      invariant start < off ==> off <= |pack.data|
      invariant off <= |pack.data| ==> sum == Fold(update, 0, pack.data[start..off])
    {
      var want := if end - off < ReadChunk then end - off else ReadChunk;
      var chunk := ReadAt(pack, off, want);
      if chunk == None || chunk.value == [] {
        return None;
      }
      var n := |chunk.value|;
      FoldConcat(update, 0, pack.data[start..off], chunk.value);
      assert pack.data[start..off] + chunk.value == pack.data[start..off + n];
      sum := Fold(update, sum, chunk.value);
      off := off + n;
    }
    return Some(sum);
  }

  // ---------------------------------------------------------------- the check

  datatype Verdict = Skipped | Intact | Corrupted

  /** FindCRC32: version 1 records none. */
  method FindCrc32(i: Idx, name: bytes) returns (r: Option<nat>)
    requires Valid(i) && |name| == i.hashLen
    ensures r.Some? ==> i.ver == 2
    ensures r.Some? ==> exists k :: 0 <= k < i.count && NameAt(i, k) == name && CrcAt(i, k) == r.value
    ensures r == None && i.ver == 2 && WellFormed(i) ==> forall k :: 0 <= k < i.count ==> NameAt(i, k) != name
  {
    hide Valid, CrcAt, NameAt, WellFormed;
    if i.ver != 2 {
      return None;
    }
    var row := FindRow(i, name);
    if row == None {
      return None;
    }
    return Some(CrcAt(i, row.value));
  }

  ghost function Offsets(i: Idx): set<int>
    requires Valid(i)
  {
    set k | 0 <= k < i.count && Recorded(i, k).Some? :: Recorded(i, k).value
  }

  lemma OffsetsAreRecorded(i: Idx, o: int)
    requires Valid(i)
    ensures o in Offsets(i) <==> IsRecorded(i, i.count, o)
  {
    hide Valid, Recorded;
  }

  /**
   Where verifyPackCRC lets the object at offset at stop: the next recorded offset, or the trailer when there is
   none.
   */
  ghost predicate Stops(i: Idx, pack: Pack, at: nat, end: int)
    requires Valid(i)
  {
    if exists o :: o in Offsets(i) && at < o then
      Ends(Offsets(i), |pack.data| - i.hashLen, at, end) && end in Offsets(i)
    else end == |pack.data| - i.hashLen
  }

  /** Every recorded offset lies before the pack's trailer. */
  ghost predicate BeforeTrailer(i: Idx, pack: Pack)
    requires Valid(i)
  {
    forall o :: o in Offsets(i) ==> 0 <= o < |pack.data| - i.hashLen
  }

  /** Where a recorded object stops is where its range ends. */
  lemma StopsWhereItEnds(i: Idx, pack: Pack, at: nat, end: int)
    requires Valid(i) && BeforeTrailer(i, pack) && at in Offsets(i)
    ensures Stops(i, pack, at, end) <==> Ends(Offsets(i), |pack.data| - i.hashLen, at, end)
  {
    hide Valid, Offsets;
  }

  ghost predicate InSomeRange(i: Idx, pack: Pack, x: int)
    requires Valid(i)
  {
    exists at: nat, end: int :: at in Offsets(i) && Stops(i, pack, at, end) && at <= x < end
  }

  /**
   The ranges verified for the objects of one index never overlap, and cover the pack from the first to the
   trailer.
   */
  lemma VerifiedRangesTile(i: Idx, pack: Pack)
    requires Valid(i) && BeforeTrailer(i, pack)
    ensures forall a: nat, aEnd: int, b: nat, bEnd: int ::
      a in Offsets(i) && b in Offsets(i) && a != b && Stops(i, pack, a, aEnd) && Stops(i, pack, b, bEnd) ==>
        aEnd <= b || bEnd <= a
    ensures forall x: int :: (exists o :: o in Offsets(i) && o <= x) && x < |pack.data| - i.hashLen ==>
      InSomeRange(i, pack, x)
  {
    hide Valid, Offsets, Stops, Ends;
    var trailer := |pack.data| - i.hashLen;
    forall a: nat, aEnd: int, b: nat, bEnd: int |
      a in Offsets(i) && b in Offsets(i) && a != b && Stops(i, pack, a, aEnd) && Stops(i, pack, b, bEnd)
      ensures aEnd <= b || bEnd <= a
    {
      StopsWhereItEnds(i, pack, a, aEnd);
      StopsWhereItEnds(i, pack, b, bEnd);
      RangesDisjoint(Offsets(i), trailer, a, aEnd, b, bEnd);
    }
    forall x: int | (exists o :: o in Offsets(i) && o <= x) && x < trailer
      ensures InSomeRange(i, pack, x)
    {
      var at, end := RangesCover(Offsets(i), trailer, x);
      StopsWhereItEnds(i, pack, at, end);
    }
  }

  /** The sums recorded for name are those of the bytes from at to where the object stops. */
  ghost predicate Passes(update: (nat, byte) -> nat, i: Idx, pack: Pack, name: bytes, at: nat)
    requires Valid(i)
  {
    i.ver == 2 ==> forall k: nat :: k < i.count && NameAt(i, k) == name ==> RowPasses(update, i, pack, k, at)
  }

  ghost predicate RowPasses(update: (nat, byte) -> nat, i: Idx, pack: Pack, k: nat, at: nat)
    requires Valid(i) && i.ver == 2 && k < i.count
  {
    exists end :: Stops(i, pack, at, end) && at < end <= |pack.data| &&
      CrcAt(i, k) == Fold(update, 0, pack.data[at..end])
  }

  /** A row whose sum is not that of its range does not let its object pass. */
  lemma DamageShows(update: (nat, byte) -> nat, i: Idx, pack: Pack, k: nat, at: nat, end: int)
    requires Valid(i) && i.ver == 2 && k < i.count && Stops(i, pack, at, end) && at < end <= |pack.data|
    requires CrcAt(i, k) != Fold(update, 0, pack.data[at..end])
    ensures !Passes(update, i, pack, NameAt(i, k), at)
  {
    hide Valid, Offsets, NameAt, CrcAt, Fold;
    assert !RowPasses(update, i, pack, k, at);
  }

  ghost predicate Sums(i: Idx, k: nat, name: bytes, sum: nat)
    requires Valid(i) && i.ver == 2 && k < i.count
  {
    NameAt(i, k) == name && CrcAt(i, k) == sum
  }

  /** The object's bytes can be read to where it stops. */
  ghost predicate RangeReadable(pack: Pack, at: nat, end: int) {
    at < end <= |pack.data| && Faultless(pack, at, end)
  }

  /**
   verifyPackCRC: an object passes only when a row with its name records the sum of the bytes from its header
   to where it stops, and is found corrupted only when some row records another sum, its range is empty, or
   reading it fails. On a well-formed index, what can be read passes exactly when the sums agree.
   */
  method VerifyPackCrc(update: (nat, byte) -> nat, i: Idx, pack: Pack, name: bytes, at: nat)
    returns (v: Verdict, ghost end: int)
    requires Valid(i) && |name| == i.hashLen
    ensures v == Skipped || Stops(i, pack, at, end)
    ensures v == Skipped && i.ver == 2 && WellFormed(i) ==> forall k :: 0 <= k < i.count ==> NameAt(i, k) != name
    ensures v != Skipped ==> i.ver == 2
    ensures v == Intact ==>
      && at < end <= |pack.data|
      && exists k: nat :: k < i.count && Sums(i, k, name, Fold(update, 0, pack.data[at..end]))
    ensures v == Corrupted && RangeReadable(pack, at, end) ==>
      exists k: nat, sum: nat :: k < i.count && Sums(i, k, name, sum) && sum != Fold(update, 0, pack.data[at..end])
    ensures WellFormed(i) && i.ver == 2 ==> forall k: nat :: k < i.count && NameAt(i, k) == name ==>
      && v != Skipped
      && (RangeReadable(pack, at, end) ==> (v == Intact <==> CrcAt(i, k) == Fold(update, 0, pack.data[at..end])))
    ensures WellFormed(i) && Faultless(pack, at, |pack.data|) ==>
      (v != Corrupted <==> Passes(update, i, pack, name, at))
  {
    hide MinSize, Fanout, Monotone, Recorded, CrcAt, WellFormed, NameAt, Valid, Fold;
    end := 0;
    var want := FindCrc32(i, name);
    if want == None {
      assert i.ver == 2 && WellFormed(i) ==> forall k :: 0 <= k < i.count ==> NameAt(i, k) != name;
      return Skipped, end;
    }
    ghost var row: nat :| row < i.count && NameAt(i, row) == name && CrcAt(i, row) == want.value;
    assert Sums(i, row, name, want.value);
    if WellFormed(i) {
      OneRow(i, row);
    }
    var after := OffsetAfter(i, at);
    var stop := if after == None then |pack.data| - i.hashLen else after.value;
    end := stop;
    forall o
      ensures o in Offsets(i) <==> IsRecorded(i, i.count, o)
    {
      OffsetsAreRecorded(i, o);
    }
    if stop <= at {
      return Corrupted, end;
    }
    var got := Crc32Range(update, pack, at, stop);
    if got == None || got.value != want.value {
      return Corrupted, end;
    }
    return Intact, end;
  }
}
