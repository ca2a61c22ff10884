/**
 The fan-out bounded binary search that pack indexes and the multi-pack-index share in shape:
 fan[n] counts the names whose first byte is at most n, so a name's rows lie between two slots.
 */
module FanoutSearch {
  import opened Options
  import opened Bytes

  ghost predicate NonEmpty(names: seq<bytes>) {
    forall i :: 0 <= i < |names| ==> names[i] != []
  }

  /** How many names begin with a byte at most n. */
  ghost function CountUpTo(names: seq<bytes>, n: nat): (c: nat)
    requires NonEmpty(names)
    ensures c <= |names|
  {
    if names == [] then 0
    else CountUpTo(names[..|names| - 1], n) + (if names[|names| - 1][0] <= n then 1 else 0)
  }

  ghost predicate NonDescending(names: seq<bytes>) {
    forall i, j :: 0 <= i < j < |names| ==> Compare(names[i], names[j]) <= 0
  }

  lemma FirstBytes(a: bytes, b: bytes)
    requires a != [] && b != [] && Compare(a, b) <= 0
    ensures a[0] <= b[0]
  {
  }

  /** On sorted names the rows counted by fan[n] are a prefix. */
  lemma {:induction false} CountIsPrefix(names: seq<bytes>, n: nat, k: nat)
    requires NonEmpty(names)
    requires NonDescending(names) && k < |names|
    ensures k < CountUpTo(names, n) <==> names[k][0] <= n
  {
    var m := |names| - 1;
    var init := names[..m];
    if k < m {
      CountIsPrefix(init, n, k);
      FirstBytes(names[k], names[m]);
    } else if names[m][0] <= n {
      forall i | 0 <= i < m
        ensures names[i][0] <= n
      {
        FirstBytes(names[i], names[m]);
      }
      AllCounted(init, n);
    }
  }

  lemma {:induction false} AllCounted(names: seq<bytes>, n: nat)
    requires NonEmpty(names)
    requires forall i :: 0 <= i < |names| ==> names[i][0] <= n
    ensures CountUpTo(names, n) == |names|
  {
    if names != [] {
      AllCounted(names[..|names| - 1], n);
    }
  }

  /** The fan-out table says what it should about the names. */
  ghost predicate Counts(fan: seq<nat>, names: seq<bytes>) {
    && |fan| == 256 && NonEmpty(names)
    && forall n :: 0 <= n < 256 ==> fan[n] == CountUpTo(names, n)
  }

  /** The window the search starts from. */
  function WindowLo(fan: seq<nat>, first: byte): nat
    requires |fan| == 256
  {
    if first > 0 then fan[first - 1] else 0
  }

  /** Every row that holds name lies in the window. */
  lemma RowsInWindow(fan: seq<nat>, names: seq<bytes>, name: bytes, k: nat)
    requires Counts(fan, names) && NonDescending(names) && k < |names| && names[k] == name
    ensures name != [] && WindowLo(fan, name[0]) <= k < fan[name[0]] <= |names|
  {
    CountIsPrefix(names, name[0], k);
    if name[0] > 0 {
      CountIsPrefix(names, name[0] - 1, k);
    }
  }

  /** Rows still to be searched: anything equal to name is between lo and hi. */
  ghost predicate Bounded(names: seq<bytes>, name: bytes, lo: nat, hi: nat) {
    forall k :: 0 <= k < |names| && names[k] == name ==> lo <= k < hi
  }

  /** One probe of the bisection narrows the rows without losing name. */
  lemma ProbeNarrows(names: seq<bytes>, name: bytes, lo: nat, hi: nat, mid: nat)
    requires NonDescending(names) && Bounded(names, name, lo, hi) && lo <= mid < hi <= |names|
    ensures Compare(name, names[mid]) < 0 ==> Bounded(names, name, lo, mid)
    ensures Compare(name, names[mid]) > 0 ==> Bounded(names, name, mid + 1, hi)
  {
    hide Compare;
    CompareAntisymmetric(name, names[mid]);
    forall k | 0 <= k < |names| && names[k] == name && Compare(name, names[mid]) != 0
      ensures if Compare(name, names[mid]) < 0 then k < mid else mid < k
    {
      assert k != mid;
    }
  }

  lemma AscendingIsNonDescending(names: seq<bytes>)
    requires Ascending(names)
    ensures NonDescending(names)
    ensures forall i, j :: 0 <= i < |names| && 0 <= j < |names| && names[i] == names[j] ==> i == j
  {
    hide Compare;
    forall i, j | 0 <= i < j < |names|
      ensures names[i] != names[j]
    {
      LessTotal(names[i], names[j]);
    }
  }

  // ---------------------------------------------------------------- the search itself

  const FanoutLen := 1024

  /** The 256 counters stored at offset at. */
  function Fanout(data: bytes, at: nat): (fan: seq<nat>)
    requires at + FanoutLen <= |data|
    ensures |fan| == 256 && forall n :: 0 <= n < 256 ==> fan[n] == Be32(data, at + 4 * n)
  {
    seq(256, n requires 0 <= n < 256 => Be32(data, at + 4 * n))
  }

  ghost predicate Monotone(fan: seq<nat>) {
    forall i, j :: 0 <= i < j < |fan| ==> fan[i] <= fan[j]
  }

  /** Counter n of the fan-out at offset at is below the one before it. */
  ghost predicate Falls(data: bytes, at: nat, n: nat)
    requires at + 1024 <= |data| && 0 < n < 256
  {
    Be32(data, at + 4 * n) < Be32(data, at + 4 * (n - 1))
  }

  lemma {:induction false} NoFall(data: bytes, at: nat, i: nat, j: nat)
    requires at + 1024 <= |data| && i < j < 256 && forall n: nat :: 0 < n < 256 ==> !Falls(data, at, n)
    ensures Fanout(data, at)[i] <= Fanout(data, at)[j]
  {
    hide Be32;
    assert !Falls(data, at, j);
    if i < j - 1 {
      NoFall(data, at, i, j - 1);
    }
  }

  /** A fan-out is monotone exactly when no counter falls. */
  lemma {:induction false} MonotoneExactly(data: bytes, at: nat)
    requires at + 1024 <= |data|
    ensures Monotone(Fanout(data, at)) <==> forall n: nat :: 0 < n < 256 ==> !Falls(data, at, n)
  {
    hide Be32;
    var fan := Fanout(data, at);
    if forall n: nat :: 0 < n < 256 ==> !Falls(data, at, n) {
      forall i, j | 0 <= i < j < 256
        ensures fan[i] <= fan[j]
      {
        NoFall(data, at, i, j);
      }
      assert Monotone(fan);
    } else {
      var n: nat :| 0 < n < 256 && Falls(data, at, n);
      assert fan[n] < fan[n - 1];
      assert !Monotone(fan);
    }
  }

  /** validateIdxFanout, and the same loop in the multi-pack-index's parseFanout. */
  method ValidateFanout(data: bytes, at: nat) returns (ok: bool)
    requires at + FanoutLen <= |data|
    ensures ok <==> Monotone(Fanout(data, at))
  {
    ghost var fan := Fanout(data, at);
    var prev := 0;
    for k := 0 to 256
      invariant forall i, j :: 0 <= i < j < k ==> fan[i] <= fan[j]
      invariant prev == if k == 0 then 0 else fan[k - 1]
    {
      var n := Be32(data, at + 4 * k);
      assert n == fan[k];
      if n < prev {
        return false;
      }
      prev := n;
    }
    return true;
  }

  // ---------------------------------------------------------------- a fan-out as a writer makes it

  /** The rows whose name begins with a byte at most n. */
  ghost function FirstUpTo(names: seq<bytes>, n: nat): set<int>
    requires NonEmpty(names)
  {
    set k | 0 <= k < |names| && names[k][0] <= n
  }

  lemma {:induction false} CountIs(names: seq<bytes>, n: nat)
    requires NonEmpty(names)
    ensures CountUpTo(names, n) == |FirstUpTo(names, n)|
  {
    if names != [] {
      var last := |names| - 1;
      CountIs(names[..last], n);
      var before := FirstUpTo(names[..last], n);
      assert FirstUpTo(names, n) == if names[last][0] <= n then before + {last} else before;
    }
  }

  lemma {:induction false} CountGrows(names: seq<bytes>, i: nat, j: nat)
    requires NonEmpty(names) && i <= j
    ensures CountUpTo(names, i) <= CountUpTo(names, j)
  {
    if names != [] {
      CountGrows(names[..|names| - 1], i, j);
    }
  }

  /** At offset at stand 256 big-endian counters: slot n counts the names that begin with a byte at most n. */
  ghost predicate FanHolds(data: bytes, at: nat, names: seq<bytes>) {
    && at + 1024 <= |data| && NonEmpty(names)
    && forall n :: 0 <= n < 256 ==>
        |FirstUpTo(names, n)| < U32 && data[at + 4 * n..at + 4 * n + 4] == PutBe32(|FirstUpTo(names, n)|)
  }

  lemma {:induction false} FanReads(data: bytes, at: nat, names: seq<bytes>)
    requires FanHolds(data, at, names)
    ensures var fan := Fanout(data, at); Counts(fan, names) && Monotone(fan) && fan[255] == |names|
  {
    hide PutBe32, Be32, FirstUpTo, CountUpTo;
    var fan := Fanout(data, at);
    forall n: nat | n < 256
      ensures fan[n] == CountUpTo(names, n)
    {
      Be32Of(data, at + 4 * n, |FirstUpTo(names, n)|);
      CountIs(names, n);
    }
    forall i, j | 0 <= i < j < 256
      ensures fan[i] <= fan[j]
    {
      CountGrows(names, i, j);
    }
    AllCounted(names, 255);
  }

  /** The row at offset at holds off: in its 31 bits, or in the 64-bit slot of the table at large they number. */
  ghost predicate OffsetHolds(data: bytes, at: nat, large: nat, end: nat, off: nat) {
    && at + 4 <= |data| && end <= |data| && off < U64
    && ((off < 0x8000_0000 && data[at..at + 4] == PutBe32(off))
        || exists j: nat ::
             && j < 0x8000_0000 && large + 8 * j + 8 <= end
             && data[at..at + 4] == PutBe32(0x8000_0000 + j)
             && data[large + 8 * j..large + 8 * j + 8] == PutBe64(off))
  }

  lemma OffsetReads(data: bytes, at: nat, large: nat, end: nat, off: nat) returns (raw: nat)
    requires OffsetHolds(data, at, large, end, off)
    ensures raw < U32 && Be32(data, at) == raw
    ensures raw < 0x8000_0000 ==> raw == off
    ensures raw >= 0x8000_0000 ==>
      var slot := large + 8 * (raw - 0x8000_0000); slot + 8 <= end && Be64(data, slot) == off
  {
    hide PutBe32, PutBe64, Be32, Be64;
    if off < 0x8000_0000 && data[at..at + 4] == PutBe32(off) {
      raw := off;
    } else {
      var j: nat :|
        && j < 0x8000_0000 && large + 8 * j + 8 <= end
        && data[at..at + 4] == PutBe32(0x8000_0000 + j)
        && data[large + 8 * j..large + 8 * j + 8] == PutBe64(off);
      raw := 0x8000_0000 + j;
      Be64Of(data, large + 8 * j, off);
    }
    Be32Of(data, at, raw);
  }

  /** count names of width bytes inside data, the k-th one at start + k * stride. */
  datatype Rows = Rows(data: bytes, start: nat, stride: nat, width: nat, count: nat)

  ghost predicate Fits(t: Rows) {
    1 <= t.width <= t.stride && (t.count > 0 ==> t.start + t.count * t.stride <= |t.data| + t.stride - t.width)
  }

  lemma {:induction false} RowFits(k: nat, t: Rows)
    requires Fits(t) && k < t.count
    ensures t.start + k * t.stride + t.width <= |t.data|
  {
    assert (k + 1) * t.stride <= t.count * t.stride;
  }

  function Row(t: Rows, k: nat): (name: bytes)
    requires Fits(t) && k < t.count
    ensures |name| == t.width
  {
    RowFits(k, t);
    var at := t.start + k * t.stride;
    t.data[at..at + t.width]
  }

  function Names(t: Rows): (names: seq<bytes>)
    requires Fits(t)
    ensures |names| == t.count && forall k :: 0 <= k < t.count ==> names[k] == Row(t, k)
  {
    seq(t.count, k requires 0 <= k < t.count => Row(t, k))
  }

  /** The names are sorted and the fan-out counts them; the readers assume this and do not check it. */
  ghost predicate Sound(t: Rows, fan: seq<nat>) {
    Fits(t) && Ascending(Names(t)) && Counts(fan, Names(t))
  }

  lemma {:induction false} SoundWindow(t: Rows, fan: seq<nat>, name: bytes)
    requires Sound(t, fan) && name != []
    ensures Bounded(Names(t), name, WindowLo(fan, name[0]), fan[name[0]])
    ensures name in Names(t) ==> fan[name[0]] <= t.count
    ensures NonDescending(Names(t))
  {
    hide Compare, CountUpTo, Row;
    var names := Names(t);
    AscendingIsNonDescending(names);
    forall k | 0 <= k < |names| && names[k] == name
      ensures WindowLo(fan, name[0]) <= k < fan[name[0]] <= t.count
    {
      RowsInWindow(fan, names, name, k);
    }
  }

  /** Any hit is a row with the name; when the table is sound, a miss means the name is absent. */
  method Search(t: Rows, fanAt: nat, name: bytes) returns (r: Option<nat>)
    requires Fits(t) && fanAt + FanoutLen <= |t.data| && |name| == t.width
    ensures r.Some? ==> r.value < t.count && Row(t, r.value) == name
    ensures r == None && Sound(t, Fanout(t.data, fanAt)) ==> name !in Names(t)
  {
    hide Compare, Counts, Fanout, Sound, Row, Bounded, NonDescending;
    ghost var names := Names(t);
    ghost var sound := Sound(t, Fanout(t.data, fanAt));
    var prefix: nat := name[0];
    var lo: nat := 0;
    if prefix > 0 {
      lo := Be32(t.data, fanAt + 4 * (prefix - 1));
    }
    var hi: nat := Be32(t.data, fanAt + 4 * prefix);
    if sound {
      SoundWindow(t, Fanout(t.data, fanAt), name);
    }
    if hi > t.count {
      return None;
    }
    while lo < hi
      invariant hi <= t.count
      invariant sound ==> NonDescending(names) && Bounded(names, name, lo, hi)
    {
      var mid := lo + (hi - lo) / 2;
      var cmp := Compare(name, Row(t, mid));
      if cmp == 0 {
        return Some(mid);
      }
      if sound {
        ProbeNarrows(names, name, lo, hi, mid);
      }
      if cmp < 0 {
        hi := mid;
      } else {
        lo := mid + 1;
      }
    }
    if sound {
      EmptyWindow(names, name, lo, hi);
    }
    return None;
  }

  lemma EmptyWindow(names: seq<bytes>, name: bytes, lo: nat, hi: nat)
    requires Bounded(names, name, lo, hi) && hi <= lo
    ensures name !in names
  {
  }
}
