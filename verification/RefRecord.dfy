/** Reftable ref records: a prefix-compressed name, an update-index delta, and one of four values. */
module RefRecord {
  import opened Options
  import opened Bytes
  import opened RecordKey
  import Varint

  datatype Value = Deletion | Single(oid: bytes) | Peeled(oid: bytes, peeled: bytes) | Symref(target: bytes)

  datatype Record = Record(name: bytes, value: Value)

  datatype RecordResult = Decoded(record: Record, used: nat) | RecordError(error: Error)

  // ---------------------------------------------------------------- values

  datatype ValueResult = DecodedValue(value: Value, used: nat) | ValueError(error: Error)

  /** The value bytes that follow the update-index delta, by value type. */
  function DecodeValue(rest: bytes, valueType: nat, hashSize: nat): (r: ValueResult)
    ensures r.DecodedValue? ==> r.used <= |rest|
  {
    if valueType == 0 then DecodedValue(Deletion, 0)
    else if valueType == 1 then
      if |rest| < hashSize then ValueError(TruncatedRecord)
      else DecodedValue(Single(rest[..hashSize]), hashSize)
    else if valueType == 2 then
      if |rest| < 2 * hashSize then ValueError(TruncatedRecord)
      else DecodedValue(Peeled(rest[..hashSize], rest[hashSize..2 * hashSize]), 2 * hashSize)
    else if valueType == 3 then
      var t := Varint.Decode(rest);
      if !t.Decoded? then ValueError(VarintError(t))
      else if |rest| - t.used < t.value then ValueError(TruncatedRecord)
      else DecodedValue(Symref(rest[t.used..t.used + t.value]), t.used + t.value)
    else ValueError(UnsupportedValueType)
  }

  function ValueType(v: Value): (t: nat)
    ensures t < 4
  {
    match v
    case Deletion => 0
    case Single(_) => 1
    case Peeled(_, _) => 2
    case Symref(_) => 3
  }

  predicate WellFormedValue(v: Value, hashSize: nat) {
    match v
    case Deletion => true
    case Single(oid) => |oid| == hashSize
    case Peeled(oid, peeled) => |oid| == hashSize == |peeled|
    case Symref(target) => |target| < U32
  }

  function EncodeValue(v: Value): bytes {
    match v
    case Deletion => []
    case Single(oid) => oid
    case Peeled(oid, peeled) => oid + peeled
    case Symref(target) => Varint.Encode(|target|) + target
  }

  lemma ValueRoundTrip(v: Value, hashSize: nat, tail: bytes)
    requires WellFormedValue(v, hashSize)
    ensures DecodeValue(EncodeValue(v) + tail, ValueType(v), hashSize) == DecodedValue(v, |EncodeValue(v)|)
  {
    hide Varint.Encode, Varint.Decode;
    var rest := EncodeValue(v) + tail;
    match v
    case Deletion =>
    case Single(oid) => assert rest[..hashSize] == oid;
    case Peeled(oid, peeled) =>
      assert rest == oid + (peeled + tail);
      assert rest[..hashSize] == oid && rest[hashSize..2 * hashSize] == peeled;
    case Symref(target) =>
      var n := |Varint.Encode(|target|)|;
      assert rest == Varint.Encode(|target|) + (target + tail);
      Varint.EncodingDecodes(|target|, rest);
      assert rest[n..n + |target|] == target;
  }

  // ---------------------------------------------------------------- records

  function DecodeRecord(buf: bytes, prev: bytes, hashSize: nat, minUpdateIndex: nat): (r: RecordResult)
    ensures r.Decoded? ==> 3 <= r.used <= |buf|
  {
    var k := DecodeKey(buf, prev);
    if k.KeyError? then RecordError(k.error)
    else
      var d := Varint.Decode(buf[k.used..]);
      if !d.Decoded? then RecordError(VarintError(d))
      else if d.value > U64 - 1 - minUpdateIndex then RecordError(UpdateIndexOverflow)
      else
        var v := DecodeValue(buf[k.used + d.used..], k.extra, hashSize);
        if v.ValueError? then RecordError(v.error)
        else Decoded(Record(k.key, v.value), k.used + d.used + v.used)
  }

  /** A record as a writer may lay it down: any prefix length shared with prev, any legal delta. */
  function EncodeRecord(rec: Record, prefixLen: nat, delta: nat): bytes
    requires prefixLen <= |rec.name|
  {
    EncodeKey(prefixLen, rec.name, ValueType(rec.value)) + Varint.Encode(delta) + EncodeValue(rec.value)
  }

  ghost predicate WellFormed(rec: Record, hashSize: nat) {
    |rec.name| < U32 && WellFormedValue(rec.value, hashSize)
  }

  /** Decoding consumes exactly the record's bytes and gives the record back, whatever follows. */
  lemma RecordRoundTrip(rec: Record, prev: bytes, prefixLen: nat, delta: nat, hashSize: nat, minUpdateIndex: nat,
                        tail: bytes)
    requires WellFormed(rec, hashSize) && Shares(prev, rec.name, prefixLen)
    requires delta + minUpdateIndex < U64
    ensures DecodeRecord(EncodeRecord(rec, prefixLen, delta) + tail, prev, hashSize, minUpdateIndex)
         == Decoded(rec, |EncodeRecord(rec, prefixLen, delta)|)
  {
    hide Varint.Encode, Varint.Decode, DecodeKey, EncodeKey, EncodeValue, DecodeValue, DecodeRecord;
    var k := EncodeKey(prefixLen, rec.name, ValueType(rec.value));
    var d, v := Varint.Encode(delta), EncodeValue(rec.value);
    Regroup(k, d, v, tail);
    var buf := EncodeRecord(rec, prefixLen, delta) + tail;
    KeyRoundTrip(prev, rec.name, prefixLen, ValueType(rec.value), d + (v + tail));
    Varint.EncodingDecodes(delta, buf[|k|..]);
    ValueRoundTrip(rec.value, hashSize, tail);
    RecordFromParts(buf, prev, hashSize, minUpdateIndex, rec, |k|, delta, |d|, |v|);
  }

  lemma RecordFromParts(buf: bytes, prev: bytes, hashSize: nat, minUpdateIndex: nat,
                        rec: Record, k: nat, delta: nat, d: nat, v: nat)
    requires k <= |buf| && d <= |buf| - k && delta + minUpdateIndex < U64
    requires DecodeKey(buf, prev) == Key(rec.name, ValueType(rec.value), k)
    requires Varint.Decode(buf[k..]) == Varint.Decoded(delta, d)
    requires DecodeValue(buf[k + d..], ValueType(rec.value), hashSize) == DecodedValue(rec.value, v)
    ensures DecodeRecord(buf, prev, hashSize, minUpdateIndex) == Decoded(rec, k + d + v)
  {
    hide Varint.Decode, DecodeKey, DecodeValue;
  }

  lemma Regroup(k: bytes, d: bytes, v: bytes, tail: bytes)
    ensures k + d + v + tail == k + (d + (v + tail))
    ensures (k + d + v + tail)[|k|..] == d + (v + tail)
    ensures (k + d + v + tail)[|k| + |d|..] == v + tail
  {
  }

  /** What the value bytes say, by the record's three type bits, and which of them are too short. */
  lemma ValueReads(rest: bytes, hashSize: nat, len: nat, after: bytes)
    requires len < U64
    ensures DecodeValue(rest, 0, hashSize) == DecodedValue(Deletion, 0)
    ensures DecodeValue(rest, 1, hashSize) ==
      if |rest| < hashSize then ValueError(TruncatedRecord) else DecodedValue(Single(rest[..hashSize]), hashSize)
    ensures DecodeValue(rest, 2, hashSize) ==
      if |rest| < hashSize + hashSize then ValueError(TruncatedRecord)
      else DecodedValue(Peeled(rest[..hashSize], rest[hashSize..][..hashSize]), hashSize + hashSize)
    ensures DecodeValue(Varint.Encode(len) + after, 3, hashSize) ==
      if |after| < len then ValueError(TruncatedRecord)
      else DecodedValue(Symref(after[..len]), |Varint.Encode(len)| + len)
    ensures forall t: nat {:trigger DecodeValue(rest, t, hashSize)} ::
      t >= 4 ==> DecodeValue(rest, t, hashSize) == ValueError(UnsupportedValueType)
  {
    hide Varint.Encode, Varint.Decode;
    var n := |Varint.Encode(len)|;
    Varint.EncodingDecodes(len, Varint.Encode(len) + after);
    if len <= |after| {
      assert (Varint.Encode(len) + after)[n..n + len] == after[..len];
    }
    if hashSize + hashSize <= |rest| {
      assert rest[hashSize..2 * hashSize] == rest[hashSize..][..hashSize];
    }
  }

  /** A key, the update index and a value: an index that does not fit in 64 bits is refused before the value is read. */
  lemma {:induction false} RecordReads(prev: bytes, name: bytes, prefixLen: nat, t: nat, delta: nat, rest: bytes,
                                       hashSize: nat, minUpdateIndex: nat)
    requires Shares(prev, name, prefixLen) && |name| < U32 && t < 8 && delta < U64
    ensures var head := EncodeKey(prefixLen, name, t) + Varint.Encode(delta);
      DecodeRecord(head + rest, prev, hashSize, minUpdateIndex) ==
      if delta + minUpdateIndex >= 0x1_0000_0000_0000_0000 then RecordError(UpdateIndexOverflow)
      else match DecodeValue(rest, t, hashSize)
           case ValueError(e) => RecordError(e)
           case DecodedValue(v, n) => Decoded(Record(name, v), |head| + n)
  {
    hide Varint.Encode, Varint.Decode, DecodeKey, EncodeKey, DecodeValue;
    var k, d := EncodeKey(prefixLen, name, t), Varint.Encode(delta);
    var buf := k + d + rest;
    assert buf == k + (d + rest) && buf[|k|..] == d + rest && buf[|k| + |d|..] == rest;
    KeyRoundTrip(prev, name, prefixLen, t, d + rest);
    Varint.EncodingDecodes(delta, buf[|k|..]);
  }

  /** A bad key or update index makes a bad record, with the same error. */
  lemma RecordRefuses(prev: bytes, name: bytes, prefixLen: nat, t: nat, bad: bytes, hashSize: nat, minUpdateIndex: nat)
    requires Shares(prev, name, prefixLen) && |name| < U32 && t < 8 && !Varint.Decode(bad).Decoded?
    ensures var e := if Varint.Decode(bad) == Varint.Overflow then VarintOverflow else TruncatedRecord;
      && DecodeRecord(bad, prev, hashSize, minUpdateIndex) == RecordError(e)
      && DecodeRecord(EncodeKey(prefixLen, name, t) + bad, prev, hashSize, minUpdateIndex) == RecordError(e)
  {
    hide Varint.Decode, DecodeKey, EncodeKey, DecodeValue;
    KeyRefuses(0, bad, prev);
    KeyRoundTrip(prev, name, prefixLen, t, bad);
    var k := EncodeKey(prefixLen, name, t);
    assert (k + bad)[|k|..] == bad;
  }

  lemma RestartRecordIgnoresPrev(buf: bytes, prev: bytes, hashSize: nat, minUpdateIndex: nat)
    requires DecodeKey(buf, []).Key?
    ensures DecodeRecord(buf, prev, hashSize, minUpdateIndex) == DecodeRecord(buf, [], hashSize, minUpdateIndex)
  {
    RestartKeyIgnoresPrev(buf, prev);
  }

  /** The value switch of decodeRefRecord, with its running count of consumed bytes. */
  method DecodeRefValue(rest: bytes, valueType: nat, hashSize: nat) returns (r: ValueResult)
    ensures r == DecodeValue(rest, valueType, hashSize)
  {
    match valueType {
      case 0 =>
        return DecodedValue(Deletion, 0);
      case 1 =>
        if |rest| < hashSize {
          return ValueError(TruncatedRecord);
        }
        return DecodedValue(Single(rest[..hashSize]), hashSize);
      case 2 =>
        if |rest| < 2 * hashSize {
          return ValueError(TruncatedRecord);
        }
        return DecodedValue(Peeled(rest[..hashSize], rest[hashSize..2 * hashSize]), 2 * hashSize);
      case 3 =>
        var t := Varint.DecodeVarint(rest);
        if !t.Decoded? {
          return ValueError(VarintError(t));
        }
        var after := rest[t.used..];
        if |after| < t.value {
          return ValueError(TruncatedRecord);
        }
        assert after[..t.value] == rest[t.used..t.used + t.value];
        return DecodedValue(Symref(after[..t.value]), t.used + t.value);
      case _ =>
        return ValueError(UnsupportedValueType);
    }
  }

  /** decodeRefRecord: the name stays in the key buffer, the value is copied or aliases the file. */
  method DecodeRefRecord(buf: bytes, prev: Slice, scratch: Slice, hashSize: nat, minUpdateIndex: nat)
    returns (name: Slice, value: Value, used: nat, err: Option<Error>)
    requires ValidSlice(prev) && ValidSlice(scratch) && minUpdateIndex < U64
    modifies Arrays(scratch)
    ensures err.Some? <==> DecodeRecord(buf, old(View(prev)), hashSize, minUpdateIndex).RecordError?
    ensures err.Some? ==> DecodeRecord(buf, old(View(prev)), hashSize, minUpdateIndex).error == err.value
    ensures err == None ==>
      && ValidSlice(name)
      && DecodeRecord(buf, old(View(prev)), hashSize, minUpdateIndex) == Decoded(Record(View(name), value), used)
      && (name.Slice? ==> fresh(name.arr) || (scratch.Slice? && name.arr == scratch.arr))
  {
    hide DecodeKey, Varint.Decode, DecodeValue;
    value := Deletion;
    var valueType: nat;
    name, valueType, used, err := DecodeKeyInto(buf, prev, scratch);
    if err.Some? {
      return;
    }
    var rest := buf[used..];
    var d := Varint.DecodeVarint(rest);
    if !d.Decoded? {
      err := Some(VarintError(d));
      return;
    }
    if d.value > U64 - 1 - minUpdateIndex {
      err := Some(UpdateIndexOverflow);
      return;
    }
    assert rest[d.used..] == buf[used + d.used..];
    var v := DecodeRefValue(rest[d.used..], valueType, hashSize);
    if v.ValueError? {
      err := Some(v.error);
      return;
    }
    value := v.value;
    used := used + d.used + v.used;
  }
}
