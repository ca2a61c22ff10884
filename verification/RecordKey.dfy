/**
 Prefix-compressed record keys, decoded into reused buffers.

 A Go slice that starts at its array's first byte is an array and a length; its capacity is the
 array's length. Every key buffer of the reftable reader has that shape. DecodeKey says what key
 the bytes spell; DecodeKeyInto is the source's in-place decoder.
 */
module RecordKey {
  import opened Options
  import opened Bytes
  import Varint

  datatype Error =
    | TruncatedRecord | VarintOverflow | UpdateIndexOverflow | UnsupportedValueType
    | TruncatedBlock | BadBlockType | LogBlockUnsupported | NoRefBlocks
    | SliceBounds // the Go runtime panic for a slice expression out of range

  function VarintError(r: Varint.Result): Error
    requires !r.Decoded?
  {
    if r.Overflow? then VarintOverflow else TruncatedRecord
  }

  // ---------------------------------------------------------------- the decoded key

  datatype KeyResult = Key(key: bytes, extra: nat, used: nat) | KeyError(error: Error)

  function DecodeKey(buf: bytes, prev: bytes): (r: KeyResult)
    ensures r.Key? ==> 2 <= r.used <= |buf| && r.extra < 8
  {
    var p := Varint.Decode(buf);
    if !p.Decoded? then KeyError(VarintError(p))
    else
      var s := Varint.Decode(buf[p.used..]);
      if !s.Decoded? then KeyError(VarintError(s))
      else
        var at := p.used + s.used;
        var suffixLen := s.value / 8;
        if |buf| - at < suffixLen then KeyError(TruncatedRecord)
        else if p.value > |prev| then KeyError(TruncatedRecord)
        else Key(prev[..p.value] + buf[at..at + suffixLen], s.value % 8, at + suffixLen)
  }

  function EncodeKey(prefixLen: nat, name: bytes, extra: nat): bytes
    requires prefixLen <= |name| && extra < 8
  {
    Varint.Encode(prefixLen) + Varint.Encode((|name| - prefixLen) * 8 + extra) + name[prefixLen..]
  }

  /** prefixLen may be any length the two names share. */
  ghost predicate Shares(prev: bytes, name: bytes, prefixLen: nat) {
    prefixLen <= |prev| && prefixLen <= |name| && prev[..prefixLen] == name[..prefixLen]
  }

  lemma KeyRoundTrip(prev: bytes, name: bytes, prefixLen: nat, extra: nat, tail: bytes)
    requires Shares(prev, name, prefixLen) && extra < 8 && |name| < U32
    ensures DecodeKey(EncodeKey(prefixLen, name, extra) + tail, prev)
         == Key(name, extra, |EncodeKey(prefixLen, name, extra)|)
  {
    hide Varint.Encode, Varint.Decode;
    var packed := (|name| - prefixLen) * 8 + extra;
    var p, s, suffix := Varint.Encode(prefixLen), Varint.Encode(packed), name[prefixLen..];
    var buf := EncodeKey(prefixLen, name, extra) + tail;
    assert buf == p + (s + suffix + tail);
    Varint.EncodingDecodes(prefixLen, buf);
    assert buf[|p|..] == s + (suffix + tail);
    Varint.EncodingDecodes(packed, buf[|p|..]);
    assert packed / 8 == |suffix| && packed % 8 == extra;
    var at := |p| + |s|;
    assert buf[at..at + |suffix|] == suffix;
    assert prev[..prefixLen] + suffix == name;
  }

  /**
   Two varints, then the suffix: the first counts the bytes taken from the previous key, the second the
   suffix's bytes, times eight, plus the extra bits. More bytes than there are, of either, is truncation.
   */
  lemma KeyReads(prefixLen: nat, packed: nat, rest: bytes, prev: bytes)
    requires prefixLen < U64 && packed < U64
    ensures var head := Varint.Encode(prefixLen) + Varint.Encode(packed);
      DecodeKey(head + rest, prev) ==
      if |rest| < packed / 8 || |prev| < prefixLen then KeyError(TruncatedRecord)
      else Key(prev[..prefixLen] + rest[..packed / 8], packed % 8, |head| + packed / 8)
  {
    hide Varint.Encode, Varint.Decode;
    var p, s := Varint.Encode(prefixLen), Varint.Encode(packed);
    var buf := p + s + rest;
    assert buf == p + (s + rest) && buf[|p|..] == s + rest;
    Varint.EncodingDecodes(prefixLen, buf);
    Varint.EncodingDecodes(packed, buf[|p|..]);
    var at := |p| + |s|;
    if packed / 8 <= |rest| {
      assert buf[at..at + packed / 8] == rest[..packed / 8];
    }
  }

  /** Without the two varints there is no key, and the error is the varint's. */
  lemma KeyRefuses(prefixLen: nat, bad: bytes, prev: bytes)
    requires prefixLen < U64 && !Varint.Decode(bad).Decoded?
    ensures var e := if Varint.Decode(bad) == Varint.Overflow then VarintOverflow else TruncatedRecord;
      DecodeKey(bad, prev) == DecodeKey(Varint.Encode(prefixLen) + bad, prev) == KeyError(e)
  {
    hide Varint.Encode, Varint.Decode;
    var p := Varint.Encode(prefixLen);
    Varint.EncodingDecodes(prefixLen, p + bad);
    assert (p + bad)[|p|..] == bad;
  }

  /** A key that decodes is not changed by what follows it in the block. */
  lemma KeyIgnoresTail(buf: bytes, tail: bytes, prev: bytes)
    requires DecodeKey(buf, prev).Key?
    ensures DecodeKey(buf + tail, prev) == DecodeKey(buf, prev)
  {
    hide Varint.Decode;
    var p := Varint.Decode(buf);
    Varint.DecodeIgnoresTail(buf, tail);
    assert (buf + tail)[p.used..] == buf[p.used..] + tail;
    Varint.DecodeIgnoresTail(buf[p.used..], tail);
    var s := Varint.Decode(buf[p.used..]);
    var at := p.used + s.used;
    assert (buf + tail)[at..at + s.value / 8] == buf[at..at + s.value / 8];
  }

  /** Where a key decodes with no previous key it has prefix length 0, so any previous key will do. */
  lemma RestartKeyIgnoresPrev(buf: bytes, prev: bytes)
    requires DecodeKey(buf, []).Key?
    ensures DecodeKey(buf, prev) == DecodeKey(buf, [])
  {
    assert prev[..0] == [];
  }

  // ---------------------------------------------------------------- slices

  datatype Slice = Nil | Slice(arr: array<byte>, len: nat)

  ghost predicate ValidSlice(s: Slice) {
    s.Slice? ==> s.len <= s.arr.Length
  }

  ghost function Arrays(s: Slice): set<object> {
    if s.Slice? then {s.arr} else {}
  }

  /** The bytes the slice shows. */
  ghost function View(s: Slice): bytes
    requires ValidSlice(s)
    reads Arrays(s)
  {
    if s.Slice? then s.arr[..s.len] else []
  }

  function Len(s: Slice): nat {
    if s.Slice? then s.len else 0
  }

  function Cap(s: Slice): nat {
    if s.Slice? then s.arr.Length else 0
  }

  function Reslice(s: Slice, n: nat): Slice {
    if s.Slice? then Slice(s.arr, n) else Nil
  }

  /** copy(key, prev[:n]); the two may share an array, since both start at its first byte. */
  method CopyPrefix(key: Slice, prev: Slice, n: nat)
    requires ValidSlice(key) && ValidSlice(prev) && n <= Len(key) && n <= Len(prev)
    modifies Arrays(key)
    ensures View(key)[..n] == old(View(prev))[..n]
  {
    for i := 0 to n
      invariant forall k :: 0 <= k < i ==> key.arr[k] == old(prev.arr[k])
      invariant forall k :: i <= k < n ==> prev.arr[k] == old(prev.arr[k])
    {
      key.arr[i] := prev.arr[i];
    }
  }

  /** copy(key[n:], suffix), filling the slice to its end. */
  method CopySuffix(key: Slice, n: nat, suffix: bytes)
    requires ValidSlice(key) && n + |suffix| == Len(key)
    modifies Arrays(key)
    ensures View(key) == old(View(key))[..n] + suffix
  {
    for i := 0 to |suffix|
      invariant forall k :: 0 <= k < n ==> key.arr[k] == old(key.arr[k])
      invariant forall k :: 0 <= k < i ==> key.arr[n + k] == suffix[k]
    {
      key.arr[n + i] := suffix[i];
    }
    assert forall k :: n <= k < n + |suffix| ==> View(key)[k] == suffix[k - n];
  }

  /** The key's bytes laid into scratch's array when it has the room, else into a new one. */
  method BuildKey(prev: Slice, prefixLen: nat, suffix: bytes, scratch: Slice) returns (key: Slice)
    requires ValidSlice(prev) && ValidSlice(scratch) && prefixLen <= Len(prev)
    modifies Arrays(scratch)
    ensures ValidSlice(key) && View(key) == old(View(prev))[..prefixLen] + suffix
    ensures key.Slice? ==> fresh(key.arr) || (scratch.Slice? && key.arr == scratch.arr)
  {
    var keyLen := prefixLen + |suffix|;
    if Cap(scratch) >= keyLen {
      key := Reslice(scratch, keyLen);
    } else {
      var arr := new byte[keyLen];
      key := Slice(arr, keyLen);
    }
    CopyPrefix(key, prev, prefixLen);
    CopySuffix(key, prefixLen, suffix);
  }

  /**
   decodeKey. prev and scratch may be any two slices: apart, or, as in the index descent, the same
   array, where the prefix is copied onto itself before the suffix overwrites what followed it.
   */
  method DecodeKeyInto(buf: bytes, prev: Slice, scratch: Slice)
    returns (key: Slice, extra: nat, used: nat, err: Option<Error>)
    requires ValidSlice(prev) && ValidSlice(scratch)
    modifies Arrays(scratch)
    ensures DecodeKey(buf, old(View(prev))).KeyError?
        ==> err == Some(DecodeKey(buf, old(View(prev))).error) && unchanged(Arrays(scratch))
    ensures DecodeKey(buf, old(View(prev))).Key? ==> err == None
    ensures err == None ==>
      && ValidSlice(key)
      && DecodeKey(buf, old(View(prev))) == Key(View(key), extra, used)
      && (key.Slice? ==> fresh(key.arr) || (scratch.Slice? && key.arr == scratch.arr))
  {
    key, extra, used, err := Nil, 0, 0, None;
    var p := Varint.DecodeVarint(buf);
    if !p.Decoded? {
      err := Some(VarintError(p));
      return;
    }
    var rest := buf[p.used..];
    var packed := Varint.DecodeVarint(rest);
    if !packed.Decoded? {
      err := Some(VarintError(packed));
      return;
    }
    extra := packed.value % 8;
    var suffixLen := packed.value / 8;
    rest := rest[packed.used..];
    if |rest| < suffixLen || p.value > Len(prev) {
      err := Some(TruncatedRecord);
      return;
    }
    used := p.used + packed.used + suffixLen;
    assert rest[..suffixLen] == buf[p.used + packed.used..used];
    key := BuildKey(prev, p.value, rest[..suffixLen], scratch);
  }

  // ---------------------------------------------------------------- keyBuf

  /** Two buffers in rotation, never over one array. */
  class KeyBuf {
    var prev: Slice
    var scratch: Slice
    ghost var Repr: set<object>

    ghost predicate Valid()
      reads this, Repr
      ensures Valid() ==> this in Repr
    {
      && this in Repr
      && ValidSlice(prev) && ValidSlice(scratch)
      && (prev.Slice? ==> prev.arr in Repr) && (scratch.Slice? ==> scratch.arr in Repr)
      && (prev.Slice? && scratch.Slice? ==> prev.arr != scratch.arr)
    }

    /** The previous key. */
    ghost function Prev(): bytes
      requires Valid()
      reads this, Repr
    {
      View(prev)
    }

    constructor ()
      ensures Valid() && fresh(Repr) && Prev() == []
    {
      prev, scratch := Nil, Nil;
      Repr := {this};
    }

    /** The slice that shows the previous key, and one over another array to decode the next key into. */
    method Next() returns (p: Slice, s: Slice)
      requires Valid()
      ensures ValidSlice(p) && View(p) == Prev() && ValidSlice(s)
      ensures p.Slice? && s.Slice? ==> p.arr != s.arr
      ensures p == prev && s == scratch
    {
      return prev, scratch;
    }

    /** key becomes the previous key and the buffer behind the old one is free for the next. */
    method Swap(key: Slice)
      requires Valid() && ValidSlice(key)
      requires key.Slice? && prev.Slice? ==> key.arr != prev.arr
      modifies this
      ensures Valid() && prev == key && scratch == old(prev)
      ensures Repr == old(Repr) + Arrays(key)
    {
      prev, scratch := key, prev;
      Repr := Repr + Arrays(key);
    }
  }
}
