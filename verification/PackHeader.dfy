/**
 Pack object headers: the type and size bits, the delta base that may follow them, and the
 little-endian sizes at the head of a delta payload.
 */
module PackHeader {
  import opened Bytes
  import Varint

  datatype Error = OutOfRange | Truncated | Corrupt

  datatype Base = NoBase | OfsBase(at: nat) | RefBase(oid: bytes)

  datatype Header = Header(objectType: nat, size: nat, bodyAt: nat, base: Base)

  datatype HeaderResult = Ok(header: Header) | Err(error: Error)

  const TypeCommit := 1
  const TypeTree := 2
  const TypeBlob := 3
  const TypeTag := 4
  const TypeOfsDelta := 6
  const TypeRefDelta := 7

  const HeaderPeek := 32

  /** c << n on unbounded numbers. */
  function Shl(c: nat, n: nat): nat {
    if n == 0 then c else 2 * Shl(c, n - 1)
  }

  lemma {:induction false} ShlAdd(a: nat, b: nat, n: nat)
    ensures Shl(a + b, n) == Shl(a, n) + Shl(b, n)
  {
    if n > 0 {
      ShlAdd(a, b, n - 1);
    }
  }

  lemma {:induction false} ShlGrows(c: nat, m: nat, n: nat)
    requires m <= n
    ensures Shl(c, m) <= Shl(c, n)
  {
    if m < n {
      ShlGrows(c, m, n - 1);
    }
  }

  lemma {:induction false} ShlShl(c: nat, m: nat, n: nat)
    ensures Shl(Shl(c, m), n) == Shl(c, m + n)
  {
    if n > 0 {
      ShlShl(c, m, n - 1);
    }
  }

  lemma ShlSeven(c: nat)
    ensures Shl(c, 7) == 128 * c
  {
    ShlFour(c);
    assert Shl(c, 6) == 4 * Shl(c, 4);
  }

  /** Seven bits now and the rest seven places on are the whole number. */
  lemma ShlSplit(v: nat, n: nat)
    ensures Shl(v % 128, n) + Shl(v / 128, n + 7) == Shl(v, n)
  {
    ShlSeven(v / 128);
    ShlShl(v / 128, 7, n);
    ShlAdd(v % 128, 128 * (v / 128), n);
  }

  lemma ShlMonotone(a: nat, b: nat, n: nat)
    requires a <= b
    ensures Shl(a, n) <= Shl(b, n)
  {
    ShlAdd(a, b - a, n);
  }

  lemma ShlValues(c: nat)
    ensures Shl(c, 56) == U56 * c && Shl(c, 60) == U60 * c && Shl(c, 63) == U63 * c
  {
    ShlSeven(c);
    ShlSeven(Shl(c, 7));
    ShlShl(c, 7, 7);
    ShlSeven(Shl(c, 14));
    ShlShl(c, 14, 7);
    ShlSeven(Shl(c, 21));
    ShlShl(c, 21, 7);
    ShlSeven(Shl(c, 28));
    ShlShl(c, 28, 7);
    ShlSeven(Shl(c, 35));
    ShlShl(c, 35, 7);
    ShlSeven(Shl(c, 42));
    ShlShl(c, 42, 7);
    ShlSeven(Shl(c, 49));
    ShlShl(c, 49, 7);
    ShlSeven(Shl(c, 56));
    ShlShl(c, 56, 7);
    assert Shl(c, 58) == 4 * Shl(c, 56);
    assert Shl(c, 60) == 4 * Shl(c, 58);
  }

  // ---------------------------------------------------------------- little-endian groups

  /** Seven bits a byte, least significant first, continuation bit on all but the last. */
  function EncodeGroups(v: nat): (b: bytes)
    ensures |b| >= 1
  {
    if v < 128 then [v] else [128 + v % 128] + EncodeGroups(v / 128)
  }

  /** The number the first n groups of buf spell. */
  function GroupsValue(buf: bytes, n: nat): nat
    requires n <= |buf|
  {
    if n == 0 then 0 else GroupsValue(buf, n - 1) + Shl(buf[n - 1] % 128, 7 * (n - 1))
  }

  // ---------------------------------------------------------------- header size bits

  /** ReadHeader's size loop, about to test the continuation bit of buf[used - 1]. */
  function SizeFrom(buf: bytes, used: nat, shift: nat, size: nat): Varint.Result
    requires 1 <= used
    decreases |buf| - used
  {
    if used > |buf| then Varint.Truncated
    else if buf[used - 1] < 128 then Varint.Decoded(size, used)
    else if used >= |buf| then Varint.Truncated
    else if shift + 7 >= 64 then Varint.Overflow
    else SizeFrom(buf, used + 1, shift + 7, size + Shl(buf[used] % 128, shift))
  }

  function SizeBits(buf: bytes): Varint.Result
    requires buf != []
  {
    SizeFrom(buf, 1, 4, buf[0] % 16)
  }

  /** The header bytes a pack writer produces for a type and a size. */
  function EncodeSize(objectType: nat, v: nat): bytes
    requires objectType < 8
  {
    if v < 16 then [objectType * 16 + v]
    else [128 + objectType * 16 + v % 16] + EncodeGroups(v / 16)
  }

  lemma {:induction false} GroupsRead(buf: bytes, used: nat, shift: nat, size: nat, v: nat)
    requires 1 <= used <= |buf| && buf[used - 1] >= 128
    requires EncodeGroups(v) <= buf[used..] && 1 <= v
    requires shift % 7 == 4 && Shl(v, shift) < U60
    ensures SizeFrom(buf, used, shift, size)
         == Varint.Decoded(size + Shl(v, shift), used + |EncodeGroups(v)|)
    decreases v
  {
    if shift >= 57 {
      ShlMonotone(1, v, shift);
      ShlGrows(1, 60, shift);
      ShlValues(1);
      assert false;
    }
    assert buf[used] == buf[used..][0] == EncodeGroups(v)[0];
    if v >= 128 {
      ShlSplit(v, shift);
      assert buf[used + 1..] == buf[used..][1..];
      assert EncodeGroups(v)[1..] == EncodeGroups(v / 128);
      GroupsRead(buf, used + 1, shift + 7, size + Shl(v % 128, shift), v / 128);
    }
  }

  lemma FirstByte(objectType: nat, low: nat, more: nat)
    requires objectType < 8 && low < 16 && more < 2
    ensures var c := 128 * more + objectType * 16 + low;
      c < 256 && c % 16 == low && c / 16 % 8 == objectType && (c >= 128 <==> more == 1)
  {
  }

  /** Every type and every size below 2^60 comes back from its header bytes. */
  lemma SizeRoundTrip(objectType: nat, v: nat, tail: bytes)
    requires objectType < 8 && v < U60
    ensures var buf := EncodeSize(objectType, v) + tail;
      SizeBits(buf) == Varint.Decoded(v, |EncodeSize(objectType, v)|) && TypeBits(buf[0]) == objectType
  {
    var code := EncodeSize(objectType, v);
    var buf := code + tail;
    assert buf[0] == code[0];
    FirstByte(objectType, v % 16, if v < 16 then 0 else 1);
    if v >= 16 {
      var rest := v / 16;
      assert buf[1..] == EncodeGroups(rest) + tail;
      ShlFour(rest);
      GroupsRead(buf, 1, 4, v % 16, rest);
    }
  }

  lemma ShlFour(c: nat)
    ensures Shl(c, 4) == 16 * c
  {
    assert Shl(c, 2) == 4 * c by {
      assert Shl(c, 1) == 2 * c;
    }
    assert Shl(c, 4) == 4 * Shl(c, 2);
  }

  /** Whatever the loop accepts is below 2^60, so the int64 never wraps. */
  lemma {:induction false} SizeBelowLimit(buf: bytes, used: nat, shift: nat, size: nat)
    requires 1 <= used && shift % 7 == 4 && shift <= 60 && size < Shl(1, shift)
    ensures var r := SizeFrom(buf, used, shift, size);
      r.Decoded? ==> used <= r.used <= |buf| && 0 <= r.value < U60
    decreases |buf| - used
  {
    ShlValues(1);
    ShlGrows(1, shift, 60);
    hide Shl;
    if used < |buf| && buf[used - 1] >= 128 && shift + 7 < 64 {
      var c := buf[used] % 128;
      ShlMonotone(c, 127, shift);
      ShlAdd(127, 1, shift);
      ShlSeven(1);
      ShlShl(1, 7, shift);
      SizeBelowLimit(buf, used + 1, shift + 7, size + Shl(c, shift));
    }
  }

  // ---------------------------------------------------------------- ReadHeader

  function TypeBits(c: byte): nat {
    c / 16 % 8
  }

  /** The bytes ReadHeader peeks: enough for the longest header, cut short by the pack's end. */
  function Window(pack: bytes, at: nat, hashLen: nat): (w: bytes)
    requires at < |pack|
    ensures w != []
  {
    if |pack| - at < HeaderPeek + hashLen then pack[at..] else pack[at..at + HeaderPeek + hashLen]
  }

  /** The header at offset at, read through the window the source peeks. */
  function HeaderAt(pack: bytes, at: nat, hashLen: nat): HeaderResult {
    if at >= |pack| then Err(OutOfRange)
    else
      var window := Window(pack, at, hashLen);
      var s := SizeBits(window);
      if s.Truncated? then Err(Truncated)
      else if s.Overflow? then Err(Corrupt)
      else
        SizeBelowLimitAt(window);
        var t := TypeBits(window[0]);
        if t == TypeOfsDelta then
          var o := Varint.OfsBase(window[s.used..]);
          if o.Truncated? then Err(Truncated)
          else if o.Overflow? then Err(Corrupt)
          else if at - o.value <= 0 || at - o.value >= at then Err(Corrupt)
          else Ok(Header(t, s.value, at + s.used + o.used, OfsBase(at - o.value)))
        else if t == TypeRefDelta then
          if s.used + hashLen > |window| then Err(Truncated)
          else Ok(Header(t, s.value, at + s.used + hashLen, RefBase(window[s.used..s.used + hashLen])))
        else if TypeCommit <= t <= TypeTag then Ok(Header(t, s.value, at + s.used, NoBase))
        else Err(Corrupt)
  }

  lemma SizeBelowLimitAt(window: bytes)
    requires window != []
    ensures var r := SizeBits(window); r.Decoded? ==> 1 <= r.used <= |window| && 0 <= r.value < U60
  {
    SizeBelowLimit(window, 1, 4, window[0] % 16);
  }

  method ReadSizeBits(buf: bytes) returns (r: Varint.Result)
    requires buf != []
    ensures r == SizeBits(buf)
  {
    var size: nat := buf[0] % 16;
    var shift := 4;
    var used := 1;
    while buf[used - 1] >= 128
      invariant 1 <= used <= |buf|
      invariant SizeFrom(buf, used, shift, size) == SizeBits(buf)
      decreases |buf| - used
    {
      if used >= |buf| {
        return Varint.Truncated;
      }
      size := size + Shl(buf[used] % 128, shift);
      shift := shift + 7;
      used := used + 1;
      if shift >= 64 {
        return Varint.Overflow;
      }
    }
    return Varint.Decoded(size, used);
  }

  method ReadHeader(pack: bytes, at: int, hashLen: nat) returns (r: HeaderResult)
    ensures r == if at < 0 then Err(OutOfRange) else HeaderAt(pack, at, hashLen)
  {
    if at < 0 || at >= |pack| {
      return Err(OutOfRange);
    }
    var want := HeaderPeek + hashLen;
    if |pack| - at < want {
      want := |pack| - at;
    }
    var buf := pack[at..at + want];
    assert buf == Window(pack, at, hashLen);
    var s := ReadSizeBits(buf);
    if s.Truncated? {
      return Err(Truncated);
    }
    if s.Overflow? {
      return Err(Corrupt);
    }
    SizeBelowLimitAt(buf);
    var typeBits := TypeBits(buf[0]);
    if typeBits == TypeOfsDelta {
      var o := Varint.ReadOfsBase(buf[s.used..]);
      if o.Truncated? {
        return Err(Truncated);
      }
      if o.Overflow? {
        return Err(Corrupt);
      }
      var ofsBase := at - o.value;
      if ofsBase <= 0 || ofsBase >= at {
        return Err(Corrupt);
      }
      return Ok(Header(typeBits, s.value, at + s.used + o.used, OfsBase(ofsBase)));
    } else if typeBits == TypeRefDelta {
      if s.used + hashLen > |buf| {
        return Err(Truncated);
      }
      return Ok(Header(typeBits, s.value, at + s.used + hashLen, RefBase(buf[s.used..s.used + hashLen])));
    } else if TypeCommit <= typeBits <= TypeTag {
      return Ok(Header(typeBits, s.value, at + s.used, NoBase));
    }
    return Err(Corrupt);
  }

  /** A header says exactly one of the six types, and an OFS_DELTA base lies strictly before it. */
  lemma HeaderShape(pack: bytes, at: nat, hashLen: nat)
    ensures var r := HeaderAt(pack, at, hashLen); r.Ok? ==>
      && at < |pack| && at < r.header.bodyAt && r.header.size < U60
      && (r.header.base.OfsBase? <==> r.header.objectType == TypeOfsDelta)
      && (r.header.base.RefBase? <==> r.header.objectType == TypeRefDelta)
      && (r.header.base.NoBase? <==> TypeCommit <= r.header.objectType <= TypeTag)
      && (r.header.base.OfsBase? ==> 0 < r.header.base.at < at)
      && (r.header.base.RefBase? ==> |r.header.base.oid| == hashLen)
  {
    if at < |pack| {
      SizeBelowLimitAt(Window(pack, at, hashLen));
    }
  }

  lemma {:induction false} GroupsShort(v: nat, k: nat)
    requires v < Shl(1, 7 * k)
    ensures k == 0 ==> v == 0
    ensures |EncodeGroups(v)| <= if k == 0 then 1 else k
  {
    if k > 0 && v >= 128 {
      ShlShl(1, 7, 7 * (k - 1));
      ShlSeven(1);
      ShlScale(128, 7 * (k - 1));
      assert v / 128 < Shl(1, 7 * (k - 1)) by {
        assert v < 128 * Shl(1, 7 * (k - 1));
      }
      GroupsShort(v / 128, k - 1);
    }
  }

  lemma {:induction false} ShlScale(c: nat, n: nat)
    ensures Shl(c, n) == c * Shl(1, n)
  {
    if n > 0 {
      ShlScale(c, n - 1);
    }
  }

  /** A size takes at most nine bytes, so that the window holds it and whatever base follows. */
  lemma SizeIsShort(objectType: nat, v: nat)
    requires objectType < 8 && v < U60
    ensures 1 <= |EncodeSize(objectType, v)| <= 9
  {
    ShlValues(1);
    if v >= 16 {
      assert v / 16 < Shl(1, 56) by {
        assert Shl(1, 60) == 16 * Shl(1, 56) by {
          ShlShl(1, 56, 4);
          ShlFour(Shl(1, 56));
        }
      }
      GroupsShort(v / 16, 8);
    }
  }

  /** The window cut at hand begins with what was written, when that fits the peek. */
  lemma WindowBegins(before: bytes, code: bytes, tail: bytes, hashLen: nat)
    requires 1 <= |code| <= 32 + hashLen
    ensures var pack := before + code + tail;
      var w := Window(pack, |before|, hashLen);
      |code| <= |w| && w == code + w[|code|..]
  {
    var pack := before + code + tail;
    var w := Window(pack, |before|, hashLen);
    assert pack[|before|..] == code + tail;
    assert w == (code + tail)[..|w|];
    assert w[..|code|] == code;
  }

  /** What a header reads as when its size bits, and what follows them in the window, are known. */
  lemma {:induction false} HeaderParts(before: bytes, t: nat, v: nat, base: bytes, tail: bytes, hashLen: nat)
    requires t < 8 && v < U60 && |base| <= 20 + hashLen
    ensures var size := EncodeSize(t, v);
      var pack := before + (size + base) + tail;
      var w := Window(pack, |before|, hashLen);
      && |before| < |pack| && SizeBits(w) == Varint.Decoded(v, |size|) && TypeBits(w[0]) == t
      && |size| + |base| <= |w| && base <= w[|size|..] && |size| <= 9
  {
    hide SizeBits, EncodeSize, Window;
    var size := EncodeSize(t, v);
    SizeIsShort(t, v);
    WindowBegins(before, size + base, tail, hashLen);
    var w := Window(before + (size + base) + tail, |before|, hashLen);
    var rest := w[|size + base|..];
    assert w == size + (base + rest);
    SizeRoundTrip(t, v, base + rest);
    assert w[|size|..] == base + rest;
  }

  /**
   A whole object's header, whatever lies before and behind it: the four types that are numbered 1 to 4 read
   back with their size, their body right behind, and no base.
   */
  lemma WholeHeaderRoundTrip(before: bytes, t: nat, v: nat, tail: bytes, hashLen: nat)
    requires 1 <= t <= 4 && v < 0x1000_0000_0000_0000
    ensures HeaderAt(before + (EncodeSize(t, v) + []) + tail, |before|, hashLen)
         == Ok(Header(t, v, |before| + |EncodeSize(t, v)|, NoBase))
  {
    hide SizeBits, EncodeSize, Window, TypeBits;
    HeaderParts(before, t, v, [], tail, hashLen);
  }

  /** Type 6: the base is named by its distance, which must lead to a positive offset before the delta. */
  lemma OfsHeaderRoundTrip(before: bytes, v: nat, d: nat, tail: bytes, hashLen: nat)
    requires v < 0x1000_0000_0000_0000 && d < 0x8000_0000_0000_0000
    ensures HeaderAt(before + (EncodeSize(6, v) + Varint.Encode(d)) + tail, |before|, hashLen) ==
      if 0 < d < |before| then
        Ok(Header(6, v, |before| + |EncodeSize(6, v)| + |Varint.Encode(d)|, OfsBase(|before| - d)))
      else Err(Corrupt)
  {
    hide SizeBits, EncodeSize, Window, TypeBits, Varint.Encode, Varint.OfsBase, Varint.Decode;
    Varint.EncodingDecodes(d, Varint.Encode(d));
    HeaderParts(before, 6, v, Varint.Encode(d), tail, hashLen);
    var w := Window(before + (EncodeSize(6, v) + Varint.Encode(d)) + tail, |before|, hashLen);
    Varint.OfsEncodingDecodes(d, w[|EncodeSize(6, v)|..]);
  }

  /** Type 7: the base is the id that follows the size. */
  lemma RefHeaderRoundTrip(before: bytes, v: nat, oid: bytes, tail: bytes)
    requires v < 0x1000_0000_0000_0000
    ensures HeaderAt(before + (EncodeSize(7, v) + oid) + tail, |before|, |oid|)
         == Ok(Header(7, v, |before| + |EncodeSize(7, v)| + |oid|, RefBase(oid)))
  {
    hide SizeBits, EncodeSize, Window, TypeBits;
    HeaderParts(before, 7, v, oid, tail, |oid|);
    var n := |EncodeSize(7, v)|;
    var w := Window(before + (EncodeSize(7, v) + oid) + tail, |before|, |oid|);
    assert w[n..n + |oid|] == w[n..][..|oid|] == oid;
  }

  /** The two type numbers git does not use. */
  lemma UnusedTypes(before: bytes, t: nat, v: nat, tail: bytes, hashLen: nat)
    requires t in {0, 5} && v < 0x1000_0000_0000_0000
    ensures HeaderAt(before + (EncodeSize(t, v) + []) + tail, |before|, hashLen) == Err(Corrupt)
  {
    hide SizeBits, EncodeSize, Window, TypeBits;
    HeaderParts(before, t, v, [], tail, hashLen);
  }

  /** A pack that ends before, inside or right behind the size bits, or inside a base id. */
  lemma CutShort(before: bytes, t: nat, v: nat, part: bytes, hashLen: nat)
    requires t in {6, 7} && v < 0x1000_0000_0000_0000
    requires |part| < if t == 6 then 1 else hashLen
    ensures HeaderAt(before, |before|, hashLen) == Err(OutOfRange)
    ensures HeaderAt(before + (EncodeSize(t, v) + part) + [], |before|, hashLen) == Err(Truncated)
  {
    hide SizeBits, EncodeSize, TypeBits;
    var size := EncodeSize(t, v);
    HeaderParts(before, t, v, part, [], hashLen);
    var w := Window(before + (size + part) + [], |before|, hashLen);
    assert |w| == |size| + |part| && w[|size|..] == part;
    hide Window;
  }

  lemma {:induction false} SizeRunsOn(buf: bytes, used: nat, size: nat)
    requires 1 <= used <= 9 && used <= |buf| && forall i :: 0 <= i < |buf| && i < 10 ==> buf[i] >= 128
    ensures SizeFrom(buf, used, 4 + 7 * (used - 1), size) == if |buf| <= 9 then Varint.Truncated else Varint.Overflow
    decreases 9 - used
  {
    hide Shl;
    if used < 9 && used < |buf| {
      SizeRunsOn(buf, used + 1, size + Shl(buf[used] % 128, 4 + 7 * (used - 1)));
    }
  }

  /** Size bits that do not end: within nine bytes the pack is cut short, a tenth is corruption. */
  lemma EndlessSize(before: bytes, part: bytes, hashLen: nat)
    requires part != [] && forall i :: 0 <= i < |part| && i < 10 ==> part[i] >= 128
    ensures HeaderAt(before + part, |before|, hashLen) == Err(if |part| <= 9 then Truncated else Corrupt)
  {
    hide SizeFrom;
    var w := Window(before + part, |before|, hashLen);
    assert (before + part)[|before|..] == part;
    assert w == part[..|w|];
    SizeRunsOn(w, 1, w[0] % 16);
  }

  /** A distance that is cut short or out of range is refused like the size bits. */
  lemma OfsRefused(before: bytes, v: nat, bad: bytes, hashLen: nat)
    requires v < 0x1000_0000_0000_0000 && |bad| <= 20 + hashLen && !Varint.OfsBase(bad).Decoded?
    ensures HeaderAt(before + (EncodeSize(6, v) + bad) + [], |before|, hashLen)
         == Err(if Varint.OfsBase(bad) == Varint.Truncated then Truncated else Corrupt)
  {
    hide SizeBits, EncodeSize, TypeBits, Varint.OfsBase;
    var size := EncodeSize(6, v);
    HeaderParts(before, 6, v, bad, [], hashLen);
    var w := Window(before + (size + bad) + [], |before|, hashLen);
    assert |w| == |size| + |bad| && w[|size|..] == bad;
    hide Window;
  }

  /** Size bits and little-endian groups, to the letter. */
  lemma Letters()
    ensures EncodeSize(3, 5) == [0x35] && EncodeSize(2, 300) == [0xac, 18] && EncodeSize(6, 3000) == [0xe8, 0xbb, 1]
    ensures EncodeGroups(5) == [5] && EncodeGroups(300) == [0xac, 2] && EncodeGroups(20000) == [0xa0, 0x9c, 1]
  {
    assert EncodeGroups(187) == [0xbb, 1] && EncodeGroups(156) == [0x9c, 1];
  }

  // ---------------------------------------------------------------- delta payload sizes

  /** readDeltaVarint's loop; a group shifted past bit 63 keeps only what int64 keeps. */
  function DeltaFrom(buf: bytes, used: nat, shift: nat, v: int): Varint.Result
    decreases |buf| - used
  {
    if used >= |buf| then Varint.Truncated
    else
      var next := v + Int64(Shl(buf[used] % 128, shift));
      if buf[used] < 128 then Varint.Decoded(next, used + 1)
      else if shift + 7 >= 64 then Varint.Overflow
      else DeltaFrom(buf, used + 1, shift + 7, next)
  }

  function DeltaSize(buf: bytes): Varint.Result {
    DeltaFrom(buf, 0, 0, 0)
  }

  lemma {:induction false} DeltaRunsOn(buf: bytes, used: nat, v: int)
    requires used <= 9 && used <= |buf| && forall i :: 0 <= i < |buf| && i < 10 ==> buf[i] >= 128
    ensures DeltaFrom(buf, used, 7 * used, v) == if |buf| <= 9 then Varint.Truncated else Varint.Overflow
    decreases 9 - used
  {
    hide Shl, Int64;
    if used < 9 && used < |buf| {
      DeltaRunsOn(buf, used + 1, v + Int64(Shl(buf[used] % 128, 7 * used)));
    }
  }

  /** Groups that do not end: up to nine are cut short, ten are too many. */
  lemma EndlessDelta(buf: bytes)
    requires forall i :: 0 <= i < |buf| && i < 10 ==> buf[i] >= 128
    ensures DeltaSize(buf) == if |buf| <= 9 then Varint.Truncated else Varint.Overflow
  {
    DeltaRunsOn(buf, 0, 0);
  }

  method ReadDeltaVarint(buf: bytes) returns (r: Varint.Result)
    ensures r == DeltaSize(buf)
  {
    var v, shift, used := 0, 0, 0;
    while used < |buf|
      invariant used <= |buf|
      invariant DeltaFrom(buf, used, shift, v) == DeltaSize(buf)
    {
      var c := buf[used];
      v := v + Int64(Shl(c % 128, shift));
      used := used + 1;
      if c < 128 {
        return Varint.Decoded(v, used);
      }
      shift := shift + 7;
      if shift >= 64 {
        return Varint.Overflow;
      }
    }
    return Varint.Truncated;
  }

  lemma GroupFits(c: nat, shift: nat)
    requires c < 128 && shift <= 56
    ensures Int64(Shl(c, shift)) == Shl(c, shift)
  {
    ShlValues(c);
    ShlGrows(c, shift, 56);
  }

  /**
   The value returned is the number the groups spell exactly when the tenth byte, whose low bit
   lands on the sign, was not reached or is zero; at most ten bytes are ever taken.
   */
  lemma {:induction false} DeltaExactUpTo(buf: bytes, used: nat, v: int)
    requires used <= 9 && used <= |buf| && v == GroupsValue(buf, used)
    ensures var r := DeltaFrom(buf, used, 7 * used, v);
      r.Decoded? ==>
        && used < r.used <= 10 && r.used <= |buf|
        && (r.value == GroupsValue(buf, r.used) <==> r.used <= 9 || buf[9] == 0)
    decreases |buf| - used
  {
    if used < |buf| {
      var c := buf[used] % 128;
      if used <= 8 {
        GroupFits(c, 7 * used);
        if buf[used] >= 128 {
          DeltaExactUpTo(buf, used + 1, GroupsValue(buf, used + 1));
        }
      } else {
        ShlValues(c);
      }
    }
  }

  lemma DeltaExact(buf: bytes)
    ensures var r := DeltaSize(buf);
      r.Decoded? ==>
        && 0 < r.used <= 10 && r.used <= |buf|
        && (r.value == GroupsValue(buf, r.used) <==> r.used <= 9 || buf[9] == 0)
  {
    DeltaExactUpTo(buf, 0, 0);
  }

  /** Every size below 2^63 decodes from its groups, on top of the value accumulated so far. */
  lemma {:induction false} DeltaReads(buf: bytes, used: nat, shift: nat, v: int, rest: nat)
    requires used <= |buf| && EncodeGroups(rest) <= buf[used..]
    requires shift % 7 == 0 && shift <= 56 && Shl(rest, shift) < U63
    ensures DeltaFrom(buf, used, shift, v)
         == Varint.Decoded(v + Shl(rest, shift), used + |EncodeGroups(rest)|)
    decreases rest
  {
    assert buf[used] == buf[used..][0] == EncodeGroups(rest)[0];
    GroupFits(rest % 128, shift);
    if rest >= 128 {
      if shift == 56 {
        ShlValues(rest);
        assert false;
      }
      ShlSplit(rest, shift);
      assert buf[used + 1..] == buf[used..][1..];
      assert EncodeGroups(rest)[1..] == EncodeGroups(rest / 128);
      DeltaReads(buf, used + 1, shift + 7, v + Shl(rest % 128, shift), rest / 128);
    }
  }

  lemma DeltaRoundTrip(v: nat, tail: bytes)
    requires v < U63
    ensures DeltaSize(EncodeGroups(v) + tail) == Varint.Decoded(v, |EncodeGroups(v)|)
  {
    DeltaReads(EncodeGroups(v) + tail, 0, 0, 0, v);
  }

  lemma {:induction false} DeltaZeros(buf: bytes, n: nat)
    requires n <= 9 && n < |buf| && forall i :: 0 <= i < n ==> buf[i] == 128
    ensures DeltaSize(buf) == DeltaFrom(buf, n, 7 * n, 0) && GroupsValue(buf, n) == 0
  {
    if n > 0 {
      DeltaZeros(buf, n - 1);
      ShlAdd(0, 0, 7 * (n - 1));
    }
  }

  /** Ten bytes whose last group is 1 come back negative: 2^63 does not survive its encoding. */
  lemma {:induction false} DeltaSignOverflow()
    ensures var b := [128, 128, 128, 128, 128, 128, 128, 128, 128, 1];
      DeltaSize(b) == Varint.Decoded(-U63, 10) && GroupsValue(b, 10) == U63
  {
    var b := [128, 128, 128, 128, 128, 128, 128, 128, 128, 1];
    DeltaZeros(b, 9);
    ShlValues(1);
  }
}
