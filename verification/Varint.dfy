/**
 The integer codecs: reftable's varint, the OFS_DELTA offset, the pack header's size field and
 the delta payload's size. Each decoder is a method with the source's loop, equal on every input
 to a specification function; the lemmas compare that function with an encoder defined on its own.
 Where the source shifts a value left and ORs seven fresh low bits in, the model multiplies by 128
 and adds, which is the same number because those bits are zero.
 */
module Varint {
  import opened Bytes

  datatype Result = Decoded(value: int, used: nat) | Truncated | Overflow

  // ---------------------------------------------------------------- encodings

  /** v with the continuation bit on every byte. */
  function Continued(v: nat): (b: bytes)
    ensures |b| >= 1 && b[|b| - 1] >= 128
  {
    if v < 128 then [128 + v] else Continued(v / 128 - 1) + [128 + v % 128]
  }

  /** The encoding of v: continuation bytes for all but the last seven bits. */
  function Encode(v: nat): (b: bytes)
    ensures |b| >= 1 && b[|b| - 1] < 128
  {
    if v < 128 then [v] else Continued(v / 128 - 1) + [v % 128]
  }

  /** How many values n bytes or fewer can carry. */
  function Capacity(n: nat): nat {
    if n == 0 then 0 else 128 * (Capacity(n - 1) + 1)
  }

  lemma Unfold(v: nat)
    ensures v < 128 ==> Continued(v) == [128 + v] && Encode(v) == [v]
    ensures v >= 128 ==> Continued(v) == Continued(v / 128 - 1) + [128 + v % 128]
    ensures v >= 128 ==> Encode(v) == Continued(v / 128 - 1) + [v % 128]
  {
  }

  lemma {:induction false} ContinuedLength(v: nat)
    ensures Capacity(|Continued(v)| - 1) <= v < Capacity(|Continued(v)|)
    ensures |Encode(v)| == |Continued(v)|
  {
    if v >= 128 {
      ContinuedLength(v / 128 - 1);
    }
  }

  lemma {:induction false} CapacityMonotone(m: nat, n: nat)
    requires m <= n
    ensures Capacity(m) <= Capacity(n)
  {
    if m < n {
      CapacityMonotone(m, n - 1);
    }
  }

  lemma CapacityValues()
    ensures Capacity(8) == 0x102_0408_1020_4080
    ensures Capacity(9) == 0x8102_0408_1020_4080
    ensures U56 < Capacity(8) && U57 < Capacity(9) < U64 - 1 && U64 < Capacity(10)
  {
    assert Capacity(2) == 0x4080;
    assert Capacity(4) == 0x1020_4080;
    assert Capacity(6) == 0x408_1020_4080;
  }

  // ---------------------------------------------------------------- reftable varint

  /** The running value after buf[..i], whose last byte has just been folded in. */
  function DecodeFrom(buf: bytes, i: nat, val: nat): (r: Result)
    requires 1 <= i <= |buf|
    ensures r.Decoded? ==> i <= r.used <= |buf| && 0 <= r.value
    decreases |buf| - i
  {
    if buf[i - 1] < 128 then Decoded(val, i)
    else if i >= 10 then Overflow
    else
      var next := (val + 1) % U64;
      if next / U57 != 0 then Overflow
      else if i >= |buf| then Truncated
      else DecodeFrom(buf, i + 1, next * 128 + buf[i] % 128)
  }

  function Decode(buf: bytes): (r: Result)
    ensures r.Decoded? ==> 1 <= r.used <= |buf| && 0 <= r.value
  {
    if buf == [] then Truncated else DecodeFrom(buf, 1, buf[0] % 128)
  }

  method DecodeVarint(buf: bytes) returns (r: Result)
    ensures r == Decode(buf)
  {
    if |buf| == 0 {
      return Truncated;
    }
    var c := buf[0];
    var val: nat := c % 128;
    var i := 1;
    while c >= 128
      invariant 1 <= i <= |buf| && c == buf[i - 1]
      invariant DecodeFrom(buf, i, val) == Decode(buf)
      decreases |buf| - i
    {
      if i >= 10 {
        return Overflow;
      }
      val := (val + 1) % U64;
      if val / U57 != 0 {
        return Overflow;
      }
      if i >= |buf| {
        return Truncated;
      }
      c := buf[i];
      i := i + 1;
      val := val * 128 + c % 128;
    }
    return Decoded(val, i);
  }

  /** What the running value stands for: the bytes read so far are its encoding. */
  ghost predicate Reads(buf: bytes, i: nat, val: nat)
    requires 1 <= i <= |buf|
  {
    buf[..i] == if buf[i - 1] < 128 then Encode(val) else Continued(val)
  }

  lemma ReadsFirst(buf: bytes)
    requires buf != []
    ensures Reads(buf, 1, buf[0] % 128)
  {
    assert buf[..1] == [buf[0]];
  }

  lemma ReadsNext(buf: bytes, i: nat, val: nat)
    requires 1 <= i < |buf| && buf[i - 1] >= 128 && Reads(buf, i, val)
    ensures Reads(buf, i + 1, (val + 1) * 128 + buf[i] % 128)
  {
    var v := (val + 1) * 128 + buf[i] % 128;
    assert v / 128 - 1 == val && v % 128 == buf[i] % 128;
    assert buf[..i + 1] == buf[..i] + [buf[i]];
  }

  /** No wrap-around: a value about to be incremented has at most nine bytes behind it. */
  lemma {:induction false} ReadsBound(buf: bytes, i: nat, val: nat)
    requires 1 <= i <= |buf| && Reads(buf, i, val)
    ensures Capacity(i - 1) <= val < Capacity(i)
    ensures i <= 9 ==> val + 1 < U64
    ensures i >= 10 ==> val >= U63
  {
    hide Continued, Encode, Capacity;
    ContinuedLength(val);
    assert |buf[..i]| == i;
    CapacityValues();
    if i <= 9 {
      CapacityMonotone(i, 9);
    } else {
      CapacityMonotone(9, i - 1);
    }
  }

  lemma {:induction false} DecodeStep(buf: bytes, i: nat, val: nat)
    requires 1 <= i < |buf| && i < 10 && buf[i - 1] >= 128 && val + 1 < U57
    ensures DecodeFrom(buf, i, val) == DecodeFrom(buf, i + 1, (val + 1) * 128 + buf[i] % 128)
  {
    assert (val + 1) % U64 == val + 1;
    assert (val + 1) / U57 == 0;
  }

  /** A step that stops without a value: ten bytes, too large a value, or no more input. */
  lemma {:induction false} DecodeStops(buf: bytes, i: nat, val: nat)
    requires 1 <= i <= |buf| && buf[i - 1] >= 128 && Reads(buf, i, val)
    requires !(i < 10 && val + 1 < U57 && i < |buf|)
    ensures !DecodeFrom(buf, i, val).Decoded?
  {
    hide Encode, Continued;
    ReadsBound(buf, i, val);
    if i < 10 {
      assert (val + 1) % U64 == val + 1;
    }
  }

  lemma {:induction false} DecodedIsEncoding(buf: bytes, i: nat, val: nat)
    requires 1 <= i <= |buf| && Reads(buf, i, val) && val < U64
    ensures var r := DecodeFrom(buf, i, val);
      r.Decoded? ==> i <= r.used <= |buf| && 0 <= r.value < U64 && Reads(buf, r.used, r.value) && buf[r.used - 1] < 128
    decreases |buf| - i
  {
    hide Encode, Continued;
    if buf[i - 1] >= 128 {
      if i < 10 && val + 1 < U57 && i < |buf| {
        ReadsNext(buf, i, val);
        DecodeStep(buf, i, val);
        var next := (val + 1) * 128 + buf[i] % 128;
        DecodedIsEncoding(buf, i + 1, next);
      } else {
        DecodeStops(buf, i, val);
      }
    }
  }

  lemma {:induction false} ContinuedFits(u: nat)
    requires u < U57
    ensures |Continued(u)| <= 9
  {
    hide Continued;
    ContinuedLength(u);
    CapacityValues();
    if |Continued(u)| > 9 {
      CapacityMonotone(9, |Continued(u)| - 1);
    }
  }

  /** Taking the last seven bits off u and folding them back in. */
  lemma {:induction false} Refold(u: nat, last: byte)
    requires u >= 128 && last % 128 == u % 128
    ensures u / 128 >= 1 && (u / 128 - 1 + 1) * 128 + last % 128 == u
  {
  }

  /** Decoding runs through the continuation bytes of u to the state that has read u. */
  lemma {:induction false} DecodeReachesPrefix(u: nat, buf: bytes)
    requires u < U57 && Continued(u) <= buf
    ensures Decode(buf) == DecodeFrom(buf, |Continued(u)|, u)
  {
    hide Continued;
    var n := |Continued(u)|;
    Unfold(u);
    assert buf[..n] == Continued(u);
    if u >= 128 {
      var t := u / 128 - 1;
      DecodeReachesPrefix(t, buf);
      ContinuedFits(u);
      Refold(u, 128 + u % 128);
      assert buf[n - 1] == Continued(u)[n - 1] && buf[n - 2] == Continued(t)[n - 2];
      DecodeStep(buf, n - 1, t);
    } else {
      assert buf[0] == Continued(u)[0];
    }
  }

  lemma {:induction false} EncodingDecodes(v: nat, buf: bytes)
    requires v < U64 && Encode(v) <= buf
    ensures Decode(buf) == Decoded(v, |Encode(v)|)
    ensures |Encode(v)| <= 10
  {
    hide Continued, Encode;
    var n := |Encode(v)|;
    Unfold(v);
    assert buf[..n] == Encode(v);
    assert buf[n - 1] == Encode(v)[n - 1];
    if v >= 128 {
      var u := v / 128 - 1;
      DecodeReachesPrefix(u, buf);
      ContinuedFits(u);
      Refold(v, v % 128);
      assert buf[n - 2] == Continued(u)[n - 2];
      DecodeStep(buf, n - 1, u);
    }
  }

  /** decodeVarint accepts exactly the encodings of the uint64 values, each from its one byte string. */
  lemma {:induction false} DecodeExact(buf: bytes, v: nat, n: nat)
    ensures Decode(buf) == Decoded(v, n)
      <==> v < U64 && n == |Encode(v)| <= |buf| && buf[..n] == Encode(v)
  {
    if Decode(buf) == Decoded(v, n) {
      ReadsFirst(buf);
      DecodedIsEncoding(buf, 1, buf[0] % 128);
      assert |buf[..n]| == n;
    }
    if v < U64 && n == |Encode(v)| <= |buf| && buf[..n] == Encode(v) {
      EncodingDecodes(v, buf);
    }
  }

  /** One byte string per value, and no encoding is a prefix of another. */
  lemma {:induction false} EncodePrefixFree(v: nat, w: nat, rest: bytes, after: bytes)
    requires v < U64 && w < U64 && Encode(v) + rest == Encode(w) + after
    ensures v == w && rest == after
  {
    EncodingDecodes(v, Encode(v) + rest);
    EncodingDecodes(w, Encode(w) + after);
    assert rest == (Encode(v) + rest)[|Encode(v)|..];
    assert after == (Encode(w) + after)[|Encode(w)|..];
  }

  /** Reading on: bytes after a decoded value do not change it. */
  lemma {:induction false} DecodeIgnoresTail(buf: bytes, tail: bytes)
    requires Decode(buf).Decoded?
    ensures Decode(buf + tail) == Decode(buf)
    ensures 1 <= Decode(buf).used <= |buf| && 0 <= Decode(buf).value < U64
  {
    var r := Decode(buf);
    ReadsFirst(buf);
    DecodedIsEncoding(buf, 1, buf[0] % 128);
    DecodeExact(buf, r.value, r.used);
    assert (buf + tail)[..r.used] == buf[..r.used];
    DecodeExact(buf + tail, r.value, r.used);
  }

  /** Encodings to the letter. */
  lemma Letters()
    ensures Encode(0) == [0] && Encode(127) == [0x7f] && Encode(128) == [0x80, 0] && Encode(16511) == [0xff, 0x7f]
    ensures Encode(16512) == [0x80, 0x80, 0] && Encode(16513) == [0x80, 0x80, 1]
  {
    assert Continued(0) == [0x80] && Continued(127) == [0xff] && Continued(128) == [0x80, 0x80];
  }

  lemma {:induction false} OverflowIgnoresTail(buf: bytes, tail: bytes, i: nat, val: nat)
    requires 1 <= i <= |buf| && DecodeFrom(buf, i, val) == Overflow
    ensures DecodeFrom(buf + tail, i, val) == Overflow
    decreases |buf| - i
  {
    if i < |buf| && i < 10 && (val + 1) % U64 / U57 == 0 {
      OverflowIgnoresTail(buf, tail, i + 1, (val + 1) % U64 * 128 + buf[i] % 128);
    }
  }

  lemma {:induction false} TruncatedBegins(buf: bytes, i: nat, val: nat) returns (v: nat)
    requires 1 <= i <= |buf| && Reads(buf, i, val) && val < U64 && DecodeFrom(buf, i, val) == Truncated
    ensures v < U64 && |Encode(v)| > |buf| && Encode(v)[..|buf|] == buf
    decreases |buf| - i
  {
    hide Encode, Continued;
    ReadsBound(buf, i, val);
    assert (val + 1) % U64 == val + 1;
    if i < |buf| {
      ReadsNext(buf, i, val);
      DecodeStep(buf, i, val);
      v := TruncatedBegins(buf, i + 1, (val + 1) * 128 + buf[i] % 128);
    } else {
      v := (val + 1) * 128;
      Unfold(v);
      assert v / 128 - 1 == val && v % 128 == 0;
      assert buf[..i] == buf;
    }
  }

  /** Input that stops too soon is told from input that is too large: it begins the encoding of some uint64. */
  lemma {:induction false} TruncatedExactly(buf: bytes)
    ensures Decode(buf) == Truncated <==> exists v: nat :: v < U64 && buf < Encode(v)
  {
    hide Encode, Continued, DecodeFrom;
    if Decode(buf) == Truncated {
      if buf == [] {
        assert buf < Encode(0);
      } else {
        ReadsFirst(buf);
        var v := TruncatedBegins(buf, 1, buf[0] % 128);
        assert buf < Encode(v);
      }
    }
    if exists v: nat :: v < U64 && buf < Encode(v) {
      var v: nat :| v < U64 && buf < Encode(v);
      var tail := Encode(v)[|buf|..];
      assert buf + tail == Encode(v);
      EncodingDecodes(v, Encode(v));
      if Decode(buf).Decoded? {
        DecodeIgnoresTail(buf, tail);
      } else if buf != [] && Decode(buf) == Overflow {
        OverflowIgnoresTail(buf, tail, 1, buf[0] % 128);
      }
    }
  }

  // ---------------------------------------------------------------- OFS_DELTA offset

  /** readOfsBase's loop: off is an int64 and wraps as Go's does. */
  function OfsFrom(buf: bytes, used: nat, off: int): Result
    requires 1 <= used <= |buf|
    decreases |buf| - used
  {
    if buf[used - 1] < 128 then Decoded(off, used)
    else if used >= |buf| then Truncated
    else
      var next := Int64(off + 1);
      if next >= U56 then Overflow
      else OfsFrom(buf, used + 1, Int64(next * 128) + buf[used] % 128)
  }

  function OfsBase(buf: bytes): Result {
    if buf == [] then Truncated else OfsFrom(buf, 1, buf[0] % 128)
  }

  method ReadOfsBase(buf: bytes) returns (r: Result)
    ensures r == OfsBase(buf)
  {
    if |buf| == 0 {
      return Truncated;
    }
    var c := buf[0];
    var off: int := c % 128;
    var used := 1;
    while c >= 128
      invariant 1 <= used <= |buf| && c == buf[used - 1]
      invariant OfsFrom(buf, used, off) == OfsBase(buf)
      decreases |buf| - used
    {
      if used >= |buf| {
        return Truncated;
      }
      off := Int64(off + 1);
      if off >= U56 {
        return Overflow;
      }
      c := buf[used];
      off := Int64(off * 128) + c % 128;
      used := used + 1;
    }
    return Decoded(off, used);
  }

  /** The nine continuation bytes after which the int64 counter steps past its maximum. */
  function WrappingPrefix(): bytes {
    Continued(U63 - 1)
  }

  /** 2^(7k) - 2, whose continuation form is k bytes of 254. */
  function Ones(k: nat): nat
    requires k >= 1
  {
    if k == 1 then 126 else (Ones(k - 1) + 1) * 128 + 126
  }

  lemma {:induction false} ContinuedOnes(k: nat)
    requires k >= 1
    ensures Continued(Ones(k)) == seq(k, _ => 254)
  {
    if k > 1 {
      ContinuedOnes(k - 1);
      var v := Ones(k);
      assert v / 128 - 1 == Ones(k - 1) && 128 + v % 128 == 254;
    }
  }

  lemma {:induction false} WrappingPrefixBytes()
    ensures WrappingPrefix() == [254, 254, 254, 254, 254, 254, 254, 254, 255]
  {
    ContinuedOnes(8);
    assert Ones(4) == 0xfff_fffe;
    assert Ones(8) == U56 - 2;
    var v := U63 - 1;
    assert v / 128 - 1 == U56 - 2 && 128 + v % 128 == 255;
    assert WrappingPrefix() == Continued(U56 - 2) + [255];
  }

  lemma {:induction false} OfsStep(buf: bytes, used: nat, off: nat)
    requires 1 <= used < |buf| && buf[used - 1] >= 128 && off + 1 < U56
    ensures OfsFrom(buf, used, off) == OfsFrom(buf, used + 1, (off + 1) * 128 + buf[used] % 128)
  {
    assert Int64(off + 1) == off + 1;
    assert Int64((off + 1) * 128) == (off + 1) * 128;
  }

  /** While the counter does not wrap it is exact. */
  lemma {:induction false} OfsFromExact(buf: bytes, used: nat, off: nat)
    requires 1 <= used <= |buf| && Reads(buf, used, off) && off < U63
    requires !(WrappingPrefix() <= buf)
    ensures var r := OfsFrom(buf, used, off);
      r.Decoded? ==> r.used <= |buf| && 0 <= r.value < U63 && buf[..r.used] == Encode(r.value)
    decreases |buf| - used
  {
    hide Encode, Continued;
    if buf[used - 1] >= 128 && used < |buf| {
      assert buf[..used] == Continued(off) && buf[..used] <= buf;
      if off == U63 - 1 {
        assert false;
      } else if off + 1 < U56 {
        ReadsNext(buf, used, off);
        OfsStep(buf, used, off);
        OfsFromExact(buf, used + 1, (off + 1) * 128 + buf[used] % 128);
      } else {
        assert Int64(off + 1) == off + 1;
      }
    }
  }

  lemma {:induction false} OfsReachesPrefix(u: nat, buf: bytes)
    requires u < U63 && Continued(u) <= buf
    ensures OfsBase(buf) == OfsFrom(buf, |Continued(u)|, u)
  {
    hide Continued;
    var n := |Continued(u)|;
    Unfold(u);
    assert buf[..n] == Continued(u);
    if u >= 128 {
      var t := u / 128 - 1;
      OfsReachesPrefix(t, buf);
      Refold(u, 128 + u % 128);
      assert buf[n - 1] == Continued(u)[n - 1] && buf[n - 2] == Continued(t)[n - 2];
      OfsStep(buf, n - 1, t);
    } else {
      assert buf[0] == Continued(u)[0];
    }
  }

  /** Every offset in 0..2^63-1 decodes from its encoding, as reftable's varint does. */
  lemma {:induction false} OfsEncodingDecodes(v: nat, buf: bytes)
    requires v < U63 && Encode(v) <= buf
    ensures OfsBase(buf) == Decoded(v, |Encode(v)|) == Decode(buf)
  {
    hide Continued, Encode;
    var n := |Encode(v)|;
    EncodingDecodes(v, buf);
    Unfold(v);
    assert buf[..n] == Encode(v);
    assert buf[n - 1] == Encode(v)[n - 1];
    if v >= 128 {
      var u := v / 128 - 1;
      OfsReachesPrefix(u, buf);
      Refold(v, v % 128);
      assert buf[n - 2] == Continued(u)[n - 2];
      OfsStep(buf, n - 1, u);
    }
  }

  lemma {:induction false} OfsUsedPast(buf: bytes, used: nat, off: int)
    requires 1 <= used <= |buf|
    ensures var r := OfsFrom(buf, used, off);
      r.Decoded? ==> used <= r.used <= |buf| && buf[r.used - 1] < 128 && (buf[used - 1] >= 128 ==> used < r.used)
    decreases |buf| - used
  {
    if buf[used - 1] >= 128 && used < |buf| && Int64(off + 1) < U56 {
      OfsUsedPast(buf, used + 1, Int64(Int64(off + 1) * 128) + buf[used] % 128);
    }
  }

  lemma {:induction false} EncodingIsShort(v: nat)
    requires v < U63
    ensures |Encode(v)| <= 9
  {
    hide Continued, Encode, Capacity;
    ContinuedLength(v);
    CapacityValues();
    if |Encode(v)| > 9 {
      CapacityMonotone(9, |Encode(v)| - 1);
    }
  }

  /**
   What readOfsBase accepts is the encoding of what it returns exactly when the buffer does not
   open with the nine bytes that carry the counter to 2^63 - 1 and ask for more.
   */
  lemma {:induction false} OfsExactUnlessWrapped(buf: bytes)
    requires OfsBase(buf).Decoded?
    ensures var r := OfsBase(buf);
      (r.used <= |buf| && 0 <= r.value < U63 && buf[..r.used] == Encode(r.value))
      <==> !(WrappingPrefix() <= buf)
  {
    hide Continued, Encode, Capacity;
    var r := OfsBase(buf);
    if WrappingPrefix() <= buf {
      WrappingPrefixBytes();
      OfsReachesPrefix(U63 - 1, buf);
      assert buf[8] == WrappingPrefix()[8];
      OfsUsedPast(buf, 9, U63 - 1);
      if 0 <= r.value < U63 && buf[..r.used] == Encode(r.value) {
        assert |buf[..r.used]| == r.used;
        EncodingIsShort(r.value);
      }
    } else {
      ReadsFirst(buf);
      OfsFromExact(buf, 1, buf[0] % 128);
    }
  }

  /** Continuation bytes with nothing behind them are cut short; with more behind them, 2^56 and above is refused. */
  lemma {:induction false} OfsRefuses(u: nat, tail: bytes)
    requires u < U63
    ensures OfsBase([]) == OfsBase(Continued(u)) == Truncated
    ensures 0x100_0000_0000_0000 <= u + 1 < U63 && tail != [] ==> OfsBase(Continued(u) + tail) == Overflow
  {
    hide Continued;
    var n := |Continued(u)|;
    OfsReachesPrefix(u, Continued(u));
    OfsReachesPrefix(u, Continued(u) + tail);
    assert (Continued(u) + tail)[n - 1] == Continued(u)[n - 1] >= 128;
    if u + 1 < U63 {
      assert Int64(u + 1) == u + 1;
    }
  }

  /** A ten-byte string that is accepted as 5, whose one encoding is the single byte 5. */
  lemma {:induction false} OfsAcceptsSecondEncoding()
    ensures OfsBase(WrappingPrefix() + [5]) == Decoded(5, 10)
    ensures OfsBase(Encode(5)) == Decoded(5, 1)
  {
    var buf := WrappingPrefix() + [5];
    WrappingPrefixBytes();
    OfsReachesPrefix(U63 - 1, buf);
    assert buf[8] == 255 && buf[9] == 5;
    assert Int64(U63) == -U63 && Int64(-U63 * 128) == 0;
  }
}
