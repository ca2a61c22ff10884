/**
 The pkt-line codec. A string here is a byte string, one char per byte.
 */
module Pktline {
  import opened Options

  datatype Packet = Data(payload: string) | Flush | Delim | ResponseEnd

  datatype Error = InvalidHex | InvalidLength | PayloadTooLarge | UnexpectedEof

  const MaxPayload := 65516

  predicate Fits(p: Packet) {
    p.Data? ==> |p.payload| <= MaxPayload
  }

  lemma ControlFits()
    ensures Fits(Flush) && Fits(Delim) && Fits(ResponseEnd)
  {
  }

  predicate AllFit(ps: seq<Packet>) {
    forall i :: 0 <= i < |ps| ==> Fits(ps[i])
  }

  /** out is what a writer sends of whole: all of it when every packet fits, else a part. */
  ghost predicate SendsOf(whole: seq<Packet>, ok: bool, out: seq<Packet>) {
    out <= whole && (ok <==> AllFit(whole)) && (ok <==> out == whole)
  }

  // ---------------------------------------------------------------- the length prefix

  function Digit(n: nat): (c: char)
    requires n < 16
  {
    if n < 10 then '0' + n as char else 'a' + (n - 10) as char
  }

  /** encodeHexLength. */
  function HexLength(v: nat): (s: string)
    requires v < 0x1_0000
    ensures |s| == 4
  {
    [Digit(v / 0x1000), Digit(v / 0x100 % 16), Digit(v / 16 % 16), Digit(v % 16)]
  }

  /** The value of one hex digit of either case, or -1. */
  function DigitValue(c: char): (n: int)
    ensures -1 <= n < 16
  {
    if '0' <= c <= '9' then c as int - '0' as int
    else if 'a' <= c <= 'f' then c as int - 'a' as int + 10
    else if 'A' <= c <= 'F' then c as int - 'A' as int + 10
    else -1
  }

  ghost predicate IsHex(s: string) {
    |s| == 4 && forall i :: 0 <= i < 4 ==> DigitValue(s[i]) >= 0
  }

  ghost function HexValue(s: string): (v: nat)
    requires IsHex(s)
    ensures v < 0x1_0000
  {
    ((DigitValue(s[0]) * 16 + DigitValue(s[1])) * 16 + DigitValue(s[2])) * 16 + DigitValue(s[3])
  }

  /** parseHexLength: -1 is ErrInvalidHex. */
  method ParseHexLength(s: string) returns (v: int)
    requires |s| == 4
    ensures v == if IsHex(s) then HexValue(s) else -1
  {
    v := 0;
    for i := 0 to 4
      invariant v >= 0 && forall k :: 0 <= k < i ==> DigitValue(s[k]) >= 0
      invariant i == 0 ==> v == 0
      invariant i == 1 ==> v == DigitValue(s[0])
      invariant i == 2 ==> v == DigitValue(s[0]) * 16 + DigitValue(s[1])
      invariant i == 3 ==> v == (DigitValue(s[0]) * 16 + DigitValue(s[1])) * 16 + DigitValue(s[2])
      invariant i == 4 ==>
        v == ((DigitValue(s[0]) * 16 + DigitValue(s[1])) * 16 + DigitValue(s[2])) * 16 + DigitValue(s[3])
    {
      var n := DigitValue(s[i]);
      if n < 0 {
        return -1;
      }
      v := v * 16 + n;
    }
  }

  lemma DigitRoundTrip(n: nat)
    requires n < 16
    ensures DigitValue(Digit(n)) == n
  {
  }

  /** Encoding then parsing a length is the identity on 0..0xffff. */
  lemma {:induction false} HexRoundTrip(v: nat)
    requires v < 0x1_0000
    ensures IsHex(HexLength(v)) && HexValue(HexLength(v)) == v
  {
    hide Digit, DigitValue;
    DigitRoundTrip(v / 0x1000);
    DigitRoundTrip(v / 0x100 % 16);
    DigitRoundTrip(v / 16 % 16);
    DigitRoundTrip(v % 16);
  }

  /** Parsing then encoding returns the prefix itself, up to the case of its letters. */
  lemma {:induction false} HexReencodes(s: string)
    requires IsHex(s)
    ensures forall i :: 0 <= i < 4 ==>
      || HexLength(HexValue(s))[i] == s[i]
      || ('A' <= s[i] <= 'F' && HexLength(HexValue(s))[i] as int == s[i] as int + 32)
  {
    hide Digit, DigitValue;
    var a, b, c, d := DigitValue(s[0]), DigitValue(s[1]), DigitValue(s[2]), DigitValue(s[3]);
    Digits(a, b, c, d);
    forall i | 0 <= i < 4
      ensures Digit(DigitValue(s[i])) == s[i] ||
        ('A' <= s[i] <= 'F' && Digit(DigitValue(s[i])) as int == s[i] as int + 32)
    {
      CaseFolds(s[i]);
    }
  }

  lemma CaseFolds(c: char)
    requires DigitValue(c) >= 0
    ensures Digit(DigitValue(c)) == c || ('A' <= c <= 'F' && Digit(DigitValue(c)) as int == c as int + 32)
  {
  }

  lemma Digits(a: nat, b: nat, c: nat, d: nat)
    requires a < 16 && b < 16 && c < 16 && d < 16
    ensures var v := ((a * 16 + b) * 16 + c) * 16 + d;
      v / 0x1000 == a && v / 0x100 % 16 == b && v / 16 % 16 == c && v % 16 == d
  {
    var v := ((a * 16 + b) * 16 + c) * 16 + d;
    assert v / 16 == (a * 16 + b) * 16 + c;
    assert v / 0x100 == a * 16 + b;
  }

  // ---------------------------------------------------------------- frames

  function Frame(p: Packet): (s: string)
    requires Fits(p)
    ensures |s| >= 4
  {
    match p
    case Flush => "0000"
    case Delim => "0001"
    case ResponseEnd => "0002"
    case Data(payload) => HexLength(4 + |payload|) + payload
  }

  function Frames(ps: seq<Packet>): (s: string)
    requires AllFit(ps)
  {
    if ps == [] then [] else Frame(ps[0]) + Frames(ps[1..])
  }

  datatype Read = Got(packet: Packet, consumed: nat) | Eof | Failed(error: Error)

  /** What ReadPacket makes of the bytes still unread. */
  ghost function Next(s: string): (r: Read)
    ensures r.Got? ==> 4 <= r.consumed <= |s| && Fits(r.packet)
  {
    if s == [] then Eof
    else if |s| < 4 then Failed(UnexpectedEof)
    else if !IsHex(s[..4]) then Failed(InvalidHex)
    else
      var v := HexValue(s[..4]);
      if v == 0 then Got(Flush, 4)
      else if v == 1 then Got(Delim, 4)
      else if v == 2 then Got(ResponseEnd, 4)
      else if v == 3 then Failed(InvalidLength)
      else if v - 4 > MaxPayload then Failed(PayloadTooLarge)
      else if |s| < v then Failed(UnexpectedEof)
      else Got(Data(s[4..v]), v)
  }

  /** Of the lengths a prefix can state, the reader refuses exactly 3 and those above 0xfff0. */
  lemma {:induction false} RefusedLengths(v: nat, rest: string)
    requires v < 0x1_0000 && |rest| >= v
    ensures Next(HexLength(v) + rest).Failed? <==> v == 3 || v > 0xfff0
  {
    hide HexLength, HexValue, IsHex;
    HexRoundTrip(v);
    assert (HexLength(v) + rest)[..4] == HexLength(v);
  }

  /** A frame reads back as its packet and nothing of what follows. */
  lemma {:induction false} FrameReadsBack(p: Packet, rest: string)
    requires Fits(p)
    ensures Next(Frame(p) + rest) == Got(p, |Frame(p)|)
  {
    hide HexLength, HexValue, IsHex;
    match p
    case Data(payload) =>
      var v := 4 + |payload|;
      HexRoundTrip(v);
      assert (HexLength(v) + payload + rest)[..4] == HexLength(v);
      assert (HexLength(v) + payload + rest)[4..v] == payload;
    case Flush => ControlReadsBack(0, "0000", rest);
    case Delim => ControlReadsBack(1, "0001", rest);
    case ResponseEnd => ControlReadsBack(2, "0002", rest);
  }

  lemma ControlReadsBack(v: nat, s: string, rest: string)
    requires v < 3 && s == ['0', '0', '0', '0' + v as char]
    ensures IsHex((s + rest)[..4]) && HexValue((s + rest)[..4]) == v
  {
    assert (s + rest)[..4] == s;
  }

  /** Lengths and frames to the letter. */
  lemma Letters()
    ensures HexLength(0xabcd) == "abcd" && HexLength(0xef67) == "ef67" && HexLength(6) == "0006"
  {
  }

  lemma FrameLetters()
    ensures Frame(Data("a\n")) == "0006" + "a\n"
    ensures Frame(Flush) == "0000" && Frame(Delim) == "0001" && Frame(ResponseEnd) == "0002"
  {
    hide HexLength;
    Letters();
  }

  /** What the reader makes of bytes that are no frame: cut short, not hex, the length 3, too long a payload. */
  lemma {:induction false} ReaderRefuses(s: string, v: nat, part: string)
    requires v < 0x1_0000
    ensures Next("") == Eof
    ensures 0 < |s| < 4 ==> Next(s) == Failed(UnexpectedEof)
    ensures |s| >= 4 && (exists i :: 0 <= i < 4 && s[i] !in "0123456789abcdefABCDEF") ==> Next(s) == Failed(InvalidHex)
    ensures Next(HexLength(3) + part) == Failed(InvalidLength)
    ensures v > 65520 ==> Next(HexLength(v) + part) == Failed(PayloadTooLarge)
    ensures 4 <= v <= 65520 && |part| < v - 4 ==> Next(HexLength(v) + part) == Failed(UnexpectedEof)
  {
    NotHex(s);
    hide HexLength, HexValue, IsHex;
    HexRoundTrip(v);
    HexRoundTrip(3);
    assert (HexLength(v) + part)[..4] == HexLength(v) && (HexLength(3) + part)[..4] == HexLength(3);
  }

  lemma NotHex(s: string)
    ensures |s| >= 4 && (exists i :: 0 <= i < 4 && s[i] !in "0123456789abcdefABCDEF") ==> !IsHex(s[..4])
  {
    if |s| >= 4 && exists i :: 0 <= i < 4 && s[i] !in "0123456789abcdefABCDEF" {
      var i :| 0 <= i < 4 && s[i] !in "0123456789abcdefABCDEF";
      HexDigits(s[i]);
      assert s[..4][i] == s[i];
    }
  }

  lemma HexDigits(c: char)
    ensures DigitValue(c) >= 0 ==> c in "0123456789abcdefABCDEF"
  {
    var digits := "0123456789abcdefABCDEF";
    if '0' <= c <= '9' {
      assert digits[c as int - 48] == c;
    } else if 'a' <= c <= 'f' {
      assert digits[c as int - 87] == c;
    } else if 'A' <= c <= 'F' {
      assert digits[c as int - 49] == c;
    }
  }

  // ---------------------------------------------------------------- the writer

  /** The length of the concatenated parts. */
  method SumLengths(parts: seq<string>) returns (n: nat)
    ensures n == |Join(parts)|
  {
    hide Join;
    n := 0;
    JoinTake(parts, 0);
    for i := 0 to |parts|
      invariant n == |Join(parts[..i])|
    {
      JoinTake(parts, i);
      n := n + |parts[i]|;
    }
    assert parts[..|parts|] == parts;
  }

  class Writer {
    var out: array<char>
    ghost var sent: string
    ghost var Repr: set<object>

    ghost predicate Valid()
      reads this, Repr
    {
      Repr == {this, out}
    }

    constructor ()
      ensures Valid() && fresh(Repr) && sent == []
    {
      out := new char[0];
      sent := [];
      new;
      Repr := {this, out};
    }

    /** The reused scratch, grown when its capacity is short. */
    method Grow(total: nat)
      requires Valid()
      modifies Repr
      ensures Valid() && fresh(Repr - old(Repr)) && out.Length >= total && sent == old(sent)
    {
      if out.Length < total {
        out := new char[total](_ => 'x');
        Repr := {this, out};
      }
    }

    /** The bytes handed to the destination. */
    method Send(total: nat)
      requires Valid() && total <= out.Length
      modifies this`sent
      ensures Valid() && sent == old(sent) + out[..total]
    {
      sent := sent + out[..total];
    }

    /** WritePacket, whatever the scratch held before. */
    method WritePacket(payload: string) returns (ok: bool)
      requires Valid()
      modifies Repr
      ensures Valid() && fresh(Repr - old(Repr))
      ensures ok <==> Fits(Data(payload))
      ensures sent == if ok then old(sent) + Frame(Data(payload)) else old(sent)
    {
      ok := WriteLineParts([payload], false);
      assert Join([payload]) == payload;
    }

    /** WriteLineParts; with newline false it is WritePacket's single copy. */
    method WriteLineParts(parts: seq<string>, newline: bool := true) returns (ok: bool)
      requires Valid()
      modifies Repr
      ensures Valid() && fresh(Repr - old(Repr))
      ensures var payload := Join(parts) + (if newline then "\n" else "");
        && (ok <==> Fits(Data(payload)))
        && sent == if ok then old(sent) + Frame(Data(payload)) else old(sent)
    {
      hide HexLength, Join;
      ghost var payload := Join(parts) + (if newline then "\n" else "");
      var payloadLen := SumLengths(parts);
      if newline {
        payloadLen := payloadLen + 1;
      }
      if payloadLen > MaxPayload {
        return false;
      }
      var total := 4 + payloadLen;
      Grow(total);
      CopyIn(0, HexLength(total));
      CopyParts(4, parts);
      if newline {
        CopyIn(total - 1, "\n");
      }
      assert out[..total] == HexLength(total) + payload;
      Send(total);
      return true;
    }

    /** Each part is copied behind the one before it. */
    method CopyParts(at: nat, parts: seq<string>)
      requires Valid() && at + |Join(parts)| <= out.Length
      modifies out
      ensures out[..at + |Join(parts)|] == old(out[..at]) + Join(parts)
    {
      hide Join;
      var off := at;
      JoinTake(parts, 0);
      for i := 0 to |parts|
        invariant off == at + |Join(parts[..i])| <= out.Length
        invariant out[..off] == old(out[..at]) + Join(parts[..i])
      {
        JoinTake(parts, i);
        JoinLength(parts, i + 1);
        CopyIn(off, parts[i]);
        off := off + |parts[i]|;
      }
      assert parts[..|parts|] == parts;
    }

    method CopyIn(at: nat, s: string)
      requires Valid() && at + |s| <= out.Length
      modifies out
      ensures out[..at + |s|] == old(out[..at]) + s
    {
      for i := 0 to |s|
        invariant out[..at + i] == old(out[..at]) + s[..i]
      {
        out[at + i] := s[i];
        assert out[..at + (i + 1)] == out[..at + i] + [s[i]];
        assert s[..i + 1] == s[..i] + [s[i]];
      }
      assert s[..|s|] == s;
    }
  }

  function Join(parts: seq<string>): (s: string) {
    if parts == [] then [] else Join(parts[..|parts| - 1]) + parts[|parts| - 1]
  }

  lemma JoinTake(parts: seq<string>, i: nat)
    requires i <= |parts|
    ensures Join(parts[..0]) == []
    ensures i < |parts| ==> Join(parts[..i + 1]) == Join(parts[..i]) + parts[i]
  {
    if i == |parts| {
      return;
    }
    assert parts[..i + 1][..i] == parts[..i];
  }

  lemma {:induction false} JoinLength(parts: seq<string>, i: nat)
    requires i <= |parts|
    ensures |Join(parts[..i])| <= |Join(parts)|
    decreases |parts| - i
  {
    if i < |parts| {
      JoinTake(parts, i);
      JoinLength(parts, i + 1);
    } else {
      assert parts[..i] == parts;
    }
  }

  // ---------------------------------------------------------------- the reader

  class Reader {
    const src: string
    var pos: nat
    var buf: array<char>
    ghost var Repr: set<object>

    ghost predicate Valid()
      reads this, Repr
    {
      Repr == {this, buf} && pos <= |src|
    }

    ghost function Unread(): string
      requires Valid()
      reads this, Repr
    {
      src[pos..]
    }

    constructor (src: string)
      ensures Valid() && fresh(Repr) && Unread() == src
    {
      this.src, pos := src, 0;
      buf := new char[0];
      new;
      Repr := {this, buf};
    }

    /** ReadPacket: the payload stays in the reused buffer until the next call. */
    method ReadPacket() returns (r: Read)
      requires Valid()
      modifies Repr
      ensures Valid() && fresh(Repr - old(Repr))
      ensures r == Next(old(Unread()))
      ensures r.Got? ==> Unread() == old(Unread())[r.consumed..]
      ensures r.Got? && r.packet.Data? ==>
        |r.packet.payload| <= buf.Length && buf[..|r.packet.payload|] == r.packet.payload
    {
      hide IsHex, HexValue;
      if pos == |src| {
        return Eof;
      }
      if |src| - pos < 4 {
        return Failed(UnexpectedEof);
      }
      ghost var unread := Unread();
      var hdr := src[pos..pos + 4];
      assert unread[..4] == hdr;
      var v := ParseHexLength(hdr);
      if v < 0 {
        return Failed(InvalidHex);
      }
      pos := pos + 4;
      if v == 0 {
        return Got(Flush, 4);
      } else if v == 1 {
        return Got(Delim, 4);
      } else if v == 2 {
        return Got(ResponseEnd, 4);
      }
      if v < 4 {
        return Failed(InvalidLength);
      }
      var payloadLen := v - 4;
      if payloadLen > MaxPayload {
        return Failed(PayloadTooLarge);
      }
      if |src| - pos < payloadLen {
        return Failed(UnexpectedEof);
      }
      if buf.Length < payloadLen {
        buf := new char[payloadLen](_ => 'x');
        Repr := {this, buf};
      }
      for i := 0 to payloadLen
        invariant Valid() && fresh(Repr - old(Repr)) && pos == old(pos) + 4 && buf.Length >= payloadLen
        invariant buf[..i] == src[pos..pos + i]
      {
        buf[i] := src[pos + i];
      }
      pos := pos + payloadLen;
      assert unread[4..v] == buf[..payloadLen];
      return Got(Data(buf[..payloadLen]), v);
    }

    /** Reading until a failure or the end of the stream. */
    method ReadAll() returns (ps: seq<Packet>, end: Read)
      requires Valid()
      modifies Repr
      ensures Valid() && fresh(Repr - old(Repr)) && (ps, end) == Packets(old(Unread()))
    {
      hide Next;
      ps := [];
      ghost var whole := Unread();
      while true
        invariant Valid() && fresh(Repr - old(Repr))
        invariant Packets(whole).0 == ps + Packets(Unread()).0 && Packets(whole).1 == Packets(Unread()).1
        decreases |src| - pos
      {
        ghost var unread := Unread();
        var r := ReadPacket();
        if !r.Got? {
          assert Packets(unread) == ([], r) && ps + [] == ps;
          return ps, r;
        }
        assert ps + ([r.packet] + Packets(Unread()).0) == ps + [r.packet] + Packets(Unread()).0;
        ps := ps + [r.packet];
      }
    }
  }

  /** The packets a stream holds, and how it ends. */
  ghost function Packets(s: string): (r: (seq<Packet>, Read))
    ensures !r.1.Got?
    decreases |s|
  {
    var r := Next(s);
    if !r.Got? then ([], r)
    else
      var rest := Packets(s[r.consumed..]);
      ([r.packet] + rest.0, rest.1)
  }

  /** Reading back the frames of any packets yields those packets and then the clean end of the stream. */
  lemma {:induction false} FramesReadBack(ps: seq<Packet>)
    requires AllFit(ps)
    ensures Packets(Frames(ps)) == (ps, Eof)
  {
    hide Next, Frame;
    if ps == [] {
      EmptyStream();
      assert Frames(ps) == [];
    } else {
      var rest := Frames(ps[1..]);
      FrameReadsBack(ps[0], rest);
      assert (Frame(ps[0]) + rest)[|Frame(ps[0])|..] == rest;
      FramesReadBack(ps[1..]);
      assert ps == [ps[0]] + ps[1..];
    }
  }

  lemma EmptyStream()
    ensures Next([]) == Eof
  {
  }

  /** A stream of decoded packets, read one at a time; None is the end of the stream. */
  class Inbox {
    const packets: seq<Packet>
    var next: nat

    ghost predicate Valid()
      reads this
    {
      next <= |packets|
    }

    ghost function Rest(): seq<Packet>
      requires Valid()
      reads this
    {
      packets[next..]
    }

    constructor (packets: seq<Packet>)
      ensures Valid() && Rest() == packets
    {
      this.packets, next := packets, 0;
    }

    method ReadPacket() returns (p: Option<Packet>)
      requires Valid()
      modifies this
      ensures Valid()
      ensures p.None? ==> old(Rest()) == [] && Rest() == []
      ensures p.Some? ==> old(Rest()) == [p.value] + Rest()
    {
      if next == |packets| {
        return None;
      }
      p := Some(packets[next]);
      next := next + 1;
    }
  }
}
