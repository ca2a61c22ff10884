/** The dumb-HTTP adapter: an info/refs body read as a v0 advertisement, one buffer at a time. */
module DumbHttp {
  import opened Options
  import opened Pktline
  import opened WireText
  import opened Refs
  import Advertise

  const MaxLine := 65535
  const MaxRefLine := MaxPayload - 2
  const Placeholder := Zeros(40) + " " + ("capabilities^{}" + ['\0']) + "\n"

  datatype Error = MalformedRefLine | RefLineTooLarge

  datatype State = Start | Streaming | Flushing | Done

  predicate IsTrailing(c: char) {
    c == ' ' || c == '\t' || c == '\r'
  }

  // ---------------------------------------------------------------- one line

  datatype RefLine = NoMore | Bad(error: Error) | Record(line: string, rest: string)

  /** nextRefLine: the next line that is neither blank nor a comment. */
  function NextRefLine(body: string): (r: RefLine)
    ensures r.Record? ==> |r.rest| < |body|
    decreases |body|
  {
    match ScanLine(body, MaxLine)
    case NoLine => NoMore
    case LineTooLong => Bad(RefLineTooLarge)
    case Scanned(line, rest) =>
      var raw := TrimRight(IsTrailing, line);
      if raw == "" || raw[0] == '#' then NextRefLine(rest) else Record(raw, rest)
  }

  datatype Split = Fields(oid: string, name: string) | Malformed(error: Error)

  function FirstBlank(s: string, from: nat): (n: nat)
    requires from <= |s|
    ensures from <= n <= |s|
    decreases |s| - from
  {
    if from == |s| || s[from] == ' ' || s[from] == '\t' then from else FirstBlank(s, from + 1)
  }

  /** splitOIDAndName and the size cap of splitRefLine. */
  function SplitRefLine(line: string): Split {
    var n := FirstBlank(line, 0);
    var parts :=
      match Cut(line, '\t')
      case Some(p) => Some(p)
      case None => if n == |line| then None else Some((line[..n], line[n + 1..]));
    match parts
    case None => Malformed(MalformedRefLine)
    case Some(p) =>
      var oid, name := TrimSpace(p.0), TrimSpace(p.1);
      if oid == "" || name == "" then Malformed(MalformedRefLine)
      else if |oid| + 1 + |name| > MaxRefLine then Malformed(RefLineTooLarge)
      else Fields(oid, name)
  }

  // ---------------------------------------------------------------- the synthesised stream

  /** The packets the adapter makes of a body, and the error it stops with, if any. */
  function Synthesised(body: string, st: State): (r: (seq<Packet>, Option<Error>))
    requires st == Start || st == Streaming
    ensures AllFit(r.0)
    decreases |body|
  {
    match NextRefLine(body)
    case Bad(e) => ([], Some(e))
    case NoMore => (if st == Start then [Data(Placeholder), Flush] else [Flush], None)
    case Record(line, rest) =>
      match SplitRefLine(line)
      case Malformed(e) => ([], Some(e))
      case Fields(oid, name) =>
        var p := Data(oid + " " + name + (if st == Start then ['\0'] else "") + "\n");
        var more := Synthesised(rest, Streaming);
        ([p] + more.0, more.1)
  }

  datatype Remaining = Remaining(data: string, error: Option<Error>)

  /** The bytes still to be read in each state, and how the stream ends. */
  ghost function Output(st: State, rest: string): Remaining {
    match st
    case Done => Remaining("", None)
    case Flushing => Remaining("0000", None)
    case _ => var ps := Synthesised(rest, st); Remaining(Frames(ps.0), ps.1)
  }

  datatype ReadResult = Bytes(chunk: string) | AtEof | Stopped(error: Error)

  class Synth {
    var body: string
    var pending: string
    var st: State
    var firstErr: Option<Error>

    /** The scanner's error is kept for later reads. */
    ghost predicate Valid()
      reads this
    {
      firstErr.Some? ==> NextRefLine(body) == Bad(firstErr.value)
    }

    ghost function Left(): Remaining
      reads this
    {
      var out := Output(st, body);
      Remaining(pending + out.data, out.error)
    }

    constructor (body: string)
      ensures Valid() && Left() == Output(Start, body)
    {
      this.body, pending, st, firstErr := body, "", Start, None;
    }

    /** nextRefLine. */
    method ReadLine() returns (r: RefLine)
      requires Valid()
      modifies this`body, this`firstErr
      ensures Valid() && r == NextRefLine(old(body))
      ensures r.Record? ==> body == r.rest
    {
      if firstErr.Some? {
        return Bad(firstErr.value);
      }
      ghost var whole := body;
      while true
        invariant NextRefLine(body) == NextRefLine(whole)
        invariant firstErr == None
        decreases |body|
      {
        match ScanLine(body, MaxLine) {
          case NoLine => return NoMore;
          case LineTooLong =>
            firstErr := Some(RefLineTooLarge);
            return Bad(RefLineTooLarge);
          case Scanned(line, rest) =>
            body := rest;
            var raw := TrimRight(IsTrailing, line);
            if raw != "" && raw[0] != '#' {
              return Record(raw, rest);
            }
        }
      }
    }

    /** fillFirst and fillNext: the next packet goes to pending, or the state moves on. */
    method Fill() returns (e: Option<Error>)
      requires Valid() && pending == "" && (st == Start || st == Streaming)
      modifies this
      ensures Valid()
      ensures e == None ==> Left() == old(Left())
      ensures e == None ==> st == Flushing || (st == Streaming && |body| < |old(body)|)
      ensures e.Some? ==> old(Left()) == Remaining("", e)
    {
      hide NextRefLine, SplitRefLine, Frame;
      var r := ReadLine();
      match r {
        case Bad(error) => return Some(error);
        case NoMore =>
          if st == Start {
            pending := EncodePktLine(Placeholder);
            assert Frames([Data(Placeholder), Flush]) == pending + "0000" by { TwoFrames(Data(Placeholder)); }
          } else {
            assert Frames([Flush]) == "0000" by { FlushFrame(); }
          }
          st := Flushing;
          return None;
        case Record(line, rest) =>
          var split := SplitRefLine(line);
          if split.Malformed? {
            return Some(split.error);
          }
          var payload := split.oid + " " + split.name + (if st == Start then ['\0'] else "") + "\n";
          assert |payload| <= MaxPayload by { SplitFits(line); }
          ghost var more := Synthesised(rest, Streaming);
          assert ([Data(payload)] + more.0)[1..] == more.0;
          pending := EncodePktLine(payload);
          st := Streaming;
          return None;
      }
    }

    /** Read: whatever size the caller's buffer has, it gets the next bytes of the one stream. */
    method Read(size: nat) returns (r: ReadResult)
      requires Valid()
      modifies this
      ensures Valid()
      ensures r.Bytes? ==> |r.chunk| <= size && (size > 0 ==> r.chunk != "")
      ensures r.Bytes? ==> old(Left()) == Remaining(r.chunk + Left().data, Left().error)
      ensures r.AtEof? ==> old(Left()) == Remaining("", None) && Left() == old(Left())
      ensures r.Stopped? ==> old(Left()) == Remaining("", Some(r.error))
    {
      hide Synthesised;
      while true
        invariant Valid() && Left() == old(Left())
        decreases |pending| == 0, match st case Start => 3 case Streaming => 2 case Flushing => 1 case Done => 0, |body|
      {
        if |pending| > 0 {
          var n := if size < |pending| then size else |pending|;
          var chunk := pending[..n];
          assert pending + Output(st, body).data == chunk + (pending[n..] + Output(st, body).data);
          pending := pending[n..];
          return Bytes(chunk);
        }
        match st {
          case Done => return AtEof;
          case Flushing =>
            pending := "0000";
            st := Done;
          case _ =>
            var e := Fill();
            if e.Some? {
              return Stopped(e.value);
            }
        }
      }
    }

    /** Reading with any buffer sizes until the first end or error. */
    method ReadSizes(sizes: seq<nat>) returns (data: string, last: ReadResult)
      requires Valid()
      modifies this
      ensures Valid() && data <= old(Left()).data
      ensures last.AtEof? ==> old(Left()) == Remaining(data, None)
      ensures last.Stopped? ==> old(Left()) == Remaining(data, Some(last.error))
      ensures last.Bytes? ==> old(Left()) == Remaining(data + Left().data, Left().error)
    {
      hide Output, Valid;
      data, last := "", Bytes("");
      assert "" + Left().data == Left().data;
      for i := 0 to |sizes|
        invariant Valid() && last.Bytes? && old(Left()) == Remaining(data + Left().data, Left().error)
      {
        ghost var before := Left();
        var r := Read(sizes[i]);
        match r {
          case Bytes(chunk) =>
            assert data + (chunk + Left().data) == data + chunk + Left().data;
            data := data + chunk;
          case _ =>
            assert data + "" == data;
            return data, r;
        }
      }
    }
  }

  /** encodePktLine. */
  method EncodePktLine(payload: string) returns (frame: string)
    requires |payload| <= MaxPayload
    ensures frame == Frame(Data(payload)) && frame != ""
  {
    frame := HexLength(4 + |payload|) + payload;
  }

  lemma SplitFits(line: string)
    ensures var s := SplitRefLine(line); s.Fields? ==> |s.oid| + 1 + |s.name| + 2 <= MaxPayload
  {
  }

  lemma FlushFrame()
    ensures Frames([Flush]) == "0000"
  {
    assert [Flush][1..] == [];
  }

  lemma TwoFrames(p: Packet)
    requires Fits(p)
    ensures Frames([p, Flush]) == Frame(p) + "0000"
  {
    assert [p, Flush][1..] == [Flush];
    FlushFrame();
  }

  // ---------------------------------------------------------------- what the client sees

  /** The info/refs body git writes: a line per ref, and one more for its peel. */
  function Body(refs: seq<RefEntry>): string {
    if refs == [] then ""
    else
      var r := refs[0];
      r.oid + "\t" + r.name + "\n"
      + (if r.peeled == "" then "" else r.peeled + "\t" + r.name + "^{}" + "\n") + Body(refs[1..])
  }

  ghost predicate Short(r: RefEntry) {
    |r.oid| + |r.name| + 4 <= MaxRefLine && |r.peeled| + |r.name| + 4 <= MaxRefLine
  }

  const NoHead := Head("0", "", true)

  lemma TrimNothing(s: string)
    requires s != "" && !IsSpace(s[0]) && !IsSpace(s[|s| - 1])
    ensures TrimSpace(s) == s && TrimRight(IsTrailing, s) == s
  {
  }

  /** A tab-separated record is read as its two fields. */
  lemma {:induction false} RecordReads(oid: string, name: string, rest: string)
    requires IsOid(oid) && name != "" && FreeOf(IsSpace, name) && |oid| + 1 + |name| <= MaxRefLine
    ensures NextRefLine(oid + "\t" + name + "\n" + rest) == Record(oid + "\t" + name, rest)
    ensures SplitRefLine(oid + "\t" + name) == Fields(oid, name)
  {
    var line := oid + "\t" + name;
    assert line[0] == oid[0] && line[|line| - 1] == name[|name| - 1];
    assert '\n' !in line;
    ScanFirst(line, rest, MaxLine);
    TrimNothing(line);
    TrimNothing(oid);
    TrimNothing(name);
    assert line == oid + ['\t'] + name;
    CutFirst(oid, '\t', name);
  }

  lemma RecordPacket(oid: string, name: string, rest: string, st: State)
    requires IsOid(oid) && name != "" && FreeOf(IsSpace, name) && |oid| + 1 + |name| <= MaxRefLine
    requires st == Start || st == Streaming
    ensures Synthesised(oid + "\t" + name + "\n" + rest, st) ==
      ([PacketOf(oid, name, st)] + Synthesised(rest, Streaming).0, Synthesised(rest, Streaming).1)
  {
    hide NextRefLine, SplitRefLine;
    RecordReads(oid, name, rest);
  }

  /** The adapter's packets for a well-formed body are the v0 advertisement of its refs without capabilities. */
  lemma {:induction false} BodyPackets(refs: seq<RefEntry>, st: State)
    requires st == Start || st == Streaming
    requires forall i :: 0 <= i < |refs| ==> GoodRef(refs[i]) && Short(refs[i])
    ensures Synthesised(Body(refs), st) ==
      (if st == Start then Advertise.Advert(NoHead, "", 40, refs) else Advertise.RefLines(refs) + [Flush], None)
    decreases |refs|
  {
    hide Synthesised;
    if refs == [] {
      assert refs == [];
      EmptyBody(st);
    } else {
      var r := refs[0];
      var tail := Body(refs[1..]);
      var peel := if r.peeled == "" then "" else r.peeled + "\t" + r.name + "^{}" + "\n";
      assert GoodRef(r) && Short(r);
      assert FreeOf(IsSpace, r.name) && FreeOf(IsSpace, r.name + "^{}");
      assert Body(refs) == r.oid + "\t" + r.name + "\n" + (peel + tail);
      RecordPacket(r.oid, r.name, peel + tail, st);
      BodyPackets(refs[1..], Streaming);
      hide GoodRef, Body, Advertise.RefLines, Advertise.Advert, Advertise.PeelLines, PacketOf, Frame;
      PeelPackets(r, tail);
      AdvertStep(refs, st);
      assert [PacketOf(r.oid, r.name, st)] + Synthesised(peel + tail, Streaming).0
        == [PacketOf(r.oid, r.name, st)] + (Advertise.PeelLines(r) + (Advertise.RefLines(refs[1..]) + [Flush]));
    }
  }

  /** The advertisement starts with the packets of its first ref. */
  lemma AdvertStep(refs: seq<RefEntry>, st: State)
    requires refs != []
    ensures (if st == Start then Advertise.Advert(NoHead, "", 40, refs) else Advertise.RefLines(refs) + [Flush]) ==
      [PacketOf(refs[0].oid, refs[0].name, st)] +
        (Advertise.PeelLines(refs[0]) + (Advertise.RefLines(refs[1..]) + [Flush]))
  {
    hide Advertise.RefPackets, Advertise.PeelLines, PacketOf;
    RefPacket(refs[0], st);
    var after := Advertise.RefLines(refs[1..]);
    Advertise.Reassociate(PacketOf(refs[0].oid, refs[0].name, st), Advertise.PeelLines(refs[0]), after);
  }

  function PacketOf(oid: string, name: string, st: State): Packet {
    Data(oid + " " + name + (if st == Start then ['\0'] else "") + "\n")
  }

  lemma {:induction false} PeelPackets(r: RefEntry, tail: string)
    requires GoodRef(r) && Short(r)
    ensures Synthesised((if r.peeled == "" then "" else r.peeled + "\t" + r.name + "^{}" + "\n") + tail, Streaming) ==
      (Advertise.PeelLines(r) + Synthesised(tail, Streaming).0, Synthesised(tail, Streaming).1)
  {
    hide Synthesised;
    if r.peeled == "" {
      assert "" + tail == tail && [] + Synthesised(tail, Streaming).0 == Synthesised(tail, Streaming).0;
    } else {
      assert r.peeled + "\t" + r.name + "^{}" + "\n" + tail == r.peeled + "\t" + (r.name + "^{}") + "\n" + tail;
      RecordPacket(r.peeled, r.name + "^{}", tail, Streaming);
      assert r.peeled + " " + (r.name + "^{}") + "" + "\n" == r.peeled + " " + r.name + "^{}" + "\n";
    }
  }

  lemma EmptyBody(st: State)
    requires st == Start || st == Streaming
    ensures Synthesised("", st) ==
      (if st == Start then Advertise.Advert(NoHead, "", 40, []) else Advertise.RefLines([]) + [Flush], None)
  {
    hide Zeros;
    assert Zeros(40) + " " + ("capabilities^{}" + ['\0']) + "\n" ==
      Zeros(40) + " " + ("capabilities^{}" + ['\0'] + "") + "\n";
    assert Advertise.RefLines([]) + [Flush] == [Flush];
  }

  lemma RefPacket(r: RefEntry, st: State)
    ensures Advertise.RefPackets(r, if st == Start then Some("") else None) ==
      [PacketOf(r.oid, r.name, st)] + Advertise.PeelLines(r)
  {
    if st == Start {
      assert r.oid + " " + r.name + ['\0'] + "\n" == r.oid + " " + (r.name + ['\0'] + "") + "\n";
    } else {
      assert r.oid + " " + r.name + "" + "\n" == r.oid + " " + r.name + "\n";
    }
  }

  /**
   However the body is read, the client's parser finds version 0, no capabilities, and exactly the body's
   refs with their peels.
   */
  lemma {:induction false} DumbRoundTrip(refs: seq<RefEntry>)
    requires forall i :: 0 <= i < |refs| ==> GoodRef(refs[i]) && Short(refs[i])
    ensures Output(Start, Body(refs)).error == None
    ensures Pktline.Packets(Output(Start, Body(refs)).data).1 == Pktline.Eof
    ensures Advertise.Parse(Pktline.Packets(Output(Start, Body(refs)).data).0) ==
      Advertise.Ok(Advertise.Advertisement(Advertise.V0, [], Advertise.RawAll(refs)))
  {
    hide Body, Synthesised, Frames, Pktline.Packets, Advertise.Parse, Advertise.Advert, GoodRef, AllFit;
    BodyPackets(refs, Start);
    FramesReadBack(Synthesised(Body(refs), Start).0);
    hide Advertise.ApplySymrefs;
    Advertise.AdvertParses(NoHead, "", 40, refs);
    assert Advertise.Seen(NoHead, refs) == Advertise.RawAll(refs);
    assert Advertise.ApplySymrefs(Advertise.RawAll(refs), []) == Advertise.RawAll(refs) by { NoSymrefs(refs); }
  }

  lemma NoSymrefs(refs: seq<RefEntry>)
    ensures Advertise.ApplySymrefs(Advertise.RawAll(refs), []) == Advertise.RawAll(refs)
  {
  }

  // ---------------------------------------------------------------- lines of every other kind

  lemma {:induction false} FirstBlankIs(s: string, from: nat, n: nat)
    requires from <= n <= |s| && (forall i :: from <= i < n ==> s[i] != ' ' && s[i] != '\t')
    requires n < |s| ==> s[n] == ' ' || s[n] == '\t'
    ensures FirstBlank(s, from) == n
    decreases n - from
  {
    if from < n {
      FirstBlankIs(s, from + 1, n);
    }
  }

  /** A tab or a space stands between id and name; one field alone is malformed, and too long a line is refused. */
  lemma {:induction false} SplitsLines(id: string, name: string)
    requires IsToken(IsSpace, id) && IsToken(IsSpace, name)
    ensures SplitRefLine(id + "\t" + name) == SplitRefLine(id + " " + name) ==
      if |id| + 1 + |name| > 65514 then Malformed(RefLineTooLarge) else Fields(id, name)
    ensures SplitRefLine(id) == Malformed(MalformedRefLine)
  {
    hide TrimSpace, Cut;
    var tabbed, spaced := id + "\t" + name, id + " " + name;
    TokenTrims(id);
    TokenTrims(name);
    assert tabbed == id + ['\t'] + name;
    CutFirst(id, '\t', name);
    FirstBlankIs(tabbed, 0, |id|);
    FirstBlankIs(spaced, 0, |id|);
    FirstBlankIs(id, 0, |id|);
    assert '\t' !in spaced && '\t' !in id;
    assert spaced[..|id|] == id && spaced[|id| + 1..] == name;
  }

  lemma TokenTrims(s: string)
    requires IsToken(IsSpace, s)
    ensures TrimSpace(s) == s && TrimRight(IsTrailing, s) == s
  {
    TrimNothing(s);
  }

  lemma NextLine(line: string, rest: string)
    requires '\n' !in line && |line| <= 65535 && (line == "" || !IsTrailing(line[|line| - 1]))
    ensures NextRefLine(line + "\n" + rest) ==
      if line == "" || line[0] == '#' then NextRefLine(rest) else Record(line, rest)
  {
    ScanFirst(line, rest, MaxLine);
    NotTrailing(line);
    hide TrimRight, ScanLine;
  }

  /** Blank lines, with or without a carriage return, and comments leave no packet. */
  lemma {:induction false} PassedOver(comment: string, rest: string, st: State)
    requires st == Start || st == Streaming
    requires '\n' !in comment && |comment| + 2 <= 65535
    ensures Synthesised("\n" + rest, st) == Synthesised("\r\n" + rest, st) == Synthesised(rest, st)
    ensures Synthesised("#" + comment + "." + "\n" + rest, st) == Synthesised(rest, st)
  {
    hide Synthesised, NextRefLine;
    BlankLines(rest);
    var line := "#" + comment + ".";
    assert line[|line| - 1] == '.' && '\n' !in line && line[0] == '#';
    NextLine(line, rest);
    SameLines("\n" + rest, rest, st);
    SameLines("\r\n" + rest, rest, st);
    SameLines(line + "\n" + rest, rest, st);
  }

  lemma NotTrailing(line: string)
    requires line == "" || !IsTrailing(line[|line| - 1])
    ensures TrimRight(IsTrailing, line) == line
  {
  }

  lemma SameLines(a: string, b: string, st: State)
    requires (st == Start || st == Streaming) && NextRefLine(a) == NextRefLine(b)
    ensures Synthesised(a, st) == Synthesised(b, st)
  {
    hide NextRefLine, SplitRefLine;
  }

  lemma BlankLines(rest: string)
    ensures NextRefLine("\n" + rest) == NextRefLine("\r\n" + rest) == NextRefLine(rest)
  {
    ScanFirst("", rest, MaxLine);
    assert "" + "\n" + rest == "\n" + rest;
    assert "\r\n" + rest == "\r" + ['\n'] + rest;
    CutFirst("\r", '\n', rest);
    assert "\r"[..0] == "";
  }

  /** The scanner's limit of 64 KiB is refused like the adapter's own. */
  lemma {:induction false} LongLine(line: string, rest: string, st: State)
    requires '\n' !in line && |line| > 65535 && (st == Start || st == Streaming)
    ensures Synthesised(line + "\n" + rest, st) == ([], Some(RefLineTooLarge))
  {
    assert line + "\n" + rest == line + ['\n'] + rest;
    CutFirst(line, '\n', rest);
  }

  /** A line of one field stops the stream, behind the packets of the lines before it. */
  lemma {:induction false} BadLine(word: string, oid: string, name: string, rest: string, st: State)
    requires IsToken(IsSpace, word) && word[0] != '#' && |word| <= 65535 && (st == Start || st == Streaming)
    requires IsOid(oid) && IsToken(IsSpace, name) && |oid| + 1 + |name| <= 65514
    ensures Synthesised(word + "\n" + rest, st) == ([], Some(MalformedRefLine))
    ensures Synthesised(oid + "\t" + name + "\n" + (word + "\n" + rest), st) ==
      ([Data(oid + " " + name + (if st == Start then "\0" else "") + "\n")], Some(MalformedRefLine))
  {
    hide SplitRefLine, NextRefLine, Frame;
    assert '\n' !in word && !IsTrailing(word[|word| - 1]);
    NextLine(word, rest);
    SplitsLines(word, word);
    StopsAt(word + "\n" + rest, word, rest, st);
    StopsAt(word + "\n" + rest, word, rest, Streaming);
    hide Synthesised;
    RecordPacket(oid, name, word + "\n" + rest, st);
    assert [PacketOf(oid, name, st)] + [] == [PacketOf(oid, name, st)];
  }

  lemma StopsAt(body: string, line: string, rest: string, st: State)
    requires st == Start || st == Streaming
    requires NextRefLine(body) == Record(line, rest) && SplitRefLine(line).Malformed?
    ensures Synthesised(body, st) == ([], Some(SplitRefLine(line).error))
  {
    hide SplitRefLine, NextRefLine;
  }
}
