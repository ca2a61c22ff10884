/** The v0 advertisement: what the server writes for its refs, and what the client's parser makes of it. */
module Advertise {
  import opened Options
  import opened Pktline
  import opened WireText
  import opened Refs
  import opened Request

  // ---------------------------------------------------------------- the server's side

  /** buildV0Caps, token by token. */
  function CapTokens(head: Head, algo: string, agent: string): (ts: seq<string>) {
    (if head.symref != "" then ["symref=HEAD:" + head.symref] else []) + ["object-format=" + algo, "agent=" + agent]
  }

  predicate HeadValid(head: Head) {
    !head.unborn && (head.symref != "" || !IsZero(head.oid))
  }

  function PeelLines(r: RefEntry): seq<Packet> {
    if r.peeled == "" then [] else [Line(r.peeled + " " + r.name + "^{}")]
  }

  function FirstLine(oid: string, name: string, caps: string): Packet {
    Line(oid + " " + (name + ['\0'] + caps))
  }

  /** What one ref puts on the wire, with the capabilities when it comes first. */
  function RefPackets(r: RefEntry, caps: Option<string>): seq<Packet> {
    [if caps.Some? then FirstLine(r.oid, r.name, caps.value) else Line(r.oid + " " + r.name)] + PeelLines(r)
  }

  function RefLines(refs: seq<RefEntry>): (ps: seq<Packet>) {
    if refs == [] then [] else RefPackets(refs[0], None) + RefLines(refs[1..])
  }

  /** The packets of the advertisement of sorted refs; n is the length of an id in hex. */
  function Advert(head: Head, caps: string, n: nat, refs: seq<RefEntry>): (ps: seq<Packet>)
    ensures |ps| >= 2
  {
    if HeadValid(head) then [FirstLine(head.oid, "HEAD", caps)] + (RefLines(refs) + [Flush])
    else if refs == [] then [FirstLine(Zeros(n), "capabilities^{}", caps), Flush]
    else RefPackets(refs[0], Some(caps)) + (RefLines(refs[1..]) + [Flush])
  }

  /** Writes packets until one does not fit. */
  method Emit(out: seq<Packet>, ps: seq<Packet>) returns (ok: bool, more: seq<Packet>)
    ensures ok <==> AllFit(ps)
    ensures out <= more <= out + ps && (ok ==> more == out + ps) && (!ok ==> |more| < |out| + |ps|)
  {
    more := out;
    for i := 0 to |ps|
      invariant more == out + ps[..i] && forall k :: 0 <= k < i ==> Fits(ps[k])
    {
      if !Fits(ps[i]) {
        return false, more;
      }
      assert ps[..i + 1] == ps[..i] + [ps[i]];
      more := more + [ps[i]];
    }
    assert ps[..|ps|] == ps;
    return true, more;
  }

  lemma FitsSplit(a: seq<Packet>, b: seq<Packet>)
    ensures AllFit(a + b) <==> AllFit(a) && AllFit(b)
  {
    hide Fits;
    if AllFit(a + b) {
      assert forall i :: 0 <= i < |a| ==> a[i] == (a + b)[i];
      assert forall i :: 0 <= i < |b| ==> b[i] == (a + b)[|a| + i];
    }
  }

  /** writeV0Advertisement: the advertisement of the sorted refs, unless some line does not fit. */
  method WriteV0(head: Head, algo: string, agent: string, n: nat, refs: seq<RefEntry>)
    returns (ok: bool, out: seq<Packet>)
    ensures exists sorted ::
      Sorts(sorted, refs) && SendsOf(Advert(head, Spaced(CapTokens(head, algo, agent)), n, sorted), ok, out)
  {
    hide Sorts, AllFit, Fits, Spaced, CapTokens, RefPackets, FirstLine;
    var caps := Spaced(CapTokens(head, algo, agent));
    var byName := SortByName(refs);
    ghost var whole := Advert(head, caps, n, byName);
    if !HeadValid(head) && |byName| == 0 {
      ok, out := Emit([], [FirstLine(Zeros(n), "capabilities^{}", caps), Flush]);
      return;
    }
    var capsEmitted := false;
    ok, out := true, [];
    NothingFits();
    if HeadValid(head) {
      ok, out := Emit([], [FirstLine(head.oid, "HEAD", caps)]);
      FitsSplit([FirstLine(head.oid, "HEAD", caps)], RefLines(byName) + [Flush]);
      if !ok {
        return;
      }
      assert out == [FirstLine(head.oid, "HEAD", caps)];
      capsEmitted := true;
    }
    assert byName[0..] == byName;
    for i := 0 to |byName|
      invariant capsEmitted <==> HeadValid(head) || i > 0
      invariant ok && AllFit(out)
      invariant capsEmitted ==> whole == out + (RefLines(byName[i..]) + [Flush])
      invariant !capsEmitted ==> out == []
    {
      var ps := RefPackets(byName[i], if capsEmitted then None else Some(caps));
      Peels(byName, i, out, ps, whole, capsEmitted, head, caps, n);
      FitsSplit(out + ps, RefLines(byName[i + 1..]) + [Flush]);
      FitsSplit(out, ps);
      ok, out := Emit(out, ps);
      if !ok {
        return;
      }
      capsEmitted := true;
    }
    FitsSplit(out, [Flush]);
    assert RefLines(byName[|byName|..]) + [Flush] == [Flush];
    ok, out := Emit(out, [Flush]);
  }

  /** The next ref's packets are the next packets of the advertisement. */
  lemma Peels(refs: seq<RefEntry>, i: nat, out: seq<Packet>, ps: seq<Packet>, whole: seq<Packet>, capsEmitted: bool,
              head: Head, caps: string, n: nat)
    requires i < |refs| && whole == Advert(head, caps, n, refs) && (capsEmitted <==> HeadValid(head) || i > 0)
    requires capsEmitted ==> whole == out + (RefLines(refs[i..]) + [Flush])
    requires !capsEmitted ==> out == []
    requires ps == RefPackets(refs[i], if capsEmitted then None else Some(caps))
    ensures whole == out + ps + (RefLines(refs[i + 1..]) + [Flush])
  {
    hide RefPackets, FirstLine;
    assert refs[i..][0] == refs[i] && refs[i..][1..] == refs[i + 1..];
    if capsEmitted {
      assert RefLines(refs[i..]) == ps + RefLines(refs[i + 1..]);
      assert out + ((ps + RefLines(refs[i + 1..])) + [Flush]) == out + ps + (RefLines(refs[i + 1..]) + [Flush]);
    } else {
      assert out + ps == ps;
    }
  }

  lemma NothingFits()
    ensures AllFit([])
  {
  }

  // ---------------------------------------------------------------- the client's side

  datatype Error = Truncated | UnexpectedControl | Malformed | PeelMismatch | UnsupportedProtocol

  datatype Result<+T> = Ok(value: T) | Bad(error: Error)

  datatype Version = V0 | V1 | V2

  datatype Advertisement = Advertisement(version: Version, caps: seq<Capability>, refs: seq<RawRef>)

  function ParseCap(tok: string): Capability {
    match Cut(tok, '=')
    case Some(p) => Capability(p.0, p.1)
    case None => Capability(tok, "")
  }

  function ParseCaps(s: string): (caps: seq<Capability>)
    ensures |caps| == |Fields(IsWireSpace, s)|
    ensures forall i :: 0 <= i < |caps| ==> caps[i] == ParseCap(Fields(IsWireSpace, s)[i])
  {
    var ts := Fields(IsWireSpace, s);
    seq(|ts|, i requires 0 <= i < |ts| => ParseCap(ts[i]))
  }

  /** parseFirstRefLine: the capabilities and, unless it is the empty repository's placeholder, a ref. */
  function ParseFirst(payload: string): Result<(seq<Capability>, seq<RawRef>)> {
    match Cut(TrimLf(payload), ' ')
    case None => Bad(Malformed)
    case Some(p) =>
      match Cut(p.1, '\0')
      case None => Bad(Malformed)
      case Some(q) =>
        if q.0 == "capabilities^{}" && IsZero(p.0) then Ok((ParseCaps(q.1), []))
        else if HasSuffix(q.0, "^{}") then Bad(Malformed)
        else Ok((ParseCaps(q.1), [RawRef(p.0, q.0, "", "", false)]))
  }

  /** One later line, given the refs so far. */
  function ParseLine(refs: seq<RawRef>, payload: string): Result<seq<RawRef>> {
    var line := TrimLf(payload);
    if "shallow " <= line then Ok(refs)
    else
      match Cut(line, ' ')
      case None => Bad(Malformed)
      case Some(p) =>
        match CutSuffix(p.1, "^{}")
        case None => Ok(refs + [RawRef(p.0, p.1, "", "", false)])
        case Some(name) =>
          if refs == [] || refs[|refs| - 1].name != name || refs[|refs| - 1].peeled != "" then Bad(PeelMismatch)
          else Ok(refs[|refs| - 1 := refs[|refs| - 1].(peeled := p.0)])
  }

  function ParseLines(refs: seq<RawRef>, ps: seq<Packet>): Result<seq<RawRef>>
    decreases |ps|
  {
    if ps == [] then Bad(Truncated)
    else match ps[0]
         case Flush => Ok(refs)
         case Data(payload) =>
           (match ParseLine(refs, payload)
            case Bad(e) => Bad(e)
            case Ok(more) => ParseLines(more, ps[1..]))
         case _ => Bad(UnexpectedControl)
  }

  /** The target goes to the first ref of that name. */
  function SetSymref(refs: seq<RawRef>, name: string, target: string): (out: seq<RawRef>)
    ensures |out| == |refs|
  {
    if refs == [] then []
    else if refs[0].name == name then [refs[0].(symref := target)] + refs[1..]
    else [refs[0]] + SetSymref(refs[1..], name, target)
  }

  function ApplySymrefs(refs: seq<RawRef>, caps: seq<Capability>): (out: seq<RawRef>)
    ensures |out| == |refs|
    decreases |caps|
  {
    if caps == [] then refs
    else
      match Cut(caps[0].value, ':')
      case Some(p) =>
        ApplySymrefs(if caps[0].name == "symref" && p.0 != "" && p.1 != "" then SetSymref(refs, p.0, p.1) else refs,
                     caps[1..])
      case None => ApplySymrefs(refs, caps[1..])
  }

  function ParseV0(first: string, ps: seq<Packet>, version: Version): Result<Advertisement> {
    match ParseFirst(first)
    case Bad(e) => Bad(e)
    case Ok(f) =>
      match ParseLines(f.1, ps)
      case Bad(e) => Bad(e)
      case Ok(refs) => Ok(Advertisement(version, f.0, ApplySymrefs(refs, f.0)))
  }

  function V2Caps(caps: seq<Capability>, ps: seq<Packet>): Result<seq<Capability>>
    decreases |ps|
  {
    if ps == [] then Bad(Truncated)
    else match ps[0]
         case Flush => Ok(caps)
         case Data(payload) => V2Caps(caps + ParseCaps(TrimLf(payload)), ps[1..])
         case _ => Bad(UnexpectedControl)
  }

  /** What the packets of an advertisement say. */
  function Parse(ps: seq<Packet>): Result<Advertisement> {
    if ps == [] then Bad(Truncated)
    else if !ps[0].Data? then Ok(Advertisement(V0, [], []))
    else
      match CutPrefix(TrimLf(ps[0].payload), "version ")
      case None => ParseV0(ps[0].payload, ps[1..], V0)
      case Some(rest) =>
        if rest == "2" then
          (match V2Caps([], ps[1..])
           case Bad(e) => Bad(e)
           case Ok(caps) => Ok(Advertisement(V2, caps, [])))
        else if rest == "1" then
          if |ps| < 2 then Bad(Truncated)
          else ParseV0(if ps[1].Data? then ps[1].payload else "", ps[2..], V1)
        else Bad(UnsupportedProtocol)
  }

  // ---------------------------------------------------------------- the parsers in place

  /** applySymrefs: the refs are written through their slice. */
  method AnnotateSymrefs(refs: array<RawRef>, caps: seq<Capability>)
    modifies refs
    ensures refs[..] == ApplySymrefs(old(refs[..]), caps)
  {
    ghost var want := ApplySymrefs(refs[..], caps);
    for c := 0 to |caps|
      invariant ApplySymrefs(refs[..], caps[c..]) == want
    {
      assert caps[c..][0] == caps[c] && caps[c..][1..] == caps[c + 1..];
      if caps[c].name == "symref" {
        var cut := Cut(caps[c].value, ':');
        if cut.Some? && cut.value.0 != "" && cut.value.1 != "" {
          AnnotateFirst(refs, cut.value.0, cut.value.1);
        }
      }
    }
    assert caps[|caps|..] == [];
  }

  method AnnotateFirst(refs: array<RawRef>, name: string, target: string)
    modifies refs
    ensures refs[..] == SetSymref(old(refs[..]), name, target)
  {
    hide SetSymref;
    ghost var was := refs[..];
    for i := 0 to refs.Length
      invariant refs[..] == was
      invariant forall k :: 0 <= k < i ==> refs[k].name != name
    {
      if refs[i].name == name {
        SetSymrefAt(was, i, name, target);
        refs[i] := refs[i].(symref := target);
        assert refs[..] == was[i := was[i].(symref := target)];
        return;
      }
    }
    SetSymrefAt(was, |was|, name, target);
  }

  /** SetSymref in terms of the first position of name, if there is one. */
  lemma {:induction false} SetSymrefAt(refs: seq<RawRef>, i: nat, name: string, target: string)
    requires i <= |refs| && (forall k :: 0 <= k < i ==> refs[k].name != name)
    ensures i == |refs| ==> SetSymref(refs, name, target) == refs
    ensures i < |refs| && refs[i].name == name ==>
      SetSymref(refs, name, target) == refs[i := refs[i].(symref := target)]
    decreases |refs|
  {
    if refs != [] {
      assert refs == [refs[0]] + refs[1..];
      if i > 0 {
        SetSymrefAt(refs[1..], i - 1, name, target);
      }
    }
  }

  /** parseV0Advertisement. */
  method ReadV0(first: string, r: Inbox, version: Version) returns (ad: Result<Advertisement>)
    requires r.Valid()
    modifies r
    ensures r.Valid() && ad == ParseV0(first, old(r.Rest()), version)
  {
    hide ParseFirst, ParseLine, ApplySymrefs;
    var head := ParseFirst(first);
    if head.Bad? {
      return Bad(head.error);
    }
    var caps, refs := head.value.0, head.value.1;
    ghost var want := ParseLines(refs, r.Rest());
    while true
      invariant r.Valid() && ParseLines(refs, r.Rest()) == want
      decreases |r.Rest()|
    {
      ghost var before := r.Rest();
      var p := r.ReadPacket();
      if p == None {
        return Bad(Truncated);
      }
      assert before[0] == p.value && before[1..] == r.Rest();
      match p.value {
        case Flush => break;
        case Data(payload) =>
          var more := ParseLine(refs, payload);
          if more.Bad? {
            return Bad(more.error);
          }
          refs := more.value;
        case _ => return Bad(UnexpectedControl);
      }
    }
    var slice := new RawRef[|refs|](i requires 0 <= i < |refs| => refs[i]);
    assert slice[..] == refs;
    AnnotateSymrefs(slice, caps);
    return Ok(Advertisement(version, caps, slice[..]));
  }

  /** readV2Capabilities. */
  method ReadV2Capabilities(r: Inbox) returns (caps: Result<seq<Capability>>)
    requires r.Valid()
    modifies r
    ensures r.Valid() && caps == V2Caps([], old(r.Rest()))
  {
    var sofar: seq<Capability> := [];
    ghost var want := V2Caps([], r.Rest());
    while true
      invariant r.Valid() && V2Caps(sofar, r.Rest()) == want
      decreases |r.Rest()|
    {
      ghost var before := r.Rest();
      var p := r.ReadPacket();
      if p == None {
        return Bad(Truncated);
      }
      assert before[0] == p.value && before[1..] == r.Rest();
      match p.value {
        case Flush => return Ok(sofar);
        case Data(payload) => sofar := sofar + ParseCaps(TrimLf(payload));
        case _ => return Bad(UnexpectedControl);
      }
    }
  }

  /** dispatchAdvertisement, behind the first packet. */
  method Dispatch(first: Packet, r: Inbox) returns (ad: Result<Advertisement>)
    requires r.Valid()
    modifies r
    ensures r.Valid() && ad == Parse([first] + old(r.Rest()))
  {
    hide ParseV0, V2Caps;
    ghost var all := [first] + r.Rest();
    assert all[1..] == r.Rest();
    if !first.Data? {
      return Ok(Advertisement(V0, [], []));
    }
    var rest := CutPrefix(TrimLf(first.payload), "version ");
    if rest == None {
      ad := ReadV0(first.payload, r, V0);
    } else if rest.value == "2" {
      var caps := ReadV2Capabilities(r);
      ad := if caps.Bad? then Bad(caps.error) else Ok(Advertisement(V2, caps.value, []));
    } else if rest.value == "1" {
      var next := r.ReadPacket();
      if next == None {
        return Bad(Truncated);
      }
      assert all[2..] == r.Rest();
      ad := ReadV0(if next.value.Data? then next.value.payload else "", r, V1);
    } else {
      ad := Bad(UnsupportedProtocol);
    }
  }

  /** ParseAdvertisement: what the packets say, unless the caller asked for another version. */
  method ReadAdvertisement(r: Inbox, want: Option<Version>) returns (ad: Result<Advertisement>)
    requires r.Valid()
    modifies r
    ensures r.Valid()
    ensures ad.Ok? <==> Parse(old(r.Rest())).Ok? && (want == None || want.value == Parse(old(r.Rest())).value.version)
    ensures ad == Parse(old(r.Rest())) || (Parse(old(r.Rest())).Ok? && ad == Bad(UnsupportedProtocol))
  {
    hide Parse;
    ghost var all := r.Rest();
    var first := r.ReadPacket();
    if first == None {
      assert Parse([]) == Bad(Truncated) by { ParseNothing(); }
      return Bad(Truncated);
    }
    assert all == [first.value] + r.Rest();
    ad := Dispatch(first.value, r);
    if ad.Ok? && want.Some? && ad.value.version != want.value {
      ad := Bad(UnsupportedProtocol);
    }
  }

  lemma ParseNothing()
    ensures Parse([]) == Bad(Truncated)
  {
  }

  // ---------------------------------------------------------------- they agree

  function Raw(r: RefEntry): RawRef {
    RawRef(r.oid, r.name, r.peeled, "", false)
  }

  function RawAll(refs: seq<RefEntry>): (rs: seq<RawRef>)
    ensures |rs| == |refs| && forall i :: 0 <= i < |rs| ==> rs[i] == Raw(refs[i])
  {
    seq(|refs|, i requires 0 <= i < |refs| => Raw(refs[i]))
  }

  lemma PlainNameTail(name: string)
    requires PlainName(name)
    ensures !HasSuffix(name, "^{}") && ' ' !in name && '\0' !in name && name != "capabilities^{}"
  {
    assert "capabilities^{}"[12] == '^';
    assert |name| >= 3 ==> name[|name| - 3..][0] == name[|name| - 3];
  }

  lemma OidStart(oid: string, rest: string)
    requires IsOid(oid)
    ensures ' ' !in oid && !("shallow " <= oid + rest) && !("version " <= oid + rest)
  {
    assert (oid + rest)[0] == oid[0] && "shallow "[0] == 's' && "version "[0] == 'v';
  }

  lemma PlainLineParses(refs: seq<RawRef>, r: RefEntry)
    requires GoodRef(r)
    ensures ParseLine(refs, r.oid + " " + r.name + "\n") == Ok(refs + [Raw(r.(peeled := ""))])
  {
    hide Cut, CutSuffix, TrimLf, PlainName, IsOid;
    var line := r.oid + " " + r.name;
    TrimLine(line);
    OidStart(r.oid, " " + r.name);
    assert line == r.oid + (" " + r.name) == r.oid + [' '] + r.name;
    CutFirst(r.oid, ' ', r.name);
    PlainNameTail(r.name);
  }

  lemma {:induction false} PeelLineParses(refs: seq<RawRef>, r: RefEntry)
    requires GoodRef(r) && r.peeled != ""
    ensures ParseLine(refs + [Raw(r.(peeled := ""))], r.peeled + " " + r.name + "^{}" + "\n") == Ok(refs + [Raw(r)])
  {
    hide Cut, CutSuffix, TrimLf, PlainName, IsOid;
    var line := r.peeled + " " + r.name + "^{}";
    TrimLine(line);
    OidStart(r.peeled, " " + r.name + "^{}");
    assert line == r.peeled + (" " + r.name + "^{}") == r.peeled + [' '] + (r.name + "^{}");
    CutFirst(r.peeled, ' ', r.name + "^{}");
    CutSuffixConcat(r.name, "^{}");
    var sofar := refs + [Raw(r.(peeled := ""))];
    assert sofar[|sofar| - 1 := Raw(r)] == refs + [Raw(r)];
  }

  lemma DataStep(refs: seq<RawRef>, payload: string, more: seq<RawRef>, ps: seq<Packet>)
    requires ParseLine(refs, payload) == Ok(more)
    ensures ParseLines(refs, [Data(payload)] + ps) == ParseLines(more, ps)
  {
    hide ParseLine;
    assert ([Data(payload)] + ps)[1..] == ps;
  }

  lemma PeelLinesParse(refs: seq<RawRef>, r: RefEntry, after: seq<Packet>)
    requires GoodRef(r)
    ensures ParseLines(refs + [Raw(r.(peeled := ""))], PeelLines(r) + after) == ParseLines(refs + [Raw(r)], after)
  {
    hide ParseLine, ParseLines;
    if r.peeled == "" {
      assert PeelLines(r) + after == after;
    } else {
      PeelLineParses(refs, r);
      DataStep(refs + [Raw(r.(peeled := ""))], r.peeled + " " + r.name + "^{}" + "\n", refs + [Raw(r)], after);
    }
  }

  lemma {:induction false} RefLinesParse(refs: seq<RawRef>, entries: seq<RefEntry>)
    requires forall i :: 0 <= i < |entries| ==> GoodRef(entries[i])
    ensures ParseLines(refs, RefLines(entries) + [Flush]) == Ok(refs + RawAll(entries))
    decreases |entries|
  {
    hide ParseLine, PeelLines, GoodRef;
    if entries == [] {
      assert RefLines(entries) + [Flush] == [Flush];
      assert refs + RawAll(entries) == refs;
    } else {
      hide ParseLines, RefLines, RawAll, RefPackets;
      var r := entries[0];
      var after := RefLines(entries[1..]) + [Flush];
      RefLinesShape(entries);
      RawAllShape(refs, entries);
      PlainLineParses(refs, r);
      DataStep(refs, r.oid + " " + r.name + "\n", refs + [Raw(r.(peeled := ""))], PeelLines(r) + after);
      PeelLinesParse(refs, r, after);
      RefLinesParse(refs + [Raw(r)], entries[1..]);
    }
  }

  lemma Reassociate(first: Packet, peel: seq<Packet>, rest: seq<Packet>)
    ensures [first] + peel + rest + [Flush] == [first] + (peel + (rest + [Flush]))
  {
  }

  lemma RefLinesShape(entries: seq<RefEntry>)
    requires entries != []
    ensures var r := entries[0];
      RefLines(entries) + [Flush] == [Line(r.oid + " " + r.name)] + (PeelLines(r) + (RefLines(entries[1..]) + [Flush]))
  {
    hide PeelLines, Line;
    var r := entries[0];
    assert RefPackets(r, None) == [Line(r.oid + " " + r.name)] + PeelLines(r);
    assert RefLines(entries) == RefPackets(r, None) + RefLines(entries[1..]);
    hide RefLines, RefPackets;
    Reassociate(Line(r.oid + " " + r.name), PeelLines(r), RefLines(entries[1..]));
  }

  lemma RawAllCons(entries: seq<RefEntry>)
    requires entries != []
    ensures RawAll(entries) == [Raw(entries[0])] + RawAll(entries[1..])
  {
    hide Raw;
    var rest := entries[1..];
    assert forall i :: 0 <= i < |rest| ==> RawAll(rest)[i] == Raw(entries[i + 1]);
  }

  lemma RawAllShape(refs: seq<RawRef>, entries: seq<RefEntry>)
    requires entries != []
    ensures refs + [Raw(entries[0])] + RawAll(entries[1..]) == refs + RawAll(entries)
  {
    hide RawAll, Raw;
    RawAllCons(entries);
  }

  /** The refs a client should see, before symrefs: HEAD when it is valid, then every ref in order. */
  function Seen(head: Head, refs: seq<RefEntry>): seq<RawRef> {
    (if HeadValid(head) then [RawRef(head.oid, "HEAD", "", "", false)] else []) + RawAll(refs)
  }

  /** The capabilities a client should see. */
  function SeenCaps(head: Head, algo: string, agent: string): seq<Capability> {
    (if head.symref != "" then [Capability("symref", "HEAD:" + head.symref)] else [])
    + [Capability("object-format", algo), Capability("agent", agent)]
  }

  lemma CapParses(name: string, value: string)
    requires '=' !in name
    ensures ParseCap(name + "=" + value) == Capability(name, value)
  {
    CutFirst(name, '=', value);
  }

  lemma TokensParse(head: Head, algo: string, agent: string)
    ensures var ts := CapTokens(head, algo, agent);
      |ts| == |SeenCaps(head, algo, agent)| && forall i :: 0 <= i < |ts| ==>
        ParseCap(ts[i]) == SeenCaps(head, algo, agent)[i]
  {
    hide ParseCap;
    CapParses("symref", "HEAD:" + head.symref);
    assert "symref=HEAD:" + head.symref == "symref" + "=" + ("HEAD:" + head.symref);
    CapParses("object-format", algo);
    assert "object-format=" + algo == "object-format" + "=" + algo;
    CapParses("agent", agent);
    assert "agent=" + agent == "agent" + "=" + agent;
  }

  lemma PrefixedToken(prefix: string, s: string)
    requires prefix != "" && FreeOf(IsWireSpace, prefix)
    ensures IsToken(IsWireSpace, prefix + s) <==> FreeOf(IsWireSpace, s)
  {
    if FreeOf(IsWireSpace, prefix + s) {
      assert forall i :: 0 <= i < |s| ==> s[i] == (prefix + s)[|prefix| + i];
    }
  }

  lemma ValueFree(tok: string)
    requires FreeOf(IsWireSpace, tok)
    ensures FreeOf(IsWireSpace, ParseCap(tok).value)
  {
    match Cut(tok, '=')
    case None =>
    case Some(p) => assert forall i :: 0 <= i < |p.1| ==> p.1[i] == tok[|p.0| + 1 + i];
  }

  ghost predicate CapsFree(head: Head, algo: string, agent: string) {
    FreeOf(IsWireSpace, head.symref) && FreeOf(IsWireSpace, algo) && FreeOf(IsWireSpace, agent)
  }

  /** A token is white-space free exactly when its value is. */
  lemma TokensFree(head: Head, algo: string, agent: string)
    ensures var ts := CapTokens(head, algo, agent);
      CapsFree(head, algo, agent) <==> forall i :: 0 <= i < |ts| ==> IsToken(IsWireSpace, ts[i])
  {
    hide IsToken;
    var ts := CapTokens(head, algo, agent);
    PrefixedToken("symref=HEAD:", head.symref);
    PrefixedToken("object-format=", algo);
    PrefixedToken("agent=", agent);
    assert ts[|ts| - 1] == "agent=" + agent && ts[|ts| - 2] == "object-format=" + algo;
    assert head.symref != "" ==> ts[0] == "symref=HEAD:" + head.symref;
  }

  /** The capability list comes back exactly when no value in it holds white space. */
  lemma CapsExactly(head: Head, algo: string, agent: string)
    ensures CapsFree(head, algo, agent) <==>
      ParseCaps(Spaced(CapTokens(head, algo, agent))) == SeenCaps(head, algo, agent)
  {
    hide ParseCap, Fields, Spaced, CapTokens, SeenCaps, CapsFree;
    var ts := CapTokens(head, algo, agent);
    var caps := ParseCaps(Spaced(ts));
    var seen := SeenCaps(head, algo, agent);
    TokensParse(head, algo, agent);
    TokensFree(head, algo, agent);
    if CapsFree(head, algo, agent) {
      FieldsOfSpaced(IsWireSpace, ts);
      assert caps == seen;
    }
    if caps == seen {
      forall i | 0 <= i < |seen|
        ensures FreeOf(IsWireSpace, seen[i].value)
      {
        ValueFree(Fields(IsWireSpace, Spaced(ts))[i]);
      }
      SeenFree(head, algo, agent);
    }
  }

  lemma SeenFree(head: Head, algo: string, agent: string)
    requires forall i :: 0 <= i < |SeenCaps(head, algo, agent)| ==>
      FreeOf(IsWireSpace, SeenCaps(head, algo, agent)[i].value)
    ensures CapsFree(head, algo, agent)
  {
    var seen := SeenCaps(head, algo, agent);
    PrefixedToken("HEAD:", head.symref);
    assert head.symref != "" ==> seen[0].value == "HEAD:" + head.symref;
    assert seen[|seen| - 2].value == algo && seen[|seen| - 1].value == agent;
  }

  lemma SymrefsApply(head: Head, algo: string, agent: string, refs: seq<RawRef>)
    ensures ApplySymrefs(refs, SeenCaps(head, algo, agent)) ==
      if head.symref != "" then SetSymref(refs, "HEAD", head.symref) else refs
  {
    hide SetSymref;
    var tail := [Capability("object-format", algo), Capability("agent", agent)];
    OtherCaps(refs, tail);
    if head.symref != "" {
      var more := SetSymref(refs, "HEAD", head.symref);
      OtherCaps(more, tail);
      CutFirst("HEAD", ':', head.symref);
      assert "HEAD:" + head.symref == "HEAD" + [':'] + head.symref;
      assert SeenCaps(head, algo, agent)[1..] == tail;
    } else {
      assert SeenCaps(head, algo, agent) == tail;
    }
  }

  lemma {:induction false} OtherCaps(refs: seq<RawRef>, caps: seq<Capability>)
    requires forall i :: 0 <= i < |caps| ==> caps[i].name != "symref"
    ensures ApplySymrefs(refs, caps) == refs
    decreases |caps|
  {
    if caps != [] {
      OtherCaps(refs, caps[1..]);
    }
  }

  lemma FirstLineParses(oid: string, name: string, caps: string)
    requires IsOid(oid) && ' ' !in name && '\0' !in name
    ensures ParseFirst(FirstLine(oid, name, caps).payload) ==
      if name == "capabilities^{}" && IsZero(oid) then Ok((ParseCaps(caps), []))
      else if HasSuffix(name, "^{}") then Bad(Malformed)
      else Ok((ParseCaps(caps), [RawRef(oid, name, "", "", false)]))
  {
    hide ParseCaps, Cut, TrimLf, HasSuffix, IsZero;
    var line := oid + " " + (name + ['\0'] + caps);
    TrimLine(line);
    OidStart(oid, " " + (name + ['\0'] + caps));
    assert line == oid + (" " + (name + ['\0'] + caps)) == oid + [' '] + (name + ['\0'] + caps);
    CutFirst(oid, ' ', name + ['\0'] + caps);
    CutFirst(name, '\0', caps);
  }

  lemma AdvertParsesAsV0(oid: string, name: string, caps: string, ps: seq<Packet>)
    requires IsOid(oid)
    ensures Parse([FirstLine(oid, name, caps)] + ps) == ParseV0(FirstLine(oid, name, caps).payload, ps, V0)
  {
    hide ParseV0;
    var line := oid + " " + (name + ['\0'] + caps);
    TrimLine(line);
    OidStart(oid, " " + (name + ['\0'] + caps));
    assert line == oid + (" " + (name + ['\0'] + caps));
    assert ([FirstLine(oid, name, caps)] + ps)[1..] == ps;
  }

  /** What the client should make of the advertisement. */
  function SeenBy(head: Head, algo: string, agent: string, refs: seq<RefEntry>): Advertisement {
    var seen := Seen(head, refs);
    var refs := if head.symref != "" then SetSymref(seen, "HEAD", head.symref) else seen;
    Advertisement(V0, SeenCaps(head, algo, agent), refs)
  }

  lemma {:induction false} Assembles(oid: string, name: string, caps: string, start: seq<RawRef>, ps: seq<Packet>,
                                     refs: seq<RawRef>)
    requires IsOid(oid) && ParseFirst(FirstLine(oid, name, caps).payload) == Ok((ParseCaps(caps), start))
    requires ParseLines(start, ps) == Ok(refs)
    ensures Parse([FirstLine(oid, name, caps)] + ps) ==
      Ok(Advertisement(V0, ParseCaps(caps), ApplySymrefs(refs, ParseCaps(caps))))
  {
    hide Parse, ParseFirst, ParseLines, ParseCaps, ApplySymrefs;
    AdvertParsesAsV0(oid, name, caps, ps);
  }

  /** What is written after HEAD, or after the first ref when HEAD is not advertised, gives all the refs. */
  lemma {:induction false} AdvertParses(head: Head, caps: string, n: nat, refs: seq<RefEntry>)
    requires IsOid(head.oid) && n > 0 && forall i :: 0 <= i < |refs| ==> GoodRef(refs[i])
    ensures Parse(Advert(head, caps, n, refs)) ==
      Ok(Advertisement(V0, ParseCaps(caps), ApplySymrefs(Seen(head, refs), ParseCaps(caps))))
  {
    hide ParseFirst, ParseCaps, ParseLines, ApplySymrefs, Parse, RefPackets, FirstLine, IsZero, HasSuffix, GoodRef;
    if HeadValid(head) {
      var ps := RefLines(refs) + [Flush];
      FirstLineParses(head.oid, "HEAD", caps);
      NotSuffixed();
      RefLinesParse([RawRef(head.oid, "HEAD", "", "", false)], refs);
      Assembles(head.oid, "HEAD", caps, [RawRef(head.oid, "HEAD", "", "", false)], ps, Seen(head, refs));
    } else if refs == [] {
      EmptyAdvert(n, caps);
      assert Seen(head, refs) == [];
    } else {
      HeadlessParses(caps, refs);
      assert Seen(head, refs) == RawAll(refs);
    }
  }

  lemma HeadlessParses(caps: string, refs: seq<RefEntry>)
    requires refs != [] && forall i :: 0 <= i < |refs| ==> GoodRef(refs[i])
    ensures Parse(RefPackets(refs[0], Some(caps)) + (RefLines(refs[1..]) + [Flush])) ==
      Ok(Advertisement(V0, ParseCaps(caps), ApplySymrefs(RawAll(refs), ParseCaps(caps))))
  {
    hide ParseFirst, ParseCaps, ParseLines, ApplySymrefs, Parse, PeelLines, FirstLine, IsZero, HasSuffix, RefLines;
    var r := refs[0];
    var after := RefLines(refs[1..]) + [Flush];
    var ps := PeelLines(r) + after;
    assert GoodRef(r);
    PlainNameTail(r.name);
    FirstLineParses(r.oid, r.name, caps);
    assert [] + [Raw(r.(peeled := ""))] == [RawRef(r.oid, r.name, "", "", false)] && [] + [Raw(r)] == [Raw(r)];
    PeelLinesParse([], r, after);
    RefLinesParse([Raw(r)], refs[1..]);
    assert [Raw(r)] + RawAll(refs[1..]) == RawAll(refs);
    Assembles(r.oid, r.name, caps, [RawRef(r.oid, r.name, "", "", false)], ps, RawAll(refs));
    assert RefPackets(r, Some(caps)) + after == [FirstLine(r.oid, r.name, caps)] + ps;
  }

  lemma NotSuffixed()
    ensures !HasSuffix("HEAD", "^{}")
  {
    assert "HEAD"[1..][0] == 'E';
  }

  /**
   Whatever the refs, their peels and HEAD, the client reads back version 0, every capability, HEAD with
   its symref when it is valid, and every ref in order with its own peel; an empty repository reads back
   as no refs at all.
   */
  lemma {:induction false} AdvertRoundTrip(head: Head, algo: string, agent: string, n: nat, refs: seq<RefEntry>)
    requires IsOid(head.oid) && n > 0 && CapsFree(head, algo, agent)
    requires forall i :: 0 <= i < |refs| ==> GoodRef(refs[i])
    ensures Parse(Advert(head, Spaced(CapTokens(head, algo, agent)), n, refs)) == Ok(SeenBy(head, algo, agent, refs))
  {
    hide Advert, Seen, ParseCaps, Spaced, CapTokens, SeenCaps, ApplySymrefs, SetSymref, Parse, CapsFree, GoodRef;
    AdvertParses(head, Spaced(CapTokens(head, algo, agent)), n, refs);
    CapsExactly(head, algo, agent);
    SymrefsApply(head, algo, agent, Seen(head, refs));
  }

  lemma {:induction false} EmptyAdvert(n: nat, caps: string)
    requires n > 0
    ensures Parse([FirstLine(Zeros(n), "capabilities^{}", caps), Flush]) ==
      Ok(Advertisement(V0, ParseCaps(caps), ApplySymrefs([], ParseCaps(caps))))
  {
    hide ParseCaps, ApplySymrefs, Parse, ParseFirst;
    var ps := [Flush];
    assert [FirstLine(Zeros(n), "capabilities^{}", caps), Flush] == [FirstLine(Zeros(n), "capabilities^{}", caps)] + ps;
    FirstLineParses(Zeros(n), "capabilities^{}", caps);
    Assembles(Zeros(n), "capabilities^{}", caps, [], ps, []);
  }

  /** HEAD leads and carries its target when it is valid; an unborn or missing HEAD is not there at all. */
  lemma HeadSeen(head: Head, algo: string, agent: string, refs: seq<RefEntry>)
    requires forall i :: 0 <= i < |refs| ==> refs[i].name != "HEAD"
    ensures SeenBy(head, algo, agent, refs).refs ==
      (if HeadValid(head) then [RawRef(head.oid, "HEAD", "", head.symref, false)] else []) + RawAll(refs)
  {
    hide SetSymref;
    var seen := Seen(head, refs);
    if HeadValid(head) {
      SetSymrefAt(seen, 0, "HEAD", head.symref);
    } else {
      SetSymrefAt(seen, |seen|, "HEAD", head.symref);
    }
  }
}
