/** The ls-refs response: what the server writes, and what the client's iterator yields and drains. */
module LsRefs {
  import opened Options
  import opened Pktline
  import opened WireText
  import opened Refs
  import opened Request

  // ---------------------------------------------------------------- the server's side

  /** refMatch. */
  predicate Admits(prefixes: seq<string>, name: string) {
    prefixes == [] || exists i :: 0 <= i < |prefixes| && prefixes[i] <= name
  }

  /** There is no prefix to match, or one begins the name. */
  ghost predicate SomeBegins(prefixes: seq<string>, name: string) {
    prefixes == [] || exists p :: p in prefixes && p <= name
  }

  lemma AdmitsIs(prefixes: seq<string>, name: string)
    ensures Admits(prefixes, name) <==> SomeBegins(prefixes, name)
  {
    if p :| p in prefixes && p <= name {
      var i :| 0 <= i < |prefixes| && prefixes[i] == p;
    }
    if i :| 0 <= i < |prefixes| && prefixes[i] <= name {
      assert prefixes[i] in prefixes;
    }
  }

  /** emitHead; peeled is what HEAD peels to, or empty. */
  function HeadLines(head: Head, peeled: string, args: Args): seq<Packet>
    requires args.LsRefs?
  {
    if !Admits(args.prefixes, "HEAD") then []
    else if !head.unborn && !IsZero(head.oid) then
      [Line(Spaced([head.oid, "HEAD"]
                   + (if args.symrefs && head.symref != "" then ["symref-target:" + head.symref] else [])
                   + (if args.peel && peeled != "" then ["peeled:" + peeled] else [])))]
    else if head.unborn && args.unborn && args.symrefs then
      [Line(Spaced(["unborn", "HEAD", "symref-target:" + head.symref]))]
    else []
  }

  /** formatRefLine. */
  function RefLine(r: RefEntry, peel: bool): Packet {
    Line(Spaced([r.oid, r.name] + (if peel && r.peeled != "" then ["peeled:" + r.peeled] else [])))
  }

  function RefLines(refs: seq<RefEntry>, peel: bool): (ps: seq<Packet>)
    ensures |ps| == |refs| && forall i :: 0 <= i < |ps| ==> ps[i] == RefLine(refs[i], peel)
  {
    seq(|refs|, i requires 0 <= i < |refs| => RefLine(refs[i], peel))
  }

  function Admitted(prefixes: seq<string>, refs: seq<RefEntry>): (out: seq<RefEntry>) {
    if refs == [] then []
    else
      var last := refs[|refs| - 1];
      Admitted(prefixes, refs[..|refs| - 1]) + if Admits(prefixes, last.name) then [last] else []
  }

  /** The whole response for refs that are already filtered and sorted. */
  function Response(head: Head, peeled: string, refs: seq<RefEntry>, args: Args): seq<Packet>
    requires args.LsRefs?
  {
    HeadLines(head, peeled, args) + RefLines(refs, args.peel) + [Flush]
  }

  /** collectLSRefsRefs. */
  method Collect(refs: seq<RefEntry>, prefixes: seq<string>) returns (sorted: seq<RefEntry>)
    ensures Sorts(sorted, Admitted(prefixes, refs))
  {
    hide Sorts, Admits;
    var kept: seq<RefEntry> := [];
    for i := 0 to |refs|
      invariant kept == Admitted(prefixes, refs[..i])
    {
      assert refs[..i + 1][..i] == refs[..i];
      var ok := Match(prefixes, refs[i].name);
      if ok {
        kept := kept + [refs[i]];
      }
    }
    assert refs[..|refs|] == refs;
    sorted := SortByName(kept);
  }

  method Match(prefixes: seq<string>, name: string) returns (ok: bool)
    ensures ok <==> Admits(prefixes, name)
    ensures ok <==> SomeBegins(prefixes, name)
  {
    AdmitsIs(prefixes, name);
    if |prefixes| == 0 {
      return true;
    }
    for i := 0 to |prefixes|
      invariant forall k :: 0 <= k < i ==> !(prefixes[k] <= name)
    {
      if prefixes[i] <= name {
        return true;
      }
    }
    return false;
  }

  /** writeLSRefsResponse and the closing flush of handleLSRefs, up to the first packet that does not fit. */
  method WriteResponse(head: Head, peeled: string, refs: seq<RefEntry>, args: Args)
    returns (ok: bool, out: seq<Packet>)
    requires args.LsRefs?
    ensures exists sorted ::
      Sorts(sorted, Admitted(args.prefixes, refs)) && SendsOf(Response(head, peeled, sorted, args), ok, out)
  {
    hide Sorts, Admitted, HeadLines, RefLine, Fits;
    var collected := Collect(refs, args.prefixes);
    ghost var whole := Response(head, peeled, collected, args);
    var first := HeadLines(head, peeled, args);
    AtMostOne(head, peeled, args);
    out := [];
    if |first| > 0 {
      if !Fits(first[0]) {
        assert whole[0] == first[0];
        return false, out;
      }
      out := first;
    }
    for i := 0 to |collected|
      invariant out == first + RefLines(collected, args.peel)[..i] && AllFit(out)
    {
      var line := RefLine(collected[i], args.peel);
      assert whole[|first| + i] == line;
      if !Fits(line) {
        return false, out;
      }
      out := out + [line];
    }
    assert RefLines(collected, args.peel)[..|collected|] == RefLines(collected, args.peel);
    ControlFits();
    out := out + [Flush];
    ok := true;
  }

  lemma AtMostOne(head: Head, peeled: string, args: Args)
    requires args.LsRefs?
    ensures |HeadLines(head, peeled, args)| <= 1
  {
  }

  // ---------------------------------------------------------------- the client's side

  datatype Decoded = Ref(ref: RawRef) | Bad

  function WithAttributes(ref: RawRef, tokens: seq<string>): (r: RawRef)
    decreases |tokens|
  {
    if tokens == [] then ref
    else
      var next :=
        if !ref.unborn && "peeled:" <= tokens[0] then ref.(peeled := tokens[0][7..])
        else if "symref-target:" <= tokens[0] then ref.(symref := tokens[0][14..])
        else ref;
      WithAttributes(next, tokens[1..])
  }

  /** CheckERRPacket and parseLSRefsLine. */
  function Decode(payload: string): Decoded {
    var line := TrimLf(payload);
    var tokens := Fields(IsSpace, line);
    if "ERR " <= line || |tokens| < 2 then Bad
    else if tokens[0] == "unborn" then Ref(WithAttributes(RawRef("", tokens[1], "", "", true), tokens[2..]))
    else Ref(WithAttributes(RawRef(tokens[0], tokens[1], "", "", false), tokens[2..]))
  }

  /** What iterating over a response yields: the refs in order, and whether it ended at the flush. */
  ghost function Yields(ps: seq<Packet>): (r: (seq<RawRef>, bool))
    decreases |ps|
  {
    if ps == [] then ([], false)
    else match ps[0]
         case Flush => ([], true)
         case Data(payload) =>
           (match Decode(payload)
            case Bad => ([], false)
            case Ref(ref) => ([ref] + Yields(ps[1..]).0, Yields(ps[1..]).1))
         case _ => ([], false)
  }

  /** A response as the pipe carries it: data packets, then the flush. */
  ghost predicate IsResponse(ps: seq<Packet>) {
    ps != [] && ps[|ps| - 1].Flush? && forall i :: 0 <= i < |ps| - 1 ==> ps[i].Data?
  }

  /** The session's v2 client: refsV2, its iterator and its drain. */
  class Client {
    const conn: Inbox
    var dead: bool

    ghost predicate Valid()
      reads this, conn
    {
      conn.Valid()
    }

    constructor (conn: Inbox)
      requires conn.Valid()
      ensures Valid() && this.conn == conn && !dead
    {
      this.conn, dead := conn, false;
    }

    /** drainLSRefsResponse. */
    method Drain()
      requires Valid()
      modifies conn
      ensures Valid()
      ensures forall rest, more :: IsResponse(rest) && old(conn.Rest()) == rest + more ==> conn.Rest() == more
    {
      hide IsResponse;
      ghost var start := conn.Rest();
      while true
        invariant Valid()
        invariant forall rest, more :: IsResponse(rest) && start == rest + more ==>
          exists left :: IsResponse(left) && conn.Rest() == left + more
        decreases |conn.Rest()|
      {
        ghost var before := conn.Rest();
        var p := conn.ReadPacket();
        if p == None {
          forall rest, more | IsResponse(rest) && start == rest + more
            ensures conn.Rest() == more
          {
            var left :| IsResponse(left) && before == left + more;
            NextOf(left, more);
          }
          return;
        }
        forall rest, more | IsResponse(rest) && start == rest + more
          ensures if p.value.Flush? then conn.Rest() == more
            else exists left :: IsResponse(left) && conn.Rest() == left + more
        {
          var left :| IsResponse(left) && before == left + more;
          NextOf(left, more);
          assert before[1..] == conn.Rest() && before[0] == p.value;
          assert !p.value.Flush? ==> IsResponse(left[1..]) && conn.Rest() == left[1..] + more;
        }
        if p.value.Flush? {
          return;
        }
      }
    }

    /**
     The iterator of refsV2, stopped by its caller after stop refs if it gets that far: it yields the
     response's refs in order, and afterwards the stream stands behind the response unless the session is dead.
     */
    method Refs(stop: Option<nat>) returns (refs: seq<RawRef>, failed: bool)
      requires Valid() && !dead
      modifies this, conn
      ensures Valid() && failed == dead
      ensures forall response, more :: IsResponse(response) && old(conn.Rest()) == response + more ==>
        && refs <= Yields(response).0
        && (stop.Some? && stop.value <= |Yields(response).0| && stop.value > 0 ==> |refs| == stop.value && !dead)
        && (stop == None ==> refs == Yields(response).0 && dead == !Yields(response).1)
        && (!dead ==> conn.Rest() == more)
    {
      hide Decode, IsResponse, Yields, Midway;
      refs, failed := [], false;
      ghost var start := conn.Rest();
      forall response, more | IsResponse(response) && start == response + more
        ensures Midway(response, more, refs, start)
      {
        AtTheStart(response, more);
      }
      while true
        invariant Valid() && !dead && !failed
        invariant stop.Some? && stop.value > 0 ==> |refs| < stop.value
        invariant forall response, more :: IsResponse(response) && start == response + more ==>
          Midway(response, more, refs, conn.Rest())
        decreases |conn.Rest()|
      {
        ghost var before, sofar := conn.Rest(), refs;
        var p := conn.ReadPacket();
        assert p.Some? ==> before[0] == p.value && before[1..] == conn.Rest();
        forall response, more | IsResponse(response) && start == response + more
          ensures p.Some? && StepsTo(response, more, sofar, p.value, conn.Rest())
        {
          StepFrom(response, more, sofar, before);
        }
        if p == None || (!p.value.Flush? && !p.value.Data?) {
          dead, failed := true, true;
          return;
        }
        if p.value.Flush? {
          return;
        }
        var d := Decode(p.value.payload);
        if d.Bad? {
          dead, failed := true, true;
          return;
        }
        refs := refs + [d.ref];
        if stop.Some? && |refs| == stop.value {
          forall response, more | IsResponse(response) && start == response + more
            ensures exists left :: IsResponse(left) && conn.Rest() == left + more
          {
            LeftOver(response, more, refs, conn.Rest());
          }
          Drain();
          return;
        }
      }
    }
  }

  /** left is what is still to be read of response, before more. */
  ghost predicate Remaining(response: seq<Packet>, more: seq<Packet>, refs: seq<RawRef>, rest: seq<Packet>,
                            left: seq<Packet>) {
    && IsResponse(left) && rest == left + more
    && Yields(response) == (refs + Yields(left).0, Yields(left).1)
  }

  ghost predicate Midway(response: seq<Packet>, more: seq<Packet>, refs: seq<RawRef>, rest: seq<Packet>) {
    exists left :: Remaining(response, more, refs, rest, left)
  }

  /** What reading packet p does to a response of which refs have been yielded. */
  ghost predicate StepsTo(response: seq<Packet>, more: seq<Packet>, refs: seq<RawRef>, p: Packet, rest: seq<Packet>) {
    match p
    case Flush => rest == more && Yields(response) == (refs, true)
    case Data(payload) =>
      (match Decode(payload)
       case Bad => Yields(response) == (refs, false)
       case Ref(ref) =>
         && Midway(response, more, refs + [ref], rest)
         && |refs| < |Yields(response).0| && refs + [ref] <= Yields(response).0)
    case _ => false
  }

  lemma NextOf(left: seq<Packet>, more: seq<Packet>)
    requires IsResponse(left)
    ensures left + more != [] && (left + more)[0] == left[0] && (left + more)[1..] == left[1..] + more
    ensures left[0].Flush? ==> left[1..] == []
    ensures !left[0].Flush? ==> left[0].Data? && IsResponse(left[1..])
  {
  }

  lemma OneStep(response: seq<Packet>, more: seq<Packet>, refs: seq<RawRef>, rest: seq<Packet>, left: seq<Packet>)
    requires Remaining(response, more, refs, rest, left)
    ensures StepsTo(response, more, refs, left[0], rest[1..])
  {
    hide Decode, IsResponse;
    NextOf(left, more);
    assert [] + more == more && refs + [] == refs;
    if left[0].Data? {
      var d := Decode(left[0].payload);
      if d.Ref? {
        assert refs + ([d.ref] + Yields(left[1..]).0) == refs + [d.ref] + Yields(left[1..]).0;
        assert Remaining(response, more, refs + [d.ref], rest[1..], left[1..]);
      }
    }
  }

  lemma AtTheStart(response: seq<Packet>, more: seq<Packet>)
    requires IsResponse(response)
    ensures Midway(response, more, [], response + more)
  {
    assert [] + Yields(response).0 == Yields(response).0;
    assert Remaining(response, more, [], response + more, response);
  }

  lemma StepFrom(response: seq<Packet>, more: seq<Packet>, refs: seq<RawRef>, before: seq<Packet>)
    requires Midway(response, more, refs, before)
    ensures before != [] && StepsTo(response, more, refs, before[0], before[1..])
  {
    var left :| Remaining(response, more, refs, before, left);
    NextOf(left, more);
    OneStep(response, more, refs, before, left);
  }

  lemma LeftOver(response: seq<Packet>, more: seq<Packet>, refs: seq<RawRef>, rest: seq<Packet>)
    requires Midway(response, more, refs, rest)
    ensures exists left :: IsResponse(left) && rest == left + more
  {
  }

  // ---------------------------------------------------------------- they agree

  ghost predicate GoodHead(head: Head, peeled: string) {
    && IsOid(head.oid) && FreeOf(IsSpace, head.symref) && (peeled == "" || IsOid(peeled))
  }

  /** What a client should decode for HEAD under args. */
  function SeenHead(head: Head, peeled: string, args: Args): seq<RawRef>
    requires args.LsRefs?
  {
    if !Admits(args.prefixes, "HEAD") then []
    else if !head.unborn && !IsZero(head.oid) then
      [RawRef(head.oid, "HEAD", if args.peel then peeled else "", if args.symrefs then head.symref else "", false)]
    else if head.unborn && args.unborn && args.symrefs then [RawRef("", "HEAD", "", head.symref, true)]
    else []
  }

  function SeenRef(r: RefEntry, peel: bool): RawRef {
    RawRef(r.oid, r.name, if peel then r.peeled else "", "", false)
  }

  function Seen(refs: seq<RefEntry>, peel: bool): (rs: seq<RawRef>)
    ensures |rs| == |refs|
    ensures forall i :: 0 <= i < |rs| ==> rs[i] == SeenRef(refs[i], peel)
  {
    seq(|refs|, i requires 0 <= i < |refs| => SeenRef(refs[i], peel))
  }

  lemma {:induction false} SpacedSplits(tokens: seq<string>, first: string)
    requires |tokens| >= 2 && tokens[0] == first && (IsOid(first) || first == "unborn")
    requires forall i :: 0 <= i < |tokens| ==> IsToken(IsSpace, tokens[i])
    ensures Decode(Line(Spaced(tokens)).payload) ==
      if first == "unborn" then Ref(WithAttributes(RawRef("", tokens[1], "", "", true), tokens[2..]))
      else Ref(WithAttributes(RawRef(first, tokens[1], "", "", false), tokens[2..]))
  {
    hide Fields, WithAttributes;
    var line := Spaced(tokens);
    TrimLine(line);
    FieldsOfSpaced(IsSpace, tokens);
    assert line == tokens[0] + " " + Spaced(tokens[1..]);
    assert line[0] == first[0] && "ERR "[0] == 'E';
  }

  lemma OidToken(oid: string)
    requires IsOid(oid)
    ensures IsToken(IsSpace, oid) && oid != "unborn"
  {
    assert "unborn"[0] == 'u';
  }

  lemma Prefixed(prefix: string, s: string)
    requires prefix != "" && FreeOf(IsSpace, prefix) && FreeOf(IsSpace, s)
    ensures IsToken(IsSpace, prefix + s) && prefix <= prefix + s && (prefix + s)[|prefix|..] == s
  {
  }

  lemma TwoAttributes(ref: RawRef, a: seq<string>, b: seq<string>)
    ensures WithAttributes(ref, a + b) == WithAttributes(WithAttributes(ref, a), b)
    decreases |a|
  {
    if a == [] {
      assert a + b == b;
    } else {
      assert (a + b)[0] == a[0] && (a + b)[1..] == a[1..] + b;
    }
  }

  lemma OneAttribute(ref: RawRef, tok: string)
    ensures WithAttributes(ref, []) == ref
    ensures WithAttributes(ref, [tok]) ==
      if !ref.unborn && "peeled:" <= tok then ref.(peeled := tok[7..])
      else if "symref-target:" <= tok then ref.(symref := tok[14..])
      else ref
  {
    assert [tok][1..] == [];
  }

  lemma RefDecodes(r: RefEntry, peel: bool)
    requires GoodRef(r)
    ensures RefLine(r, peel).Data?
    ensures Decode(RefLine(r, peel).payload) == Ref(RawRef(r.oid, r.name, if peel then r.peeled else "", "", false))
  {
    hide Decode, WithAttributes, Spaced;
    OidToken(r.oid);
    var more := if peel && r.peeled != "" then ["peeled:" + r.peeled] else [];
    var tokens := [r.oid, r.name] + more;
    if more != [] {
      OidToken(r.peeled);
      Prefixed("peeled:", r.peeled);
    }
    SpacedSplits(tokens, r.oid);
    assert tokens[2..] == more;
    OneAttribute(RawRef(r.oid, r.name, "", "", false), "peeled:" + r.peeled);
  }

  lemma UnbornDecodes(target: string)
    requires FreeOf(IsSpace, target)
    ensures Decode(Line(Spaced(["unborn", "HEAD", "symref-target:" + target])).payload)
         == Ref(RawRef("", "HEAD", "", target, true))
  {
    hide Decode, WithAttributes, Spaced;
    Prefixed("symref-target:", target);
    var symref := "symref-target:" + target;
    var tokens := ["unborn", "HEAD", symref];
    SpacedSplits(tokens, "unborn");
    assert tokens[2..] == [symref];
    OneAttribute(RawRef("", "HEAD", "", "", true), symref);
  }

  /** HEAD with its target, its peel, both or neither. */
  lemma BornDecodes(oid: string, target: string, peeled: string, a: seq<string>, b: seq<string>)
    requires IsOid(oid) && FreeOf(IsSpace, target) && (a == [] || a == ["symref-target:" + target])
    requires b == [] || (b == ["peeled:" + peeled] && IsOid(peeled))
    ensures Decode(Line(Spaced([oid, "HEAD"] + a + b)).payload)
         == Ref(RawRef(oid, "HEAD", if b == [] then "" else peeled, if a == [] then "" else target, false))
  {
    hide Decode, WithAttributes, Spaced;
    var symref := "symref-target:" + target;
    Prefixed("symref-target:", target);
    assert symref[0] == 's' && "peeled:"[0] == 'p';
    OidToken(oid);
    if b != [] {
      OidToken(peeled);
      Prefixed("peeled:", peeled);
    }
    var tokens := [oid, "HEAD"] + a + b;
    var plain := RawRef(oid, "HEAD", "", "", false);
    SpacedSplits(tokens, oid);
    assert tokens[2..] == a + b;
    TwoAttributes(plain, a, b);
    OneAttribute(plain, symref);
    OneAttribute(WithAttributes(plain, a), "peeled:" + peeled);
  }

  lemma HeadDecodes(head: Head, peeled: string, args: Args)
    requires args.LsRefs? && GoodHead(head, peeled) && HeadLines(head, peeled, args) != []
    ensures HeadLines(head, peeled, args)[0].Data?
    ensures Decode(HeadLines(head, peeled, args)[0].payload).Ref?
    ensures SeenHead(head, peeled, args) == [Decode(HeadLines(head, peeled, args)[0].payload).ref]
  {
    hide Decode, Spaced, Admits, IsZero, FreeOf;
    if head.unborn {
      UnbornDecodes(head.symref);
    } else {
      var a := if args.symrefs && head.symref != "" then ["symref-target:" + head.symref] else [];
      var b := if args.peel && peeled != "" then ["peeled:" + peeled] else [];
      BornDecodes(head.oid, head.symref, peeled, a, b);
    }
  }

  lemma YieldStep(payload: string, ref: RawRef, ps: seq<Packet>)
    requires Decode(payload) == Ref(ref)
    ensures Yields([Data(payload)] + ps) == ([ref] + Yields(ps).0, Yields(ps).1)
  {
    hide Decode;
    assert ([Data(payload)] + ps)[1..] == ps;
  }

  lemma LinesShape(refs: seq<RefEntry>, peel: bool)
    requires refs != []
    ensures RefLines(refs, peel) + [Flush] == [RefLine(refs[0], peel)] + (RefLines(refs[1..], peel) + [Flush])
    ensures Seen(refs, peel) ==
      [RawRef(refs[0].oid, refs[0].name, if peel then refs[0].peeled else "", "", false)] + Seen(refs[1..], peel)
  {
    hide RefLine;
  }

  lemma {:induction false} LinesYield(refs: seq<RefEntry>, peel: bool)
    requires forall i :: 0 <= i < |refs| ==> GoodRef(refs[i])
    ensures Yields(RefLines(refs, peel) + [Flush]) == (Seen(refs, peel), true)
    decreases |refs|
  {
    hide Decode, GoodRef, RefLine;
    if refs == [] {
      assert RefLines(refs, peel) + [Flush] == [Flush];
    } else {
      hide Yields, RefLines, Seen;
      var ref := RawRef(refs[0].oid, refs[0].name, if peel then refs[0].peeled else "", "", false);
      RefDecodes(refs[0], peel);
      LinesYield(refs[1..], peel);
      LinesShape(refs, peel);
      YieldStep(RefLine(refs[0], peel).payload, ref, RefLines(refs[1..], peel) + [Flush]);
    }
  }

  /**
   The client decodes exactly HEAD, when the arguments admit it, and then the refs in their order, each
   with its own peel when peels were asked for.
   */
  lemma ResponseRoundTrip(head: Head, peeled: string, refs: seq<RefEntry>, args: Args)
    requires args.LsRefs? && GoodHead(head, peeled)
    requires forall i :: 0 <= i < |refs| ==> GoodRef(refs[i])
    ensures IsResponse(Response(head, peeled, refs, args))
    ensures Yields(Response(head, peeled, refs, args)) == (SeenHead(head, peeled, args) + Seen(refs, args.peel), true)
  {
    hide Decode, GoodRef, GoodHead, HeadLines, SeenHead, Seen, Yields, RefLine;
    var first := HeadLines(head, peeled, args);
    var rest := RefLines(refs, args.peel) + [Flush];
    AtMostOne(head, peeled, args);
    NoHeadSeen(head, peeled, args);
    LinesYield(refs, args.peel);
    if first == [] {
      assert Response(head, peeled, refs, args) == rest;
      assert [] + Seen(refs, args.peel) == Seen(refs, args.peel);
    } else {
      HeadDecodes(head, peeled, args);
      assert first == [first[0]];
      assert Response(head, peeled, refs, args) == [first[0]] + rest;
      YieldStep(first[0].payload, Decode(first[0].payload).ref, rest);
    }
    forall i | 0 <= i < |refs|
      ensures RefLines(refs, args.peel)[i].Data?
    {
      RefDecodes(refs[i], args.peel);
    }
  }

  lemma NoHeadSeen(head: Head, peeled: string, args: Args)
    requires args.LsRefs?
    ensures HeadLines(head, peeled, args) == [] ==> SeenHead(head, peeled, args) == []
  {
    hide Spaced;
  }

  /** Some digit of HEAD's id is not a zero. */
  ghost predicate Born(head: Head) {
    !head.unborn && exists i :: 0 <= i < |head.oid| && head.oid[i] != '0'
  }

  /**
   HEAD in the answer: first, when a prefix begins its name, with its id when some digit is not a zero, or as
   unborn when the client asked for that and for targets; its target and its peel only when asked for.
   */
  lemma {:induction false} HeadAnswered(head: Head, peeled: string, refs: seq<RefEntry>, args: Args)
    requires args.LsRefs? && GoodHead(head, peeled)
    requires forall i :: 0 <= i < |refs| ==> GoodRef(refs[i])
    ensures var r := Yields(Response(head, peeled, refs, args));
      var first :=
        if !SomeBegins(args.prefixes, "HEAD") then []
        else if Born(head) then
          [RawRef(head.oid, "HEAD", if args.peel then peeled else "", if args.symrefs then head.symref else "", false)]
        else if head.unborn && args.unborn && args.symrefs then [RawRef("", "HEAD", "", head.symref, true)]
        else [];
      r.1 && r.0 == first + seq(|refs|, i requires 0 <= i < |refs| =>
        RawRef(refs[i].oid, refs[i].name, if args.peel then refs[i].peeled else "", "", false))
  {
    AdmitsIs(args.prefixes, "HEAD");
    assert IsOid(head.oid);
    assert IsZero(head.oid) <==> !exists i :: 0 <= i < |head.oid| && head.oid[i] != '0';
    hide Admits, IsZero, Yields, Response, GoodRef, SomeBegins, GoodHead;
    ResponseRoundTrip(head, peeled, refs, args);
    assert Seen(refs, args.peel) ==
      seq(|refs|, i requires 0 <= i < |refs| =>
            RawRef(refs[i].oid, refs[i].name, if args.peel then refs[i].peeled else "", "", false));
  }

  /** A line the client refuses: an ERR line, and one without a second token. */
  lemma {:induction false} DecodeRefuses(msg: string, tok: string)
    requires IsToken(IsSpace, tok)
    ensures Decode("ERR " + msg + "\n") == Bad && Decode(tok + "\n") == Bad && Decode("\n") == Bad
  {
    TrimLine("ERR " + msg);
    TrimLine(tok);
    TrimLine("");
    assert "ERR " <= "ERR " + msg;
    assert Spaced([tok]) == tok;
    FieldsOfSpaced(IsSpace, [tok]);
    assert "" + "\n" == "\n";
  }

  /** Attributes the client does not know are passed over, of two of a kind the last counts, and unborn has no peel. */
  lemma {:induction false} AttributesRead(ref: RawRef, more: seq<string>, tok: string)
    ensures !("peeled:" <= tok) && !("symref-target:" <= tok) ==>
      WithAttributes(ref, more + [tok]) == WithAttributes(ref, more)
    ensures "symref-target:" <= tok ==>
      WithAttributes(ref, more + [tok]) == WithAttributes(ref, more).(symref := tok[14..])
    ensures "peeled:" <= tok && !ref.unborn ==>
      WithAttributes(ref, more + [tok]) == WithAttributes(ref, more).(peeled := tok[7..])
    ensures "peeled:" <= tok && ref.unborn ==> WithAttributes(ref, more + [tok]) == WithAttributes(ref, more)
  {
    TwoAttributes(ref, more, [tok]);
    OneAttribute(WithAttributes(ref, more), tok);
    KeepsUnborn(ref, more);
    assert "peeled:"[0] == 'p' && "symref-target:"[0] == 's';
  }

  lemma {:induction false} KeepsUnborn(ref: RawRef, more: seq<string>)
    ensures WithAttributes(ref, more).unborn == ref.unborn
    decreases |more|
  {
    if more != [] {
      KeepsUnborn(if !ref.unborn && "peeled:" <= more[0] then ref.(peeled := more[0][7..])
                  else if "symref-target:" <= more[0] then ref.(symref := more[0][14..])
                  else ref, more[1..]);
    }
  }

  /** Lines to the letter. */
  lemma {:induction false} Letters()
    ensures RefLine(RefEntry("n", "0a", "1b"), true) == Data("0a n " + "peeled:1b" + "\n")
    ensures RefLine(RefEntry("n", "0a", "1b"), false) == Data("0a n" + "\n")
    ensures HeadLines(Head.Head("00", "x", true), "", LsRefs(false, true, true, [])) ==
      [Data("unborn HEAD " + "symref-target:x" + "\n")]
  {
    assert ["0a", "n"] + ["peeled:" + "1b"] == ["0a", "n", "peeled:" + "1b"] && ["0a", "n"] + [] == ["0a", "n"];
    assert "peeled:" + "1b" == "peeled:1b" && "symref-target:" + "x" == "symref-target:x";
    SpacedThree("0a", "n", "peeled:1b");
    SpacedThree("unborn", "HEAD", "symref-target:x");
    assert "0a" + " " + "n" == "0a n" && "unborn" + " " + "HEAD" == "unborn HEAD";
    assert "0a n" + " " == "0a n " && "unborn HEAD" + " " == "unborn HEAD ";
  }

  lemma SpacedThree(x: string, y: string, z: string)
    ensures Spaced([x, y, z]) == x + " " + y + " " + z && Spaced([x, y]) == x + " " + y
  {
    var three, two := [x, y, z], [y, z];
    assert three[1..] == two && two[1..] == [z] && [x, y][1..] == [y];
    assert Spaced(two) == y + " " + Spaced([z]) && Spaced(three) == x + " " + Spaced(two);
    assert x + " " + (y + " " + z) == x + " " + y + " " + z;
  }

  /** Nothing but the admitted refs, and all of them. */
  lemma {:induction false} AdmittedExactly(prefixes: seq<string>, refs: seq<RefEntry>, r: RefEntry)
    ensures multiset(Admitted(prefixes, refs))[r] ==
      if SomeBegins(prefixes, r.name) then multiset(refs)[r] else 0
  {
    AdmitsIs(prefixes, r.name);
    hide Admits, SomeBegins;
    if refs != [] {
      var last := refs[|refs| - 1];
      AdmittedExactly(prefixes, refs[..|refs| - 1], r);
      assert refs == refs[..|refs| - 1] + [last];
    }
  }
}
