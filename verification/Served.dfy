/** A v2 session between the repository's own server, over one store, and its own client: what the calls bring back. */
module Served {
  import opened Pktline
  import opened Refs
  import opened Request
  import opened Session
  import opened WireText
  import Listing = LsRefs
  import Info = ObjectInfo
  import Bytes

  /** HEAD with what it peels to, the refs in any order, the length of an id in hex, and the objects. */
  datatype Store = Store(head: Head, peeled: string, refs: seq<RefEntry>, n: nat, lookup: string -> Info.Lookup)

  // ---------------------------------------------------------------- honest steps

  ghost predicate IsListing(store: Store, args: Args, sorted: seq<RefEntry>, ps: seq<Packet>)
    requires args.LsRefs?
  {
    && Sorts(sorted, Listing.Admitted(args.prefixes, store.refs))
    && ps == Listing.Response(store.head, store.peeled, sorted, args)
  }

  /** The full response to args: the admitted refs in byte order, or the rows. */
  ghost predicate Full(store: Store, args: Args, ps: seq<Packet>) {
    match args
    case LsRefs(_, _, _, _) => exists sorted :: IsListing(store, args, sorted, ps)
    case ObjectInfo(size, oids) => ps == Info.Respond(oids, store.n, size, store.lookup)
  }

  /** Some row ends the server's session. */
  ghost predicate Fatal(store: Store, args: Args) {
    args.ObjectInfo? &&
    exists i :: 0 <= i < |args.oids| && Info.EmitRow(args.oids[i], store.n, args.size, store.lookup).fatal
  }

  /** What both WriteResponse methods send: all of it, or the packets before the first that does not fit. */
  ghost predicate Serves(store: Store, args: Args, out: seq<Packet>, ending: Ending) {
    && (!ending.Broken? ==> (ending.Refused? <==> Fatal(store, args)))
    && exists full :: Full(store, args, full) && SendsOf(full, !ending.Broken?, out)
  }

  /** The client's decoder accepts the response. */
  ghost predicate Decodes(args: Args, ps: seq<Packet>) {
    if args.LsRefs? then Listing.Yields(ps).1 else Info.Decode(ps).Ok?
  }

  /** The server answers from the store, and the client takes a packet exactly when its decoder does. */
  ghost predicate Honest(store: Store, st: State, step: Step) {
    match step
    case Answer(lines, ending) =>
      st.peer.Computing? ==> Serves(store, st.peer.args, Response(lines, ending), ending)
    case Deliver(decodes, _) =>
      st.client.Receiving? && st.peer.Writing? && st.peer.out != [] ==>
        (decodes <==> Decodes(st.client.args, st.client.got + [st.peer.out[0]] + [Flush]))
    case _ => true
  }

  ghost predicate HonestRun(store: Store, caps: Caps, program: seq<Args>, st: State, steps: seq<Step>)
    decreases |steps|
  {
    steps == [] ||
    (&& Honest(store, st, steps[0]) && Session.Next(caps, program, st, steps[0]).Some?
     && HonestRun(store, caps, program, Session.Next(caps, program, st, steps[0]).value, steps[1..]))
  }

  // ---------------------------------------------------------------- what every honest step keeps

  ghost predicate Answered(store: Store, e: Exchange) {
    exists ending :: Serves(store, e.args, e.response, ending)
  }

  /** The arguments are those of some call made so far. */
  ghost predicate Asked(caps: Caps, program: seq<Args>, args: Args, issued: nat)
    requires issued <= |program|
  {
    exists j :: 0 <= j < issued && args == Sent(caps, program[j])
  }

  ghost predicate ClientKeeps(caps: Caps, program: seq<Args>, st: State)
    requires st.issued <= |program|
  {
    match st.client
    case Sending(args, _) => Asked(caps, program, args, st.issued)
    case Receiving(args, got) => Asked(caps, program, args, st.issued) && Decodes(args, got + [Flush])
    case Draining(args, _) => Asked(caps, program, args, st.issued) && args.LsRefs?
    case _ => true
  }

  ghost predicate Finished(caps: Caps, program: seq<Args>, e: Exchange, issued: nat)
    requires issued <= |program|
  {
    Asked(caps, program, e.args, issued) && (e.args.ObjectInfo? ==> Decodes(e.args, e.response))
  }

  ghost predicate Keeps(store: Store, caps: Caps, program: seq<Args>, st: State) {
    && st.issued <= |program| && ClientKeeps(caps, program, st)
    && (forall i :: 0 <= i < |st.answers| ==> Answered(store, st.answers[i]))
    && (forall i :: 0 <= i < |st.finished| ==> Finished(caps, program, st.finished[i], st.issued))
  }

  lemma AskedLater(caps: Caps, program: seq<Args>, args: Args, issued: nat, more: nat)
    requires issued <= more <= |program| && Asked(caps, program, args, issued)
    ensures Asked(caps, program, args, more)
  {
    hide Sent;
  }

  lemma NothingDecodes(args: Args)
    ensures Decodes(args, [] + [Flush])
  {
    assert [] + [Flush] == [Flush];
  }

  lemma IssueKeeps(store: Store, caps: Caps, program: seq<Args>, st: State)
    requires Keeps(store, caps, program, st) && Session.Next(caps, program, st, Issue).Some?
    ensures Keeps(store, caps, program, Session.Next(caps, program, st, Issue).value)
  {
    hide Sent, Encode, Asked, Answered, Decodes;
    var next := Session.Next(caps, program, st, Issue).value;
    forall i | 0 <= i < |next.finished|
      ensures Finished(caps, program, next.finished[i], next.issued)
    {
      AskedLater(caps, program, next.finished[i].args, st.issued, next.issued);
    }
    assert Asked(caps, program, Sent(caps, program[st.issued]), next.issued) by { AskedNow(caps, program, st.issued); }
  }

  lemma AskedNow(caps: Caps, program: seq<Args>, j: nat)
    requires j < |program|
    ensures Asked(caps, program, Sent(caps, program[j]), j + 1)
  {
    hide Sent;
  }

  lemma DeliverKeeps(store: Store, caps: Caps, program: seq<Args>, st: State, decodes: bool, stop: bool)
    requires Keeps(store, caps, program, st) && Honest(store, st, Deliver(decodes, stop))
    requires Session.Next(caps, program, st, Deliver(decodes, stop)).Some?
    ensures Keeps(store, caps, program, Session.Next(caps, program, st, Deliver(decodes, stop)).value)
  {
    hide Sent, Encode, Asked, Answered, Decodes, Settle;
    var next := Session.Next(caps, program, st, Deliver(decodes, stop)).value;
    var e := Exchange(st.client.args, st.client.got + [st.peer.out[0]]);
    assert next.finished == st.finished || (next.finished == st.finished + [e] && st.peer.out[0] == Flush);
  }

  lemma StepKeeps(store: Store, caps: Caps, program: seq<Args>, st: State, step: Step)
    requires Keeps(store, caps, program, st) && Honest(store, st, step) && Session.Next(caps, program, st, step).Some?
    ensures Keeps(store, caps, program, Session.Next(caps, program, st, step).value)
  {
    hide Sent, Encode, Asked, Answered, Decodes, Settle, Feed, Fits, Response, Serves;
    match step
    case Issue => IssueKeeps(store, caps, program, st);
    case Deliver(decodes, stop) => DeliverKeeps(store, caps, program, st, decodes, stop);
    case Transfer => NothingDecodes(st.client.args);
    case Answer(lines, ending) =>
      var next := Session.Next(caps, program, st, step).value;
      var e := Exchange(st.peer.args, Response(lines, ending));
      assert Answered(store, e) by { AnsweredBy(store, e, ending); }
      assert next.answers == st.answers + [e];
    case _ =>
  }

  lemma AnsweredBy(store: Store, e: Exchange, ending: Ending)
    requires Serves(store, e.args, e.response, ending)
    ensures Answered(store, e)
  {
    hide Serves;
  }

  lemma {:induction false} HonestRunKeeps(store: Store, caps: Caps, program: seq<Args>, st: State, steps: seq<Step>)
    requires Keeps(store, caps, program, st) && HonestRun(store, caps, program, st, steps)
    ensures Run(caps, program, st, steps).Some? && Keeps(store, caps, program, Run(caps, program, st, steps).value)
    decreases |steps|
  {
    hide Session.Next, Keeps, Honest;
    if steps != [] {
      StepKeeps(store, caps, program, st, steps[0]);
      HonestRunKeeps(store, caps, program, Session.Next(caps, program, st, steps[0]).value, steps[1..]);
    }
  }

  // ---------------------------------------------------------------- what the calls bring back

  ghost predicate GoodStore(store: Store) {
    && Listing.GoodHead(store.head, store.peeled) && (forall i :: 0 <= i < |store.refs| ==> GoodRef(store.refs[i]))
    && (store.n == 40 || store.n == 64) && forall oid :: store.lookup(oid).Hit? ==> store.lookup(oid).size < Bytes.U63
  }

  /**
   The refs a listing shows, or what the ids asked for show; a first id in upper case asked for without its size
   is lost.
   */
  ghost predicate Shows(store: Store, args: Args, response: seq<Packet>) {
    match args
    case LsRefs(_, _, _, prefixes) =>
      exists sorted :: Sorts(sorted, Listing.Admitted(prefixes, store.refs)) && ShowsRefs(store, args, sorted, response)
    case ObjectInfo(size, oids) =>
      && Info.AllAnswerable(oids, store.n, store.lookup)
      && Info.Decode(response) == Info.Ok(
          if size || oids == [] || Info.LowerHex(oids[0]) then Info.Seen(oids, size, store.lookup)
          else Info.Seen(oids[1..], false, store.lookup))
  }

  ghost predicate ShowsRefs(store: Store, args: Args, sorted: seq<RefEntry>, response: seq<Packet>)
    requires args.LsRefs?
  {
    Listing.Yields(response) ==
      (Listing.SeenHead(store.head, store.peeled, args) + Listing.Seen(sorted, args.peel), true)
  }

  lemma {:induction false} AdmittedAreGood(prefixes: seq<string>, refs: seq<RefEntry>)
    requires forall i :: 0 <= i < |refs| ==> GoodRef(refs[i])
    ensures forall r :: r in multiset(Listing.Admitted(prefixes, refs)) ==> GoodRef(r)
  {
    hide GoodRef, Listing.Admits;
    if refs != [] {
      AdmittedAreGood(prefixes, refs[..|refs| - 1]);
    }
  }

  lemma ListingIsGood(store: Store, args: Args, sorted: seq<RefEntry>, ps: seq<Packet>)
    requires GoodStore(store) && args.LsRefs? && IsListing(store, args, sorted, ps)
    ensures FlushEnds(ps) && ShowsRefs(store, args, sorted, ps)
  {
    hide GoodRef, Listing.GoodHead, Listing.Response, Listing.Admitted, Listing.Yields;
    AdmittedAreGood(args.prefixes, store.refs);
    forall i | 0 <= i < |sorted|
      ensures GoodRef(sorted[i])
    {
      assert sorted[i] in multiset(sorted);
    }
    Listing.ResponseRoundTrip(store.head, store.peeled, sorted, args);
  }

  /** A full response is flush-terminated; the decoder accepts it unless some id is malformed or some object corrupt. */
  lemma FullShows(store: Store, args: Args, ps: seq<Packet>)
    requires GoodStore(store) && Full(store, args, ps)
    ensures FlushEnds(ps)
    ensures args.LsRefs? || Info.AllAnswerable(args.oids, store.n, store.lookup) ==> Decodes(args, ps)
    ensures Decodes(args, ps) ==> Shows(store, args, ps)
  {
    hide IsListing, Listing.GoodHead, Listing.Yields, ShowsRefs, Info.Respond, Info.Decode, Info.Seen,
      Info.AllAnswerable, Info.LowerHex;
    if args.LsRefs? {
      var sorted :| IsListing(store, args, sorted, ps);
      ListingIsGood(store, args, sorted, ps);
      assert Sorts(sorted, Listing.Admitted(args.prefixes, store.refs)) by { ListingSorts(store, args, sorted, ps); }
      assert Listing.Yields(ps).1 by { ShownDecodes(store, args, sorted, ps); }
    } else {
      Info.InfoRoundTrip(args.oids, store.n, args.size, store.lookup);
    }
  }

  lemma ListingSorts(store: Store, args: Args, sorted: seq<RefEntry>, ps: seq<Packet>)
    requires args.LsRefs? && IsListing(store, args, sorted, ps)
    ensures Sorts(sorted, Listing.Admitted(args.prefixes, store.refs))
  {
  }

  lemma ShownDecodes(store: Store, args: Args, sorted: seq<RefEntry>, ps: seq<Packet>)
    requires args.LsRefs? && ShowsRefs(store, args, sorted, ps)
    ensures Listing.Yields(ps).1
  {
    hide Listing.Yields;
  }

  /** What was sent and ends in its flush is the full response. */
  lemma FlushedIsFull(store: Store, args: Args, out: seq<Packet>, ending: Ending)
    requires GoodStore(store) && Serves(store, args, out, ending) && FlushEnds(out)
    ensures Full(store, args, out)
  {
    hide Full, GoodStore, Fatal, AllFit;
    var full :| Full(store, args, full) && SendsOf(full, !ending.Broken?, out);
    FullShows(store, args, full);
  }

  /**
   In every run of calls that fit against an honest server, stopped anywhere: each finished command carried
   the arguments of some call, and brought back exactly what the store shows of them, unless the server ended
   inside a response that the caller had stopped reading.
   */
  lemma {:induction false} EachShowsTheStore(store: Store, caps: Caps, program: seq<Args>, steps: seq<Step>)
    requires GoodStore(store) && Safe(caps, program) && HonestRun(store, caps, program, Start, steps)
    ensures Run(caps, program, Start, steps).Some?
    ensures var st := Run(caps, program, Start, steps).value;
      && st.issued <= |program|
      && (forall i :: 0 <= i < |st.finished| ==> Asked(caps, program, st.finished[i].args, st.issued))
      && (forall i :: 0 <= i < |st.finished| && FlushEnds(st.finished[i].response) ==>
            Shows(store, st.finished[i].args, st.finished[i].response))
      && (forall i :: 0 <= i < |st.finished| - 1 ==> FlushEnds(st.finished[i].response))
  {
    hide Run, Session.Next, HonestRun, Asked, Serves, Full, Shows, Decodes, FlushEnds, GoodStore, Safe;
    HonestRunKeeps(store, caps, program, Start, steps);
    EachReadsItsOwn(caps, program, steps);
    var st := Run(caps, program, Start, steps).value;
    forall i | 0 <= i < |st.finished| && FlushEnds(st.finished[i].response)
      ensures Shows(store, st.finished[i].args, st.finished[i].response)
    {
      var e := st.finished[i];
      assert st.answers[i] == e && Answered(store, e);
      var ending :| Serves(store, e.args, e.response, ending);
      FlushedIsFull(store, e.args, e.response, ending);
      FullShows(store, e.args, e.response);
      assert Finished(caps, program, e, st.issued);
      ListedDecodes(store, e);
    }
  }

  lemma ListedDecodes(store: Store, e: Exchange)
    requires GoodStore(store) && Full(store, e.args, e.response)
    ensures e.args.LsRefs? ==> Decodes(e.args, e.response)
  {
    hide Full, Decodes, GoodStore;
    FullShows(store, e.args, e.response);
  }

  // ---------------------------------------------------------------- when no call kills the session

  lemma {:induction false} YieldsPrefix(a: seq<Packet>, b: seq<Packet>)
    requires (forall i :: 0 <= i < |a| ==> a[i].Data?) && Listing.Yields(a + b).1
    ensures Listing.Yields(a + [Flush]).1 && forall i :: 0 <= i < |a| ==> !IsErr(a[i].payload)
    decreases |a|
  {
    hide Listing.Decode;
    if a == [] {
      assert a + [Flush] == [Flush];
    } else {
      assert (a + b)[0] == a[0] && (a + b)[1..] == a[1..] + b && (a + [Flush])[1..] == a[1..] + [Flush];
      YieldsPrefix(a[1..], b);
      RefIsNotErr(a[0].payload);
    }
  }

  lemma ErrTrimmed(payload: string)
    ensures IsErr(payload) ==> "ERR " <= TrimLf(payload)
  {
  }

  lemma RefIsNotErr(payload: string)
    ensures Listing.Decode(payload).Ref? ==> !IsErr(payload)
  {
    hide Listing.WithAttributes, Fields;
    ErrTrimmed(payload);
  }

  lemma RowIsNotErr(payload: string, size: bool)
    ensures !Info.DecodeRow(payload, size).Malformed? ==> !IsErr(payload)
  {
    hide Info.ParseRow;
    ErrTrimmed(payload);
  }

  lemma {:induction false} RowsPrefix(infos: seq<Info.Info>, size: bool, a: seq<Packet>, b: seq<Packet>)
    requires (forall i :: 0 <= i < |a| ==> a[i].Data?) && Info.DecodeRows(infos, size, a + b).Ok?
    ensures Info.DecodeRows(infos, size, a + [Flush]).Ok? && forall i :: 0 <= i < |a| ==> !IsErr(a[i].payload)
    decreases |a|
  {
    hide Info.DecodeRow, Info.Append;
    if a == [] {
      assert a + [Flush] == [Flush];
    } else {
      assert (a + b)[0] == a[0] && (a + b)[1..] == a[1..] + b && (a + [Flush])[1..] == a[1..] + [Flush];
      RowIsNotErr(a[0].payload, size);
      RowsPrefix(Info.Append(infos, Info.DecodeRow(a[0].payload, size)), size, a[1..], b);
    }
  }

  lemma {:induction false} InfoPrefix(a: seq<Packet>, b: seq<Packet>)
    requires (forall i :: 0 <= i < |a| ==> a[i].Data?) && Info.Decode(a + b).Ok?
    ensures Info.Decode(a + [Flush]).Ok? && forall i :: 0 <= i < |a| ==> !IsErr(a[i].payload)
  {
    hide Info.DecodeRows, Info.LooksLikeRow, Info.ParseRow, Fields, Info.Append;
    if a == [] {
      assert a + [Flush] == [Flush];
    } else {
      var line, rest := TrimLf(a[0].payload), a[1..];
      assert (a + b)[0] == a[0] && (a + b)[1..] == rest + b && (a + [Flush])[1..] == rest + [Flush];
      ErrTrimmed(a[0].payload);
      if Info.LooksLikeRow(line) {
        RowsPrefix(Info.Append([], Info.ParseRow(line, false)), false, rest, b);
      } else {
        RowsPrefix([], "size" in Fields(IsSpace, line), rest, b);
      }
    }
  }

  /** A decoder that accepts a whole response accepts it up to every packet, none of which is an ERR. */
  lemma DecodesPrefix(args: Args, a: seq<Packet>, b: seq<Packet>)
    requires (forall i :: 0 <= i < |a| ==> a[i].Data?) && Decodes(args, a + b)
    ensures Decodes(args, a + [Flush]) && forall i :: 0 <= i < |a| ==> !IsErr(a[i].payload)
  {
    hide Listing.Yields, Info.Decode, IsErr;
    if args.LsRefs? {
      YieldsPrefix(a, b);
    } else {
      InfoPrefix(a, b);
    }
  }

  /** The server can answer: every packet of the response fits, the ids parse and no object asked for is corrupt. */
  ghost predicate Servable(store: Store, args: Args) {
    && (forall full :: Full(store, args, full) ==> AllFit(full))
    && (args.ObjectInfo? ==> Info.AllAnswerable(args.oids, store.n, store.lookup))
  }

  ghost predicate AllServable(store: Store, caps: Caps, program: seq<Args>) {
    forall j :: 0 <= j < |program| ==> Servable(store, Sent(caps, program[j]))
  }

  lemma AskedServable(store: Store, caps: Caps, program: seq<Args>, args: Args, issued: nat)
    requires AllServable(store, caps, program) && issued <= |program| && Asked(caps, program, args, issued)
    ensures Servable(store, args)
  {
    hide Servable, Sent;
  }

  /** No fatal row stands among answerable ids. */
  lemma AnswerableIsNotFatal(store: Store, args: Args)
    requires args.ObjectInfo? ==> Info.AllAnswerable(args.oids, store.n, store.lookup)
    ensures !Fatal(store, args)
  {
    hide ParsesAsId;
  }

  /** An honest answer to a servable request is the full response, and the server goes on. */
  lemma ServedInFull(store: Store, args: Args, out: seq<Packet>, ending: Ending)
    requires GoodStore(store) && Servable(store, args) && Serves(store, args, out, ending)
    ensures ending.Complete? && Full(store, args, out)
  {
    hide Full, GoodStore, Fatal, Info.AllAnswerable, AllFit;
    AnswerableIsNotFatal(store, args);
  }

  /** Every answer was full, and the server is there while the client reads. */
  ghost predicate Alive(store: Store, st: State) {
    && !st.client.Dead?
    && (forall i :: 0 <= i < |st.answers| ==> Full(store, st.answers[i].args, st.answers[i].response))
    && (st.client.Receiving? || st.client.Draining? ==> !st.peer.Gone?)
    && (st.peer.Writing? ==> st.peer.after == Idle)
  }

  lemma DeliverAlive(store: Store, caps: Caps, program: seq<Args>, st: State, decodes: bool, stop: bool)
    requires GoodStore(store) && AllServable(store, caps, program) && CapsFit(caps) && Inv(caps, program, st)
    requires Keeps(store, caps, program, st) && Alive(store, st) && Honest(store, st, Deliver(decodes, stop))
    requires Session.Next(caps, program, st, Deliver(decodes, stop)).Some?
    ensures Alive(store, Session.Next(caps, program, st, Deliver(decodes, stop)).value)
  {
    hide GoodStore, AllServable, CapsFit, Asked, Answered, Full, Decodes, Finished, IsErr, Servable, Settle;
    var args, got, out := st.client.args, st.client.got, st.peer.out;
    assert st.answers[|st.answers| - 1] == Exchange(args, got + out);
    AskedServable(store, caps, program, args, st.issued);
    NextIsAccepted(store, args, got, out);
    WrittenAlive(out[1..]);
  }

  /** The next packet of a full response is a flush, or data the decoder takes. */
  lemma NextIsAccepted(store: Store, args: Args, got: seq<Packet>, out: seq<Packet>)
    requires GoodStore(store) && Servable(store, args) && out != [] && Full(store, args, got + out)
    ensures out[0].Flush? || (out[0].Data? && !IsErr(out[0].payload) && Decodes(args, got + [out[0]] + [Flush]))
  {
    hide GoodStore, Full, Decodes, IsErr, Servable, Shows, Info.AllAnswerable;
    var whole, a := got + out, got + [out[0]];
    FullShows(store, args, whole);
    assert whole[|got|] == out[0];
    if !out[0].Flush? {
      ServableDecodes(store, args, whole);
      assert whole == a + out[1..];
      DataBefore(whole, a, out[1..]);
      DecodesPrefix(args, a, out[1..]);
      assert a[|got|] == out[0];
    }
  }

  lemma WrittenAlive(out: seq<Packet>)
    ensures var peer := Written(out, Idle); !peer.Gone? && (peer.Writing? ==> peer.after == Idle)
  {
  }

  lemma ServableDecodes(store: Store, args: Args, ps: seq<Packet>)
    requires GoodStore(store) && Servable(store, args) && Full(store, args, ps)
    ensures Decodes(args, ps)
  {
    hide GoodStore, Full, Decodes, Info.AllAnswerable;
    FullShows(store, args, ps);
  }

  lemma DataBefore(whole: seq<Packet>, a: seq<Packet>, b: seq<Packet>)
    requires whole == a + b && FlushEnds(whole) && a != [] && a[|a| - 1].Data?
    ensures forall i :: 0 <= i < |a| ==> a[i].Data?
  {
    assert forall i :: 0 <= i < |a| ==> whole[i] == a[i];
  }

  lemma StepAlive(store: Store, caps: Caps, program: seq<Args>, st: State, step: Step)
    requires GoodStore(store) && AllServable(store, caps, program) && CapsFit(caps) && Inv(caps, program, st)
    requires Keeps(store, caps, program, st) && Alive(store, st) && Honest(store, st, step)
    requires Session.Next(caps, program, st, step).Some?
    ensures Alive(store, Session.Next(caps, program, st, step).value)
  {
    hide GoodStore, AllServable, CapsFit, Asked, Answered, Full, Decodes, Finished, Encode, Sent, Feed, Fits, Response,
      Serves, Servable;
    match step
    case Deliver(decodes, stop) => DeliverAlive(store, caps, program, st, decodes, stop);
    case Transfer => TransferAlive(caps, program, st);
    case Answer(lines, ending) =>
      AskedServable(store, caps, program, st.peer.args, st.issued);
      ServedInFull(store, st.peer.args, Response(lines, ending), ending);
      FullNotEmpty(store, st.peer.args, Response(lines, ending));
    case _ =>
  }

  lemma FullNotEmpty(store: Store, args: Args, ps: seq<Packet>)
    requires GoodStore(store) && Full(store, args, ps)
    ensures ps != []
  {
    hide GoodStore, Full;
    FullShows(store, args, ps);
  }

  /** While a request passes the server only reads, and then computes. */
  lemma TransferAlive(caps: Caps, program: seq<Args>, st: State)
    requires CapsFit(caps) && Inv(caps, program, st) && Session.Next(caps, program, st, Transfer).Some?
    ensures var peer := Session.Next(caps, program, st, Transfer).value.peer; peer.Waiting? || peer.Computing?
  {
    hide CapsFit, Feed, Fits;
    var rest := st.client.rest;
    assert Reaches(Feed(st.peer.s, rest[0]), rest[1..], Answering(st.client.args));
  }

  lemma {:induction false} RunAlive(store: Store, caps: Caps, program: seq<Args>, st: State, steps: seq<Step>)
    requires GoodStore(store) && AllServable(store, caps, program) && Safe(caps, program) && CapsFit(caps)
    requires Inv(caps, program, st) && Keeps(store, caps, program, st) && Alive(store, st)
    requires HonestRun(store, caps, program, st, steps)
    ensures Run(caps, program, st, steps).Some? && Alive(store, Run(caps, program, st, steps).value)
    decreases |steps|
  {
    hide Session.Next, Keeps, Honest, Inv, Alive, GoodStore, AllServable, Safe, CapsFit;
    if steps != [] {
      StepKeeps(store, caps, program, st, steps[0]);
      StepInStep(caps, program, st, steps[0]);
      StepAlive(store, caps, program, st, steps[0]);
      RunAlive(store, caps, program, Session.Next(caps, program, st, steps[0]).value, steps[1..]);
    }
  }

  /**
   When every call can be served, no call kills the session and every finished one, early stopped or not, was
   answered in full.
   */
  lemma {:induction false} ServableNeverDies(store: Store, caps: Caps, program: seq<Args>, steps: seq<Step>)
    requires GoodStore(store) && AllServable(store, caps, program) && Safe(caps, program)
    requires HonestRun(store, caps, program, Start, steps)
    ensures Run(caps, program, Start, steps).Some?
    ensures var st := Run(caps, program, Start, steps).value;
      && !st.client.Dead?
      && forall i :: 0 <= i < |st.finished| ==>
          FlushEnds(st.finished[i].response) && Shows(store, st.finished[i].args, st.finished[i].response)
  {
    hide Run, Session.Next, HonestRun, AllServable, Full, Shows, FlushEnds, GoodStore, Safe;
    EachShowsTheStore(store, caps, program, steps);
    EachReadsItsOwn(caps, program, steps);
    var st := Run(caps, program, Start, steps).value;
    if CapsFit(caps) {
      RunAlive(store, caps, program, Start, steps);
      forall i | 0 <= i < |st.finished|
        ensures FlushEnds(st.finished[i].response)
      {
        assert st.answers[i] == st.finished[i];
        FullShows(store, st.finished[i].args, st.finished[i].response);
      }
    } else {
      RunKeeps(caps, program, Start, steps);
    }
  }
}
