/**
 A v2 session over unbuffered pipes: the client's calls and the server's command loop as two processes
 that meet packet by packet.
 */
module Session {
  import opened Options
  import opened Pktline
  import opened Request
  import opened WireText

  /** One command: its arguments, and every packet of its response. */
  datatype Exchange = Exchange(args: Args, response: seq<Packet>)

  datatype Client =
    | Ready                                          // no call is running
    | Sending(args: Args, rest: seq<Packet>)         // writing the request
    | Receiving(args: Args, got: seq<Packet>)        // decoding the response
    | Draining(args: Args, got: seq<Packet>)         // the caller stopped the iterator early
    | Dead                                           // markDead has closed the connection

  datatype Peer =
    | Waiting(s: Server)                             // blocked reading a request
    | Computing(args: Args)                          // the request is complete
    | Writing(out: seq<Packet>, after: Server)       // blocked writing
    | Gone                                           // the serving goroutine has ended

  /**
   issued counts the calls made; wire the packets the client has put on the pipe; finished holds what each
   finished command read, and answers what the server wrote for each request it understood.
   */
  datatype State = State(client: Client, peer: Peer, issued: nat, wire: nat, finished: seq<Exchange>,
                         answers: seq<Exchange>)

  const Start := State(Ready, Waiting(Idle), 0, 0, [], [])

  datatype Step =
    | Issue                                          // the next call of the program
    | Transfer                                       // a request packet passes
    | TooLong                                        // the next request packet does not fit a pkt-line
    | WriteFails                                     // the server has gone
    | Answer(lines: seq<string>, ending: Ending)     // the server decides its response
    | Deliver(decodes: bool, stop: bool)             // a response packet passes
    | ReadFails                                      // the stream ends
    | Hangup                                         // the server ends between requests, or with the connection

  /** How a response ends: with its flush, with ERR and flush and then the server, or with the server alone. */
  datatype Ending = Complete | Refused(msg: string) | Broken

  predicate IsErr(payload: string) {
    "ERR " <= payload
  }

  function DataLines(lines: seq<string>): (ps: seq<Packet>)
    ensures |ps| == |lines| && forall i :: 0 <= i < |ps| ==> ps[i] == Data(lines[i])
  {
    seq(|lines|, i requires 0 <= i < |lines| => Data(lines[i]))
  }

  function Response(lines: seq<string>, ending: Ending): (ps: seq<Packet>) {
    match ending
    case Complete => DataLines(lines) + [Flush]
    case Refused(msg) => DataLines(lines) + [Err(msg), Flush]
    case Broken => DataLines(lines)
  }

  /** What the server does next in state s. */
  function Settle(s: Server): Peer {
    match s
    case Answering(args) => Computing(args)
    case Complaining(msg, args) => if Fits(Err(msg)) then Writing([Err(msg)], ReadingArgs(args)) else Gone
    case Refusing(msg) => if Fits(Err(msg)) then Writing([Err(msg), Flush], Stopped(false)) else Gone
    case Stopped(_) => Gone
    case _ => Waiting(s)
  }

  /** The server after all its output has been read. */
  function Written(out: seq<Packet>, after: Server): Peer {
    if out != [] then Writing(out, after) else Settle(after)
  }

  /** The client after reading packet p of its response. */
  function Read(st: State, p: Packet, decodes: bool, stop: bool): State
    requires st.client.Receiving? || st.client.Draining?
  {
    var args := st.client.args;
    var got := st.client.got + [p];
    if p.Flush? then st.(client := Ready, finished := st.finished + [Exchange(args, got)])
    else if st.client.Draining? then st.(client := Draining(args, got))
    else if !p.Data? || IsErr(p.payload) || !decodes then st.(client := Dead)
    else if stop && args.LsRefs? then st.(client := Draining(args, got))
    else st.(client := Receiving(args, got))
  }

  /** The state after step, when the step is possible. */
  function Next(caps: Caps, program: seq<Args>, st: State, step: Step): Option<State> {
    match step
    case Issue =>
      if st.issued >= |program| then None
      else if st.client.Dead? then Some(st.(issued := st.issued + 1))
      else if st.client.Ready? then
        var args := Sent(caps, program[st.issued]);
        Some(st.(client := Sending(args, Encode(caps, program[st.issued])), issued := st.issued + 1))
      else None
    case Transfer =>
      if !st.client.Sending? || st.client.rest == [] || !Fits(st.client.rest[0]) then None
      else if !st.peer.Waiting? || !Reading(st.peer.s) then None
      else
        var rest := st.client.rest[1..];
        var client := if rest == [] then Receiving(st.client.args, []) else Sending(st.client.args, rest);
        Some(st.(client := client, peer := Settle(Feed(st.peer.s, st.client.rest[0])), wire := st.wire + 1))
    case TooLong =>
      if !st.client.Sending? || st.client.rest == [] || Fits(st.client.rest[0]) then None
      else Some(st.(client := Ready))
    case WriteFails =>
      if !st.client.Sending? || st.client.rest == [] || !Fits(st.client.rest[0]) || !st.peer.Gone? then None
      else Some(st.(client := Ready))
    case Answer(lines, ending) =>
      if !st.peer.Computing? then None
      else
        var out := Response(lines, ending);
        Some(st.(peer := Written(out, if ending.Complete? then Idle else Stopped(false)),
                 answers := st.answers + [Exchange(st.peer.args, out)]))
    case Deliver(decodes, stop) =>
      if !st.client.Receiving? && !st.client.Draining? then None
      else if !st.peer.Writing? || st.peer.out == [] then None
      else Some(Read(st, st.peer.out[0], decodes, stop).(peer := Written(st.peer.out[1..], st.peer.after)))
    case ReadFails =>
      if !st.peer.Gone? then None
      else if st.client.Receiving? then Some(st.(client := Dead))
      else if st.client.Draining? then
        Some(st.(client := Ready, finished := st.finished + [Exchange(st.client.args, st.client.got)]))
      else None
    case Hangup =>
      if st.client.Dead? || st.peer == Waiting(Idle) then Some(st.(peer := Gone)) else None
  }

  function Run(caps: Caps, program: seq<Args>, st: State, steps: seq<Step>): Option<State>
    decreases |steps|
  {
    if steps == [] then Some(st)
    else
      var next := Next(caps, program, st, steps[0]);
      if next == None then None else Run(caps, program, next.value, steps[1..])
  }

  /** Both sides blocked writing: neither will ever be read. */
  predicate BothWriting(st: State) {
    st.client.Sending? && st.client.rest != [] && Fits(st.client.rest[0]) && st.peer.Writing? && st.peer.out != []
  }

  /**
   What one response packet does to the client: a flush finishes the command; behind a caller that stopped,
   anything else is passed over; a packet that is no data, an ERR line or a line that does not decode kills the
   session; a caller may stop ls-refs behind any line.
   */
  lemma Deliveries(caps: Caps, program: seq<Args>, st: State, decodes: bool, stop: bool)
    requires st.client.Receiving? || st.client.Draining?
    requires st.peer.Writing? && st.peer.out != [] && Next(caps, program, st, Deliver(decodes, stop)).Some?
    ensures var next := Next(caps, program, st, Deliver(decodes, stop)).value;
      var p, args, got := st.peer.out[0], st.client.args, st.client.got;
      && (p == Flush ==> next.client == Ready && next.finished == st.finished + [Exchange(args, got + [p])])
      && (p != Flush ==> next.finished == st.finished)
      && (p != Flush && st.client.Draining? ==> next.client == Draining(args, got + [p]))
      && (st.client.Receiving? && (p == Delim || p == ResponseEnd || (p.Data? && ("ERR " <= p.payload || !decodes))) ==>
            next.client == Dead)
      && (st.client.Receiving? && p.Data? && !("ERR " <= p.payload) && decodes ==>
            next.client == if stop && args.LsRefs? then Draining(args, got + [p]) else Receiving(args, got + [p]))
  {
    hide Settle;
  }

  /**
   A request that cannot be written leaves the session as it was before the call. A response that breaks off
   kills it, unless the caller had stopped: then the command counts as finished.
   */
  lemma Failures(caps: Caps, program: seq<Args>, st: State)
    requires st.client.Sending? || st.client.Receiving? || st.client.Draining?
    ensures st.client.Sending? && st.client.rest != [] && Fits(st.client.rest[0]) && st.peer == Gone ==>
      Next(caps, program, st, WriteFails) == Some(st.(client := Ready))
    ensures st.client.Receiving? && st.peer == Gone ==>
      Next(caps, program, st, ReadFails) == Some(st.(client := Dead))
    ensures st.client.Draining? && st.peer == Gone ==>
      Next(caps, program, st, ReadFails) ==
      Some(st.(client := Ready, finished := st.finished + [Exchange(st.client.args, st.client.got)]))
  {
  }

  /** The packets of a response: every line, and then the flush, an ERR line and the flush, or nothing. */
  lemma Responses(lines: seq<string>, msg: string)
    ensures forall ending, i :: 0 <= i < |lines| ==>
      |Response(lines, ending)| >= |lines| && Response(lines, ending)[i] == Data(lines[i])
    ensures Response(lines, Complete)[|lines|..] == [Flush] && Response(lines, Broken)[|lines|..] == []
    ensures Response(lines, Refused(msg))[|lines|..] == [Data("ERR " + msg + "\n"), Flush]
  {
  }

  /** What the server does behind a request packet: it reads on, works out an answer, writes an error, or is gone. */
  lemma Settles(args: Args, msg: string, s: Server)
    ensures Settle(Answering(args)) == Computing(args) && Settle(Stopped(true)) == Settle(Stopped(false)) == Gone
    ensures Settle(Refusing(msg)) ==
      if |"ERR " + msg + "\n"| <= 65516 then Writing([Data("ERR " + msg + "\n"), Flush], Stopped(false)) else Gone
    ensures Settle(Complaining(msg, args)) ==
      if |"ERR " + msg + "\n"| <= 65516 then Writing([Data("ERR " + msg + "\n")], ReadingArgs(args)) else Gone
    ensures Reading(s) ==> Settle(s) == Waiting(s)
  {
  }

  // ---------------------------------------------------------------- when calls are safe

  /** Every line of the request fits a pkt-line: the check of WriteLineParts, made before the call. */
  predicate Encodable(caps: Caps, args: Args) {
    AllFit(Encode(caps, args))
  }

  predicate CapsFit(caps: Caps) {
    AllFit(CapLines(caps))
  }

  /** No call but the last may carry an argument that does not fit, unless not even the capabilities fit. */
  predicate Safe(caps: Caps, program: seq<Args>) {
    !CapsFit(caps) || forall i :: 0 <= i && i + 1 < |program| ==> Encodable(caps, program[i])
  }

  // ---------------------------------------------------------------- the invariant

  ghost predicate PrefixOf(a: seq<Exchange>, b: seq<Exchange>) {
    a <= b
  }

  /** The response being written is the last one answered, and the client has read all of it but out. */
  ghost predicate MidResponse(st: State, args: Args, got: seq<Packet>, out: seq<Packet>) {
    && st.answers == st.finished + [Exchange(args, got + out)]
  }

  ghost predicate InStep(caps: Caps, program: seq<Args>, st: State) {
    match st.client
    case Dead => PrefixOf(st.finished, st.answers)
    case Ready =>
      || (st.peer == Waiting(Idle) && st.finished == st.answers)
      || (st.peer == Gone && st.finished == st.answers)
      || (st.issued == |program| && st.peer.Waiting? && st.finished == st.answers)
    case Sending(args, rest) =>
      && st.finished == st.answers && rest != [] && 1 <= st.issued <= |program|
      && (st.issued < |program| ==> AllFit(rest))
      && (st.peer == Gone || (st.peer.Waiting? && Reaches(st.peer.s, rest, Answering(args))))
    case Receiving(args, got) => Receives(st, args, got)
    case Draining(args, got) => Receives(st, args, got)
  }

  ghost predicate Receives(st: State, args: Args, got: seq<Packet>) {
    match st.peer
    case Computing(a) => a == args && got == [] && st.finished == st.answers
    case Writing(out, after) =>
      && EndsOnce(out, after) && (after == Idle || after == Stopped(false)) && MidResponse(st, args, got, out)
    case Gone => MidResponse(st, args, got, [])
    case Waiting(_) => false
  }

  /** Only the last packet still to come can be a flush, and it is one unless the server is about to end. */
  ghost predicate EndsOnce(out: seq<Packet>, after: Server) {
    && out != [] && (forall i :: 0 <= i < |out| - 1 ==> out[i].Data?)
    && if after == Idle then out[|out| - 1].Flush? else out[|out| - 1].Flush? || out[|out| - 1].Data?
  }

  /** When a capability line does not fit, no request gets past it. */
  ghost predicate StuckInHead(rest: seq<Packet>)
    decreases |rest|
  {
    rest != [] && (Fits(rest[0]) ==> rest[0].Data? && StuckInHead(rest[1..]))
  }

  ghost predicate NeverAnswered(st: State) {
    && (st.client.Ready? || (st.client.Sending? && StuckInHead(st.client.rest)))
    && (st.peer.Gone? || (st.peer.Waiting? && st.peer.s.Head?))
    && st.finished == st.answers == []
  }

  ghost predicate Inv(caps: Caps, program: seq<Args>, st: State) {
    st.issued <= |program| && if CapsFit(caps) then InStep(caps, program, st) else NeverAnswered(st)
  }

  lemma {:induction false} UnfitCapsStick(lines: seq<Packet>, after: seq<Packet>)
    requires !AllFit(lines) && forall i :: 0 <= i < |lines| ==> lines[i].Data?
    ensures StuckInHead(lines + after)
    decreases |lines|
  {
    var all := lines + after;
    if Fits(lines[0]) {
      UnfitCapsStick(lines[1..], after);
      assert all[1..] == lines[1..] + after;
    }
  }

  lemma RequestSticks(caps: Caps, args: Args)
    requires !CapsFit(caps)
    ensures StuckInHead(Encode(caps, args))
  {
    hide ArgLines, StuckInHead;
    var rest := [Delim] + ArgLines(Sent(caps, args)) + [Flush];
    var lines := [Line("command=" + CommandName(args))] + CapLines(caps);
    assert Encode(caps, args) == lines + rest;
    var k :| 0 <= k < |CapLines(caps)| && !Fits(CapLines(caps)[k]);
    assert lines[k + 1] == CapLines(caps)[k];
    UnfitCapsStick(lines, rest);
  }

  lemma StepOnUnfitCaps(caps: Caps, program: seq<Args>, st: State, step: Step)
    requires !CapsFit(caps) && Inv(caps, program, st) && Next(caps, program, st, step).Some?
    ensures Inv(caps, program, Next(caps, program, st, step).value)
  {
    hide CapsFit, Encode, Fits, CutPrefix, Dispatch, TrimLf;
    match step
    case Issue => RequestSticks(caps, program[st.issued]);
    case Transfer => assert StuckInHead(st.client.rest[1..]);
    case _ =>
  }

  lemma StepInStep(caps: Caps, program: seq<Args>, st: State, step: Step)
    requires CapsFit(caps) && Safe(caps, program) && Inv(caps, program, st) && Next(caps, program, st, step).Some?
    ensures Inv(caps, program, Next(caps, program, st, step).value)
  {
    hide Feed, Encode, Fits;
    match step
    case Issue =>
      if st.client.Ready? {
        RequestUnderstood(caps, program[st.issued]);
      }
    case Answer(lines, ending) => AnswerInStep(caps, program, st, lines, ending);
    case Deliver(decodes, stop) => DeliverInStep(caps, program, st, decodes, stop);
    case Transfer => TransferInStep(caps, program, st);
    case ReadFails =>
      if st.client.Draining? {
        assert st.client.got + [] == st.client.got;
      }
    case _ =>
  }

  lemma TransferInStep(caps: Caps, program: seq<Args>, st: State)
    requires CapsFit(caps) && Inv(caps, program, st) && Next(caps, program, st, Transfer).Some?
    ensures Inv(caps, program, Next(caps, program, st, Transfer).value)
  {
    hide Feed, Encode, Fits, CapsFit;
    var rest := st.client.rest;
    var s := Feed(st.peer.s, rest[0]);
    assert Reaches(s, rest[1..], Answering(st.client.args));
    if rest[1..] == [] {
      assert s == Answering(st.client.args);
    } else {
      assert Reading(s);
    }
  }

  lemma ResponseEnds(lines: seq<string>, ending: Ending)
    ensures Response(lines, ending) != [] ==>
      EndsOnce(Response(lines, ending), if ending.Complete? then Idle else Stopped(false))
    ensures ending.Complete? ==> Response(lines, ending) != []
  {
  }

  lemma AnswerInStep(caps: Caps, program: seq<Args>, st: State, lines: seq<string>, ending: Ending)
    requires CapsFit(caps) && Inv(caps, program, st) && Next(caps, program, st, Answer(lines, ending)).Some?
    ensures Inv(caps, program, Next(caps, program, st, Answer(lines, ending)).value)
  {
    hide CapsFit, Response, EndsOnce;
    var out := Response(lines, ending);
    ResponseEnds(lines, ending);
    if st.client.Receiving? || st.client.Draining? {
      assert st.client.got + out == out;
    }
  }

  lemma DeliverInStep(caps: Caps, program: seq<Args>, st: State, decodes: bool, stop: bool)
    requires CapsFit(caps) && Inv(caps, program, st) && Next(caps, program, st, Deliver(decodes, stop)).Some?
    ensures Inv(caps, program, Next(caps, program, st, Deliver(decodes, stop)).value)
  {
    hide CapsFit;
    var got, out := st.client.got, st.peer.out;
    assert got + out == got + [out[0]] + out[1..];
    assert out[0].Flush? ==> |out| == 1 && out == [out[0]];
    assert out[1..] == [] ==> got + [out[0]] == got + [out[0]] + [];
  }

  // ---------------------------------------------------------------- over whole runs

  lemma {:induction false} RunKeeps(caps: Caps, program: seq<Args>, st: State, steps: seq<Step>)
    requires Safe(caps, program) && Inv(caps, program, st) && Run(caps, program, st, steps).Some?
    ensures Inv(caps, program, Run(caps, program, st, steps).value)
    decreases |steps|
  {
    hide Next, Inv, Safe;
    if steps != [] {
      if CapsFit(caps) {
        StepInStep(caps, program, st, steps[0]);
      } else {
        StepOnUnfitCaps(caps, program, st, steps[0]);
      }
      RunKeeps(caps, program, Next(caps, program, st, steps[0]).value, steps[1..]);
    }
  }

  /** A response: data packets and then its flush. */
  ghost predicate FlushEnds(response: seq<Packet>) {
    response != [] && response[|response| - 1].Flush? && forall i :: 0 <= i < |response| - 1 ==> response[i].Data?
  }

  /** Every answer but possibly the last is a complete response; the last is too, unless the server ends with it. */
  ghost predicate Flushed(st: State) {
    && (forall i :: 0 <= i < |st.answers| - 1 ==> FlushEnds(st.answers[i].response))
    && (st.answers != [] && !st.peer.Gone? && !(st.peer.Writing? && st.peer.after.Stopped?) ==>
          FlushEnds(st.answers[|st.answers| - 1].response))
  }

  lemma StepFlushed(caps: Caps, program: seq<Args>, st: State, step: Step)
    requires Flushed(st) && Next(caps, program, st, step).Some?
    ensures Flushed(Next(caps, program, st, step).value)
  {
    hide Feed, Encode, Fits;
  }

  lemma {:induction false} RunFlushed(caps: Caps, program: seq<Args>, st: State, steps: seq<Step>)
    requires Flushed(st) && Run(caps, program, st, steps).Some?
    ensures Flushed(Run(caps, program, st, steps).value)
    decreases |steps|
  {
    hide Next, Flushed;
    if steps != [] {
      StepFlushed(caps, program, st, steps[0]);
      RunFlushed(caps, program, Next(caps, program, st, steps[0]).value, steps[1..]);
    }
  }

  /**
   In every run of calls that fit, stopped anywhere: the two sides are never both writing, and every
   finished command read exactly the packets the server wrote for exactly its arguments, up to and with
   their one flush; only a response the server died in can lack it.
   */
  lemma EachReadsItsOwn(caps: Caps, program: seq<Args>, steps: seq<Step>)
    requires Safe(caps, program) && Run(caps, program, Start, steps).Some?
    ensures var st := Run(caps, program, Start, steps).value;
      && !BothWriting(st)
      && st.finished <= st.answers
      && (st.client.Ready? ==> st.finished == st.answers)
      && (forall i :: 0 <= i < |st.finished| - 1 ==> FlushEnds(st.finished[i].response))
      && (st.finished != [] && st.peer == Waiting(Idle) ==> FlushEnds(st.finished[|st.finished| - 1].response))
  {
    hide Next, Run, Feed, FlushEnds;
    RunKeeps(caps, program, Start, steps);
    RunFlushed(caps, program, Start, steps);
  }

  /** After markDead no call puts another packet on the pipe or reads one. */
  lemma {:induction false} DeadIssuesNothing(caps: Caps, program: seq<Args>, st: State, steps: seq<Step>)
    requires st.client.Dead? && Run(caps, program, st, steps).Some?
    ensures var last := Run(caps, program, st, steps).value;
      last.client.Dead? && last.wire == st.wire && last.finished == st.finished
    decreases |steps|
  {
    hide Feed, Encode, Fits, Settle, Response;
    if steps != [] {
      DeadIssuesNothing(caps, program, Next(caps, program, st, steps[0]).value, steps[1..]);
    }
  }

  // ---------------------------------------------------------------- every call finishes

  predicate Busy(st: State) {
    st.client.Sending? || st.client.Receiving? || st.client.Draining?
  }

  /** How much of the current call is left: request packets, then the answer, then response packets. */
  function Left(st: State): (nat, nat) {
    if st.client.Sending? then (2, |st.client.rest|)
    else if !Busy(st) then (0, 0)
    else if st.peer.Computing? then (1, 0)
    else (0, 1 + if st.peer.Writing? then |st.peer.out| else 0)
  }

  predicate Below(a: (nat, nat), b: (nat, nat)) {
    a.0 < b.0 || (a.0 == b.0 && a.1 < b.1)
  }

  /** While a call runs, some step is possible: the two processes never wait on each other. */
  lemma NeverStuck(caps: Caps, program: seq<Args>, st: State) returns (step: Step)
    requires Safe(caps, program) && Inv(caps, program, st) && Busy(st)
    ensures !step.Issue? && !step.Hangup? && Next(caps, program, st, step).Some?
  {
    hide Feed, Fits, Encode, EndsOnce;
    if st.client.Sending? {
      step := if !Fits(st.client.rest[0]) then TooLong else if st.peer.Gone? then WriteFails else Transfer;
    } else {
      step := if st.peer.Gone? then ReadFails
              else if st.peer.Computing? then Answer([], Complete)
              else Deliver(true, false);
      NonEmpty(st);
    }
  }

  lemma NonEmpty(st: State)
    ensures st.peer.Writing? && EndsOnce(st.peer.out, st.peer.after) ==> st.peer.out != []
  {
  }

  /** Every step of a running call leaves less of it, so each call ends after finitely many. */
  lemma CallsFinish(caps: Caps, program: seq<Args>, st: State, step: Step)
    requires Safe(caps, program) && Inv(caps, program, st) && Busy(st)
    requires !step.Hangup? && Next(caps, program, st, step).Some?
    ensures Below(Left(Next(caps, program, st, step).value), Left(st))
  {
    hide Feed, Fits, Encode, Reaches, CapsFit, Safe;
  }

  // ---------------------------------------------------------------- and when they are not

  lemma {:induction false} RunConcat(caps: Caps, program: seq<Args>, st: State, a: seq<Step>, b: seq<Step>)
    requires Run(caps, program, st, a).Some?
    ensures Run(caps, program, st, a + b) == Run(caps, program, Run(caps, program, st, a).value, b)
    decreases |a|
  {
    hide Next;
    if a == [] {
      assert a + b == b;
    } else {
      RunConcat(caps, program, Next(caps, program, st, a[0]).value, a[1..], b);
      assert (a + b)[0] == a[0] && (a + b)[1..] == a[1..] + b;
    }
  }

  lemma RunOne(caps: Caps, program: seq<Args>, st: State, step: Step)
    ensures Run(caps, program, st, [step]) == Next(caps, program, st, step)
  {
    hide Next;
    var next := Next(caps, program, st, step);
    if next.Some? {
      assert Run(caps, program, next.value, []) == next;
    }
  }

  lemma {:induction false} ReachesSplit(s: Server, ps: seq<Packet>, qs: seq<Packet>, u: Server) returns (t: Server)
    requires Reaches(s, ps + qs, u)
    ensures Reaches(s, ps, t) && Reaches(t, qs, u)
    decreases |ps|
  {
    hide Feed;
    if ps == [] {
      assert ps + qs == qs;
      t := s;
    } else {
      assert (ps + qs)[0] == ps[0] && (ps + qs)[1..] == ps[1..] + qs;
      t := ReachesSplit(Feed(s, ps[0]), ps[1..], qs, u);
    }
  }

  /** Writing packets that fit and that the server goes on reading. */
  lemma {:induction false} SendPrefix(caps: Caps, program: seq<Args>, st: State, ps: seq<Packet>, qs: seq<Packet>,
                                      t: Server)
    returns (steps: seq<Step>)
    requires st.client.Sending? && st.client.rest == ps + qs && AllFit(ps) && qs != []
    requires st.peer.Waiting? && Reaches(st.peer.s, ps, t) && Reading(t)
    ensures Run(caps, program, st, steps) ==
      Some(st.(client := Sending(st.client.args, qs), peer := Waiting(t), wire := st.wire + |ps|))
    decreases |ps|
  {
    hide Feed;
    if ps == [] {
      assert ps + qs == qs;
      steps := [];
    } else {
      var s := Feed(st.peer.s, ps[0]);
      assert (ps + qs)[0] == ps[0] && (ps + qs)[1..] == ps[1..] + qs;
      assert Reading(s) by {
        if ps[1..] != [] { assert Reaches(s, ps[1..], t); }
      }
      var next := st.(client := Sending(st.client.args, ps[1..] + qs), peer := Waiting(s), wire := st.wire + 1);
      assert Next(caps, program, st, Transfer) == Some(next);
      var rest := SendPrefix(caps, program, next, ps[1..], qs, t);
      steps := [Transfer] + rest;
      RunOne(caps, program, st, Transfer);
      RunConcat(caps, program, st, [Transfer], rest);
    }
  }

  predicate AtRest(st: State) {
    st.client == Ready && st.peer == Waiting(Idle)
  }

  /** A call that fits can run to its end. */
  lemma CompleteOne(caps: Caps, program: seq<Args>, st: State) returns (steps: seq<Step>)
    requires AtRest(st) && st.issued < |program| && Encodable(caps, program[st.issued])
    ensures Run(caps, program, st, steps).Some?
    ensures AtRest(Run(caps, program, st, steps).value) && Run(caps, program, st, steps).value.issued == st.issued + 1
  {
    hide Reaches, Feed, Run, Encode, Fits;
    var args := Sent(caps, program[st.issued]);
    var all := Encode(caps, program[st.issued]);
    RequestUnderstood(caps, program[st.issued]);
    var front, last := all[..|all| - 1], [all[|all| - 1]];
    assert all == front + last;
    var t := ReachesSplit(Idle, front, last, Answering(args));
    LastPacket(t, last[0], Answering(args));
    var s1 := st.(client := Sending(args, all), issued := st.issued + 1);
    RunOne(caps, program, st, Issue);
    var sending := SendPrefix(caps, program, s1, front, last, t);
    RunConcat(caps, program, st, [Issue], sending);
    var s2 := Run(caps, program, st, [Issue] + sending).value;
    var s3 := s2.(client := Receiving(args, []), peer := Computing(args), wire := s2.wire + 1);
    RunOne(caps, program, s2, Transfer);
    assert last[1..] == [];
    assert Next(caps, program, s2, Transfer) == Some(s3);
    RunConcat(caps, program, st, [Issue] + sending, [Transfer]);
    var s4 := s3.(peer := Writing([Flush], Idle), answers := s3.answers + [Exchange(args, [Flush])]);
    RunOne(caps, program, s3, Answer([], Complete));
    assert Response([], Complete) == [Flush];
    assert Next(caps, program, s3, Answer([], Complete)) == Some(s4);
    RunConcat(caps, program, st, [Issue] + sending + [Transfer], [Answer([], Complete)]);
    RunOne(caps, program, s4, Deliver(true, false));
    RunConcat(caps, program, st, [Issue] + sending + [Transfer] + [Answer([], Complete)], [Deliver(true, false)]);
    steps := [Issue] + sending + [Transfer] + [Answer([], Complete)] + [Deliver(true, false)];
  }

  lemma LastPacket(t: Server, p: Packet, u: Server)
    requires Reaches(t, [p], u)
    ensures Reading(t) && Feed(t, p) == u
  {
    hide Feed;
    assert [p][1..] == [];
    assert Reaches(Feed(t, p), [], u);
  }

  /** Once past the delimiter the server stays among the arguments. */
  lemma {:induction false} StaysInArgs(s: Server, ps: seq<Packet>, t: Server)
    requires s.ReadingArgs? && Reaches(s, ps, t)
    ensures !t.Head?
    decreases |ps|
  {
    hide FeedArg;
    if ps != [] {
      var next := Feed(s, ps[0]);
      if next.ReadingArgs? {
        StaysInArgs(next, ps[1..], t);
      } else {
        assert ps[1..] == [];
      }
    }
  }

  /** A call with an argument that does not fit stops halfway, and leaves the server among the arguments. */
  lemma {:induction false} AbortOne(caps: Caps, program: seq<Args>, st: State) returns (steps: seq<Step>, last: State)
    requires AtRest(st) && st.issued < |program| && CapsFit(caps) && !Encodable(caps, program[st.issued])
    ensures Run(caps, program, st, steps) == Some(last)
    ensures last.client == Ready && last.peer.Waiting? && last.peer.s.ReadingArgs? && last.issued == st.issued + 1
  {
    hide Reaches, Feed, Run, Encode, Encodable, CapsFit, Next, Fits, Sent;
    var sent := Sent(caps, program[st.issued]);
    var all := Encode(caps, program[st.issued]);
    var head, front, back := UnfitArgument(caps, program[st.issued]);
    RequestUnderstood(caps, program[st.issued]);
    var t := ReachesSplit(Idle, head + front, back, Answering(sent));
    var m := ReachesSplit(Idle, head, front, t);
    PastDelim(caps, sent, m);
    StaysInArgs(m, front, t);
    StillReading(t, back, Answering(sent));
    var s1 := st.(client := Sending(sent, all), issued := st.issued + 1);
    RunOne(caps, program, st, Issue);
    assert Next(caps, program, st, Issue) == Some(s1) by { IssueStep(caps, program, st); }
    var sending := SendPrefix(caps, program, s1, head + front, back, t);
    RunConcat(caps, program, st, [Issue], sending);
    var s2 := Run(caps, program, st, [Issue] + sending).value;
    TooLongStep(caps, program, s2);
    RunOne(caps, program, s2, TooLong);
    RunConcat(caps, program, st, [Issue] + sending, [TooLong]);
    steps := [Issue] + sending + [TooLong];
    last := s2.(client := Ready);
  }

  lemma IssueStep(caps: Caps, program: seq<Args>, st: State)
    requires st.client == Ready && st.issued < |program|
    ensures var args := Sent(caps, program[st.issued]);
      Next(caps, program, st, Issue) ==
      Some(st.(client := Sending(args, Encode(caps, program[st.issued])), issued := st.issued + 1))
  {
    hide Encode, Sent;
  }

  lemma TooLongStep(caps: Caps, program: seq<Args>, st: State)
    requires st.client.Sending? && st.client.rest != [] && !Fits(st.client.rest[0])
    ensures Next(caps, program, st, TooLong) == Some(st.(client := Ready))
  {
  }

  /** The request up to its delimiter, the arguments that fit, and the rest, which starts with one that does not. */
  lemma {:induction false} UnfitArgument(caps: Caps, args: Args)
    returns (head: seq<Packet>, front: seq<Packet>, back: seq<Packet>)
    requires CapsFit(caps) && !Encodable(caps, args)
    ensures head == [Line("command=" + CommandName(Sent(caps, args)))] + CapLines(caps) + [Delim]
    ensures Encode(caps, args) == (head + front) + back && AllFit(head + front) && back != [] && !Fits(back[0])
  {
    hide ArgLines, CapLines, CapsFit, Fits, AllFit;
    var sent := Sent(caps, args);
    head := [Line("command=" + CommandName(sent))] + CapLines(caps) + [Delim];
    var body := ArgLines(sent);
    assert Encode(caps, args) == head + body + [Flush];
    HeadFits(caps, sent);
    assert Fits(Flush) by { ControlFits(); }
    front, back := SplitUnfit(head, body);
  }

  lemma SplitUnfit(head: seq<Packet>, body: seq<Packet>) returns (front: seq<Packet>, back: seq<Packet>)
    requires AllFit(head) && Fits(Flush) && !AllFit(head + body + [Flush])
    ensures head + body + [Flush] == (head + front) + back
    ensures AllFit(head + front) && back != [] && !Fits(back[0])
  {
    hide Fits;
    var whole := head + body + [Flush];
    var j :| 0 <= j < |whole| && !Fits(whole[j]);
    assert |head| <= j < |head| + |body| && whole[j] == body[j - |head|];
    var k := FirstUnfit(body, 0, j - |head|);
    front, back := body[..k], body[k..] + [Flush];
    assert body == front + body[k..];
  }

  lemma StillReading(t: Server, ps: seq<Packet>, u: Server)
    requires Reaches(t, ps, u) && ps != []
    ensures Reading(t)
  {
    hide Feed;
  }

  lemma HeadFits(caps: Caps, sent: Args)
    requires CapsFit(caps)
    ensures AllFit([Line("command=" + CommandName(sent))] + CapLines(caps) + [Delim])
  {
    hide CapLines;
  }

  /** The server state after the command line, the capabilities and the delimiter. */
  lemma PastDelim(caps: Caps, sent: Args, m: Server)
    requires Reaches(Idle, [Line("command=" + CommandName(sent))] + CapLines(caps) + [Delim], m)
    ensures m.ReadingArgs?
  {
    hide Reaches, CapLines;
    var name := CommandName(sent);
    TrimLine("command=" + name);
    CutConcat("command=", name);
    var first := [Line("command=" + name)];
    ReachesOne(Idle, first[0], Head(true, name));
    CapsRead(caps, name);
    ReachesConcat(Idle, first, Head(true, name), CapLines(caps), Head(true, name));
    ReachesOne(Head(true, name), Delim, Dispatch(name));
    ReachesConcat(Idle, first + CapLines(caps), Head(true, name), [Delim], Dispatch(name));
    ReachesOnlyOne(Idle, first + CapLines(caps) + [Delim], Dispatch(name), m);
  }

  lemma {:induction false} ReachesOnlyOne(s: Server, ps: seq<Packet>, t: Server, u: Server)
    requires Reaches(s, ps, t) && Reaches(s, ps, u)
    ensures t == u
    decreases |ps|
  {
    hide Feed;
    if ps != [] {
      ReachesOnlyOne(Feed(s, ps[0]), ps[1..], t, u);
    }
  }

  lemma {:induction false} FirstUnfit(ps: seq<Packet>, from: nat, j: nat) returns (k: nat)
    requires from <= j < |ps| && AllFit(ps[..from]) && !Fits(ps[j])
    ensures k < |ps| && !Fits(ps[k]) && AllFit(ps[..k])
    decreases j - from
  {
    hide Fits;
    if Fits(ps[from]) {
      assert ps[..from + 1] == ps[..from] + [ps[from]];
      k := FirstUnfit(ps, from + 1, j);
    } else {
      k := from;
    }
  }

  /** A command line among the arguments is answered with ERR. */
  lemma CommandRefused(args: Args, name: string)
    requires name == "ls-refs" || name == "object-info"
    ensures Fits(Line("command=" + name))
    ensures var peer := Settle(FeedArg(args, Line("command=" + name))); peer.Writing? && peer.out != []
  {
    var line := "command=" + name;
    TrimLine(line);
    assert line[0] == 'c' && "ref-prefix "[0] == 'r' && "oid "[0] == 'o';
  }

  /** The call after an aborted one is taken for an argument, refused while it is still being written. */
  lemma NextOneBlocks(caps: Caps, program: seq<Args>, st: State) returns (steps: seq<Step>, last: State)
    requires st.client == Ready && st.peer.Waiting? && st.peer.s.ReadingArgs? && st.issued < |program| && CapsFit(caps)
    ensures Run(caps, program, st, steps) == Some(last) && BothWriting(last)
  {
    hide Run, Encode, FeedArg, CapsFit;
    var args := program[st.issued];
    var all := Encode(caps, args);
    CommandRefused(st.peer.s.args, CommandName(args));
    var s1 := st.(client := Sending(Sent(caps, args), all), issued := st.issued + 1);
    RunOne(caps, program, st, Issue);
    RunOne(caps, program, s1, Transfer);
    RunConcat(caps, program, st, [Issue], [Transfer]);
    steps := [Issue] + [Transfer];
    last := Next(caps, program, s1, Transfer).value;
    SecondFits(caps, args);
  }

  lemma SecondFits(caps: Caps, args: Args)
    requires CapsFit(caps)
    ensures Fits(Encode(caps, args)[1])
  {
    var tail := CapLines(caps) + [Delim];
    assert Encode(caps, args)[1] == tail[0];
  }

  lemma {:induction false} ReachAtRest(caps: Caps, program: seq<Args>, n: nat) returns (steps: seq<Step>)
    requires n <= |program| && forall i :: 0 <= i < n ==> Encodable(caps, program[i])
    ensures Run(caps, program, Start, steps).Some?
    ensures AtRest(Run(caps, program, Start, steps).value) && Run(caps, program, Start, steps).value.issued == n
  {
    hide Next, Encodable;
    if n == 0 {
      steps := [];
    } else {
      var before := ReachAtRest(caps, program, n - 1);
      var more := CompleteOne(caps, program, Run(caps, program, Start, before).value);
      RunConcat(caps, program, Start, before, more);
      steps := before + more;
    }
  }

  lemma {:induction false} FirstUnencodable(caps: Caps, program: seq<Args>, from: nat, k: nat) returns (b: nat)
    requires from <= k < |program| && !Encodable(caps, program[k])
    requires forall i :: 0 <= i < from ==> Encodable(caps, program[i])
    ensures b <= k && !Encodable(caps, program[b]) && forall i :: 0 <= i < b ==> Encodable(caps, program[i])
    decreases k - from
  {
    hide Encodable;
    if Encodable(caps, program[from]) {
      b := FirstUnencodable(caps, program, from + 1, k);
    } else {
      b := from;
    }
  }

  /**
   Deadlock is possible exactly when a call with an argument too long for a pkt-line is followed by another
   call: the encoder gives up inside the request without marking the session dead.
   */
  lemma DeadlockExactly(caps: Caps, program: seq<Args>)
    ensures Safe(caps, program) <==>
      forall steps :: Run(caps, program, Start, steps).Some? ==> !BothWriting(Run(caps, program, Start, steps).value)
  {
    hide Run, Encodable, CapsFit, BothWriting;
    if Safe(caps, program) {
      forall steps | Run(caps, program, Start, steps).Some?
        ensures !BothWriting(Run(caps, program, Start, steps).value)
      {
        EachReadsItsOwn(caps, program, steps);
      }
    } else {
      var k :| 0 <= k && k + 1 < |program| && !Encodable(caps, program[k]);
      var b := FirstUnencodable(caps, program, 0, k);
      var quiet := ReachAtRest(caps, program, b);
      var s1 := Run(caps, program, Start, quiet).value;
      var abort, s2 := AbortOne(caps, program, s1);
      RunConcat(caps, program, Start, quiet, abort);
      var block, s3 := NextOneBlocks(caps, program, s2);
      RunConcat(caps, program, Start, quiet + abort, block);
      assert BothWriting(Run(caps, program, Start, quiet + abort + block).value);
    }
  }
}
