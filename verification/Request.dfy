/**
 Protocol v2 requests: the client's encoding of ls-refs and object-info, and the server's reading of them.
 */
module Request {
  import opened Options
  import opened Pktline
  import opened WireText

  function Line(s: string): Packet {
    Data(s + "\n")
  }

  // ---------------------------------------------------------------- the client's side

  datatype Args =
    | LsRefs(peel: bool, symrefs: bool, unborn: bool, prefixes: seq<string>)
    | ObjectInfo(size: bool, oids: seq<string>)

  /** What the server's capabilities make the client echo, and whether they admit unborn. */
  datatype Caps = Caps(agent: Option<string>, format: Option<string>, unborn: bool)

  function CommandName(args: Args): string {
    if args.LsRefs? then "ls-refs" else "object-info"
  }

  function When(c: bool, s: string): seq<Packet> {
    if c then [Line(s)] else []
  }

  /** writeCapabilityEcho. */
  function CapLines(caps: Caps): seq<Packet> {
    (match caps.agent case Some(a) => [Line("agent=" + a)] case None => [])
    + (match caps.format case Some(f) => [Line("object-format=" + f)] case None => [])
  }

  function Each(prefix: string, values: seq<string>): (ps: seq<Packet>) {
    if values == [] then [] else [Line(prefix + values[0])] + Each(prefix, values[1..])
  }

  /** The arguments that go on the wire: unborn only when the server advertised it. */
  function Sent(caps: Caps, args: Args): Args {
    if args.LsRefs? then args.(unborn := args.unborn && caps.unborn) else args
  }

  function ArgLines(args: Args): seq<Packet> {
    match args
    case LsRefs(peel, symrefs, unborn, prefixes) =>
      When(peel, "peel") + When(symrefs, "symrefs") + When(unborn, "unborn") + Each("ref-prefix ", prefixes)
    case ObjectInfo(size, oids) => When(size, "size") + Each("oid ", oids)
  }

  /** EncodeLSRefs and EncodeObjectInfo: the packets in the order they are written. */
  function Encode(caps: Caps, args: Args): (ps: seq<Packet>)
    ensures |ps| >= 3 && ps[0] == Line("command=" + CommandName(args))
  {
    [Line("command=" + CommandName(args))] + CapLines(caps) + [Delim] + ArgLines(Sent(caps, args)) + [Flush]
  }

  // ---------------------------------------------------------------- the server's side

  datatype Server =
    | Head(seen: bool, name: string)          // before the delimiter
    | ReadingArgs(args: Args)                 // after it
    | Answering(args: Args)                   // the terminating flush was read
    | Complaining(msg: string, args: Args)    // an inline ERR, then on with the arguments
    | Refusing(msg: string)                   // ERR and flush, then stop
    | Stopped(clean: bool)

  const Idle := Head(false, "")

  predicate Reading(s: Server) {
    s.Head? || s.ReadingArgs?
  }

  function Err(msg: string): Packet {
    Line("ERR " + msg)
  }

  /** dispatchV2. */
  function Dispatch(name: string): Server {
    if name == "" then Stopped(false)
    else if name == "ls-refs" then ReadingArgs(LsRefs(false, false, false, []))
    else if name == "object-info" then ReadingArgs(ObjectInfo(false, []))
    else Refusing("command not supported")
  }

  /** One round of parseLSRefsArgs or parseObjectInfoArgs. */
  function FeedArg(args: Args, p: Packet): (t: Server)
    ensures !t.Head? && !t.Stopped?
  {
    if p.Flush? then Answering(args)
    else
      var line := if p.Data? then TrimLf(p.payload) else "<pkt-kind>";
      match args
      case LsRefs(_, _, _, prefixes) =>
        if !p.Data? then Refusing("ls-refs: unknown argument " + line)
        else if line == "peel" then ReadingArgs(args.(peel := true))
        else if line == "symrefs" then ReadingArgs(args.(symrefs := true))
        else if line == "unborn" then ReadingArgs(args.(unborn := true))
        else (match CutPrefix(line, "ref-prefix ")
              case Some(rest) => ReadingArgs(args.(prefixes := prefixes + [rest]))
              case None => Refusing("ls-refs: unknown argument " + line))
      case ObjectInfo(_, oids) =>
        if !p.Data? then Complaining("object-info: unexpected line: " + line, args)
        else if line == "size" then ReadingArgs(args.(size := true))
        else (match CutPrefix(line, "oid ")
              case Some(rest) => ReadingArgs(args.(oids := oids + [rest]))
              case None => Complaining("object-info: unexpected line: " + line, args))
  }

  /** One packet read by processV2Request or by the handler it dispatched to. */
  function Feed(s: Server, p: Packet): (t: Server)
    requires Reading(s)
  {
    match s
    case ReadingArgs(args) => FeedArg(args, p)
    case Head(seen, name) =>
      (match p
       case Flush =>
         if !seen then Stopped(true)
         else
           var t := Dispatch(name);
           if t.ReadingArgs? then Answering(t.args) else t
       case Delim => Dispatch(name)
       case ResponseEnd => Stopped(false)
       case Data(payload) =>
         match CutPrefix(TrimLf(payload), "command=")
         case Some(n) => if name != "" then Stopped(false) else Head(true, n)
         case None => Head(true, name))
  }

  // ---------------------------------------------------------------- requests are understood

  /** Reading ps takes the server from s to t, and it reads nothing but packets on the way. */
  ghost predicate Reaches(s: Server, ps: seq<Packet>, t: Server)
    decreases |ps|
  {
    if ps == [] then s == t else Reading(s) && Reaches(Feed(s, ps[0]), ps[1..], t)
  }

  lemma {:induction false} ReachesConcat(s: Server, ps: seq<Packet>, t: Server, qs: seq<Packet>, u: Server)
    requires Reaches(s, ps, t) && Reaches(t, qs, u)
    ensures Reaches(s, ps + qs, u)
    decreases |ps|
  {
    hide Feed;
    if ps == [] {
      assert ps + qs == qs;
    } else {
      ReachesConcat(Feed(s, ps[0]), ps[1..], t, qs, u);
      assert (ps + qs)[0] == ps[0] && (ps + qs)[1..] == ps[1..] + qs;
    }
  }

  lemma ReachesOne(s: Server, p: Packet, t: Server)
    requires Reading(s) && Feed(s, p) == t
    ensures Reaches(s, [p], t)
  {
    assert [p][1..] == [];
    assert Reaches(t, [], t);
  }

  lemma PrefixRead(args: Args, prefix: string)
    requires args.LsRefs?
    ensures FeedArg(args, Line("ref-prefix " + prefix)) == ReadingArgs(args.(prefixes := args.prefixes + [prefix]))
  {
    hide CutPrefix, TrimLf;
    TrimLine("ref-prefix " + prefix);
    CutConcat("ref-prefix ", prefix);
    assert ("ref-prefix " + prefix)[0] == 'r' && "peel"[0] == 'p' && "symrefs"[0] == 's' && "unborn"[0] == 'u';
  }

  lemma OidRead(args: Args, oid: string)
    requires args.ObjectInfo?
    ensures FeedArg(args, Line("oid " + oid)) == ReadingArgs(args.(oids := args.oids + [oid]))
  {
    hide CutPrefix, TrimLf;
    TrimLine("oid " + oid);
    CutConcat("oid ", oid);
    assert ("oid " + oid)[0] == 'o' && "size"[0] == 's';
  }

  lemma {:induction false} PrefixesRead(args: Args, prefixes: seq<string>)
    requires args.LsRefs?
    ensures Reaches(ReadingArgs(args), Each("ref-prefix ", prefixes),
                    ReadingArgs(args.(prefixes := args.prefixes + prefixes)))
    decreases |prefixes|
  {
    hide FeedArg;
    if prefixes == [] {
      assert args.prefixes + [] == args.prefixes;
    } else {
      var next := args.(prefixes := args.prefixes + [prefixes[0]]);
      PrefixRead(args, prefixes[0]);
      PrefixesRead(next, prefixes[1..]);
      assert next.prefixes + prefixes[1..] == args.prefixes + prefixes;
    }
  }

  lemma {:induction false} OidsRead(args: Args, oids: seq<string>)
    requires args.ObjectInfo?
    ensures Reaches(ReadingArgs(args), Each("oid ", oids), ReadingArgs(args.(oids := args.oids + oids)))
    decreases |oids|
  {
    hide FeedArg;
    if oids == [] {
      assert args.oids + [] == args.oids;
    } else {
      var next := args.(oids := args.oids + [oids[0]]);
      OidRead(args, oids[0]);
      OidsRead(next, oids[1..]);
      assert next.oids + oids[1..] == args.oids + oids;
    }
  }

  lemma FlagRead(s: Server, c: bool, flag: string, t: Server)
    requires Reading(s) && t == if c then Feed(s, Line(flag)) else s
    ensures Reaches(s, When(c, flag), t)
  {
    if c {
      ReachesOne(s, Line(flag), t);
    }
  }

  lemma ArgsRead(args: Args)
    ensures Reaches(Dispatch(CommandName(args)), ArgLines(args), ReadingArgs(args))
  {
    hide Reaches, CutPrefix;
    var s0 := Dispatch(CommandName(args));
    match args
    case LsRefs(peel, symrefs, unborn, prefixes) =>
      TrimLine("peel"); TrimLine("symrefs"); TrimLine("unborn");
      var s1 := ReadingArgs(LsRefs(peel, false, false, []));
      var s2 := ReadingArgs(LsRefs(peel, symrefs, false, []));
      var s3 := ReadingArgs(LsRefs(peel, symrefs, unborn, []));
      FlagRead(s0, peel, "peel", s1);
      FlagRead(s1, symrefs, "symrefs", s2);
      FlagRead(s2, unborn, "unborn", s3);
      PrefixesRead(s3.args, prefixes);
      ReachesConcat(s0, When(peel, "peel"), s1, When(symrefs, "symrefs"), s2);
      ReachesConcat(s0, When(peel, "peel") + When(symrefs, "symrefs"), s2, When(unborn, "unborn"), s3);
      assert [] + prefixes == prefixes;
      ReachesConcat(s0, When(peel, "peel") + When(symrefs, "symrefs") + When(unborn, "unborn"), s3,
                    Each("ref-prefix ", prefixes), ReadingArgs(args));
    case ObjectInfo(size, oids) =>
      TrimLine("size");
      var s1 := ReadingArgs(ObjectInfo(size, []));
      FlagRead(s0, size, "size", s1);
      OidsRead(s1.args, oids);
      assert [] + oids == oids;
      ReachesConcat(s0, When(size, "size"), s1, Each("oid ", oids), ReadingArgs(args));
  }

  lemma CapsRead(caps: Caps, name: string)
    ensures Reaches(Head(true, name), CapLines(caps), Head(true, name))
  {
    hide Reaches;
    var s := Head(true, name);
    var agent := match caps.agent case Some(a) => [Line("agent=" + a)] case None => [];
    var format := match caps.format case Some(f) => [Line("object-format=" + f)] case None => [];
    match caps.agent {
      case Some(a) =>
        TrimLine("agent=" + a);
        assert ("agent=" + a)[0] != 'c';
        ReachesOne(s, Line("agent=" + a), s);
      case None => Stays(s);
    }
    match caps.format {
      case Some(f) =>
        TrimLine("object-format=" + f);
        assert ("object-format=" + f)[0] != 'c';
        ReachesOne(s, Line("object-format=" + f), s);
      case None => Stays(s);
    }
    ReachesConcat(s, agent, s, format, s);
  }

  lemma Stays(s: Server)
    ensures Reaches(s, [], s)
  {
  }

  /**
   For every capability echo and every argument, whatever bytes they hold, the server reads a request
   without once answering early, and ends with exactly the arguments the client sent.
   */
  lemma RequestUnderstood(caps: Caps, args: Args)
    ensures Reaches(Idle, Encode(caps, args), Answering(Sent(caps, args)))
    ensures args.ObjectInfo? ==> Sent(caps, args) == args
    ensures args.LsRefs? ==>
      Sent(caps, args) == LsRefs(args.peel, args.symrefs, args.unborn && caps.unborn, args.prefixes)
  {
    hide Reaches, CapLines, ArgLines;
    var name := CommandName(args);
    var sent := Sent(caps, args);
    TrimLine("command=" + name);
    CutConcat("command=", name);
    var first := [Line("command=" + name)];
    ReachesOne(Idle, first[0], Head(true, name));
    CapsRead(caps, name);
    ReachesConcat(Idle, first, Head(true, name), CapLines(caps), Head(true, name));
    ReachesOne(Head(true, name), Delim, Dispatch(name));
    ReachesConcat(Idle, first + CapLines(caps), Head(true, name), [Delim], Dispatch(name));
    ArgsRead(sent);
    ReachesConcat(Idle, first + CapLines(caps) + [Delim], Dispatch(name), ArgLines(sent), ReadingArgs(sent));
    ReachesOne(ReadingArgs(sent), Flush, Answering(sent));
    ReachesConcat(Idle, first + CapLines(caps) + [Delim] + ArgLines(sent), ReadingArgs(sent), [Flush], Answering(sent));
  }

  /** Requests packet by packet. */
  lemma Letters()
    ensures Encode(Caps(Some("a"), Some("f"), true), LsRefs(true, true, true, ["p", "q"])) ==
      [Line("command=" + "ls-refs"), Line("agent=" + "a"), Line("object-format=" + "f"), Delim, Line("peel"),
       Line("symrefs"), Line("unborn"), Line("ref-prefix " + "p"), Line("ref-prefix " + "q"), Flush]
    ensures Line("x") == Data("x" + "\n")
  {
    EachTwo("ref-prefix ", "p", "q");
    hide Each;
    assert ArgLines(LsRefs(true, true, true, ["p", "q"])) ==
      [Line("peel"), Line("symrefs"), Line("unborn"), Line("ref-prefix " + "p"), Line("ref-prefix " + "q")];
    assert CapLines(Caps(Some("a"), Some("f"), true)) == [Line("agent=" + "a"), Line("object-format=" + "f")];
    hide ArgLines, CapLines, Line;
  }

  lemma FewLetters()
    ensures Encode(Caps(None, None, false), LsRefs(false, false, true, [])) ==
      [Line("command=" + "ls-refs"), Delim, Flush]
    ensures Encode(Caps(None, None, false), ObjectInfo(true, ["o"])) ==
      [Line("command=" + "object-info"), Delim, Line("size"), Line("oid " + "o"), Flush]
  {
    EachTwo("oid ", "o", "o");
    hide Line;
  }

  lemma EachTwo(prefix: string, x: string, y: string)
    ensures Each(prefix, []) == [] && Each(prefix, [x]) == [Line(prefix + x)]
    ensures Each(prefix, [x, y]) == [Line(prefix + x), Line(prefix + y)]
  {
    assert [x, y][1..] == [y] && [y][1..] == [] && [x][1..] == [];
    assert Each(prefix, [y]) == [Line(prefix + y)] + Each(prefix, []);
  }

  // ---------------------------------------------------------------- the command loop in place

  datatype Served = Served(state: Server, rest: seq<Packet>, written: seq<Packet>)

  /** What one request does with the packets still to come: where it ends, what is left, what it wrote. */
  ghost function Serve(s: Server, ps: seq<Packet>): (r: Served)
    decreases |ps|, if s.Complaining? then 1 else 0
  {
    match s
    case Complaining(msg, args) =>
      if !Fits(Err(msg)) then Served(Stopped(false), ps, [])
      else
        var r := Serve(ReadingArgs(args), ps);
        r.(written := [Err(msg)] + r.written)
    case Refusing(msg) => Served(Stopped(false), ps, if Fits(Err(msg)) then [Err(msg), Flush] else [])
    case Answering(_) => Served(s, ps, [])
    case Stopped(_) => Served(s, ps, [])
    case _ => if ps == [] then Served(Stopped(s == Idle), ps, []) else Serve(Feed(s, ps[0]), ps[1..])
  }

  lemma ServeOn(s: Server, p: Packet, ps: seq<Packet>)
    requires Reading(s)
    ensures Serve(s, [p] + ps) == Serve(Feed(s, p), ps)
  {
    hide Feed;
    assert ([p] + ps)[1..] == ps;
  }

  lemma FeedsUnknown(args: Args, x: string)
    requires args.LsRefs? && x !in {"peel", "symrefs", "unborn"} && !("ref-prefix " <= x)
    ensures Feed(ReadingArgs(args), Data(x + "\n")) == Refusing("ls-refs: unknown argument " + x)
  {
    hide CutPrefix, TrimLf;
    TrimLine(x);
  }

  /** ls-refs ends at an argument it does not know, with the argument in the error and then a flush. */
  lemma {:induction false} UnknownArgument(args: Args, x: string, ps: seq<Packet>)
    requires args.LsRefs? && x !in {"peel", "symrefs", "unborn"} && !("ref-prefix " <= x)
    ensures var e := "ERR " + ("ls-refs: unknown argument " + x) + "\n";
      Serve(ReadingArgs(args), [Data(x + "\n")] + ps) ==
      Served(Stopped(false), ps, if |e| <= 65516 then [Data(e), Flush] else [])
  {
    hide Serve, Feed;
    var msg := "ls-refs: unknown argument " + x;
    FeedsUnknown(args, x);
    ServeOn(ReadingArgs(args), Data(x + "\n"), ps);
    RefusingWrites(msg, ps);
  }

  /** And at a control packet among its arguments. */
  lemma {:induction false} ControlAmongArguments(args: Args, p: Packet, ps: seq<Packet>)
    requires args.LsRefs? && (p == Delim || p == ResponseEnd)
    ensures Serve(ReadingArgs(args), [p] + ps) ==
      Served(Stopped(false), ps, [Data("ERR " + ("ls-refs: unknown argument " + "<pkt-kind>") + "\n"), Flush])
  {
    hide Serve;
    var msg := "ls-refs: unknown argument " + "<pkt-kind>";
    assert Feed(ReadingArgs(args), p) == Refusing(msg);
    hide Feed;
    ServeOn(ReadingArgs(args), p, ps);
    RefusingWrites(msg, ps);
  }

  lemma RefusingWrites(msg: string, ps: seq<Packet>)
    ensures var line := "ERR " + msg + "\n";
      Serve(Refusing(msg), ps) == Served(Stopped(false), ps, if |line| <= 65516 then [Data(line), Flush] else [])
  {
  }

  /** object-info says what it did not expect and reads on, unless that does not fit a packet. */
  lemma {:induction false} UnexpectedLine(args: Args, x: string, ps: seq<Packet>)
    requires args.ObjectInfo? && x != "size" && !("oid " <= x)
    ensures var e := "ERR " + ("object-info: unexpected line: " + x) + "\n";
      var r := Serve(ReadingArgs(args), ps);
      Serve(ReadingArgs(args), [Data(x + "\n")] + ps) ==
      if |e| <= 65516 then r.(written := [Data(e)] + r.written) else Served(Stopped(false), ps, [])
  {
    hide Serve, CutPrefix, TrimLf;
    TrimLine(x);
    ServeOn(ReadingArgs(args), Data(x + "\n"), ps);
    ComplainingWrites("object-info: unexpected line: " + x, args, ps);
  }

  lemma ComplainingWrites(msg: string, args: Args, ps: seq<Packet>)
    ensures var r := Serve(ReadingArgs(args), ps);
      Serve(Complaining(msg, args), ps) ==
      if |"ERR " + msg + "\n"| <= 65516 then r.(written := [Data("ERR " + msg + "\n")] + r.written)
      else Served(Stopped(false), ps, [])
  {
    hide FeedArg;
  }

  /** In front of a request: an end of input or a flush is a clean stop, another control packet is not. */
  lemma {:induction false} IdleEnds(ps: seq<Packet>)
    ensures Serve(Idle, []) == Served(Stopped(true), [], [])
    ensures Serve(Idle, [Flush] + ps) == Served(Stopped(true), ps, [])
    ensures Serve(Idle, [Delim] + ps) == Serve(Idle, [ResponseEnd] + ps) == Served(Stopped(false), ps, [])
  {
    hide Serve, FeedArg;
    ServeOn(Idle, Flush, ps);
    ServeOn(Idle, Delim, ps);
    ServeOn(Idle, ResponseEnd, ps);
    StoppedServes(Stopped(true), ps);
    StoppedServes(Stopped(false), ps);
    EndsHere(Idle);
  }

  /** Behind a command: the input must go on, and not with a second command or a response end. */
  lemma {:induction false} CommandEnds(name: string, other: string, ps: seq<Packet>)
    requires name != ""
    ensures var command := Data("command=" + name + "\n");
      && Serve(Idle, [command]) == Served(Stopped(false), [], [])
      && Serve(Idle, [command] + ([Data("command=" + other + "\n")] + ps)) == Served(Stopped(false), ps, [])
      && Serve(Idle, [command] + ([ResponseEnd] + ps)) == Served(Stopped(false), ps, [])
  {
    hide Serve, FeedArg, CutPrefix, TrimLf;
    var command := Data("command=" + name + "\n");
    assert [command] + [] == [command];
    CommandRead(name, []);
    CommandRead(name, [Data("command=" + other + "\n")] + ps);
    CommandRead(name, [ResponseEnd] + ps);
    CommandLine(other);
    ServeOn(Head(true, name), Data("command=" + other + "\n"), ps);
    ServeOn(Head(true, name), ResponseEnd, ps);
    StoppedServes(Stopped(false), ps);
    EndsHere(Head(true, name));
  }

  /** A command that is neither of the two is refused with or without arguments. */
  lemma {:induction false} NotSupported(name: string, p: Packet, ps: seq<Packet>)
    requires name !in {"", "ls-refs", "object-info"} && (p == Flush || p == Delim)
    ensures Serve(Idle, [Data("command=" + name + "\n")] + ([p] + ps)) ==
      Served(Stopped(false), ps, [Data("ERR " + "command not supported" + "\n"), Flush])
  {
    hide Serve, FeedArg, CutPrefix, TrimLf;
    CommandRead(name, [p] + ps);
    assert Feed(Head(true, name), p) == Refusing("command not supported");
    hide Feed;
    ServeOn(Head(true, name), p, ps);
    RefusingWrites("command not supported", ps);
  }

  lemma StoppedServes(state: Server, ps: seq<Packet>)
    requires state.Stopped? || state.Answering?
    ensures Serve(state, ps) == Served(state, ps, [])
  {
  }

  lemma EndsHere(s: Server)
    requires s.Head?
    ensures Serve(s, []) == Served(Stopped(s == Head(false, "")), [], [])
  {
  }

  lemma CommandLine(name: string)
    ensures CutPrefix(TrimLf("command=" + name + "\n"), "command=") == Some(name)
  {
    TrimLine("command=" + name);
    CutConcat("command=", name);
  }

  lemma CommandRead(name: string, ps: seq<Packet>)
    ensures Serve(Idle, [Data("command=" + name + "\n")] + ps) == Serve(Head(true, name), ps)
  {
    hide Serve, CutPrefix, TrimLf;
    CommandLine(name);
    ServeOn(Idle, Data("command=" + name + "\n"), ps);
  }

  /** A flush right behind the command is an empty argument list. */
  lemma {:induction false} EmptyCommand(name: string, ps: seq<Packet>)
    requires name in {"ls-refs", "object-info"}
    ensures Serve(Idle, [Data("command=" + name + "\n")] + ([Flush] + ps)) ==
      Served(Answering(if name == "ls-refs" then LsRefs(false, false, false, []) else ObjectInfo(false, [])), ps, [])
  {
    hide Serve, CutPrefix, TrimLf, FeedArg;
    CommandRead(name, [Flush] + ps);
    ServeOn(Head(true, name), Flush, ps);
    StoppedServes(Feed(Head(true, name), Flush), ps);
  }

  /** argsReader: one packet of pushback in front of the inbox. */
  class ArgsReader {
    const inbox: Inbox
    var pending: Option<Packet>

    ghost predicate Valid()
      reads this, inbox
    {
      inbox.Valid()
    }

    ghost function Rest(): seq<Packet>
      requires Valid()
      reads this, inbox
    {
      (if pending.Some? then [pending.value] else []) + inbox.Rest()
    }

    constructor (inbox: Inbox, pending: Option<Packet>)
      requires inbox.Valid()
      ensures Valid() && this.inbox == inbox && Rest() == (if pending.Some? then [pending.value] else []) + inbox.Rest()
    {
      this.inbox, this.pending := inbox, pending;
    }

    method ReadPacket() returns (p: Option<Packet>)
      requires Valid()
      modifies this, inbox
      ensures Valid() && pending == None
      ensures p.None? ==> old(Rest()) == [] && Rest() == []
      ensures p.Some? ==> old(Rest()) == [p.value] + Rest()
    {
      if pending.Some? {
        p := pending;
        pending := None;
      } else {
        p := inbox.ReadPacket();
      }
    }
  }

  /** parseLSRefsArgs and parseObjectInfoArgs, over the packets of r. */
  method ReadArgs(r: ArgsReader, start: Args) returns (state: Server, written: seq<Packet>)
    requires r.Valid()
    modifies r, r.inbox
    ensures r.Valid() && r.pending == None &&
      Served(state, r.Rest(), written) == Serve(ReadingArgs(start), old(r.Rest()))
  {
    hide FeedArg;
    var args := start;
    written := [];
    ghost var all := Serve(ReadingArgs(start), r.Rest());
    while true
      invariant r.Valid()
      invariant all == var s := Serve(ReadingArgs(args), r.Rest()); s.(written := written + s.written)
      decreases |r.Rest()|
    {
      ghost var before := r.Rest();
      var p := r.ReadPacket();
      if p == None {
        return Stopped(false), written;
      }
      assert before[1..] == r.Rest();
      state := FeedArg(args, p.value);
      match state {
        case ReadingArgs(next) => args := next;
        case Complaining(msg, next) =>
          if !Fits(Err(msg)) {
            return Stopped(false), written;
          }
          assert forall w :: written + ([Err(msg)] + w) == written + [Err(msg)] + w;
          written := written + [Err(msg)];
          args := next;
        case Refusing(msg) =>
          if Fits(Err(msg)) {
            written := written + [Err(msg), Flush];
          }
          return Stopped(false), written;
        case _ => return state, written;
      }
    }
  }

  /** processV2Request: the loop, the dispatch, and the handler's reading of its arguments. */
  method ProcessRequest(inbox: Inbox) returns (state: Server, written: seq<Packet>)
    requires inbox.Valid()
    modifies inbox
    ensures inbox.Valid() && Served(state, inbox.Rest(), written) == Serve(Idle, old(inbox.Rest()))
  {
    hide FeedArg, CutPrefix, TrimLf;
    written := [];
    var commandName := "";
    var seenCmdOrCap := false;
    ghost var all := Serve(Idle, inbox.Rest());
    while true
      invariant inbox.Valid() && written == []
      invariant all == Serve(Head(seenCmdOrCap, commandName), inbox.Rest())
      invariant !seenCmdOrCap ==> commandName == ""
      decreases |inbox.Rest()|
    {
      ghost var before := inbox.Rest();
      var pkt := inbox.ReadPacket();
      if pkt == None {
        return Stopped(!seenCmdOrCap), written;
      }
      assert before[1..] == inbox.Rest();
      match pkt.value {
        case Flush =>
          if !seenCmdOrCap {
            return Stopped(true), written;
          }
          state, written := DispatchAndRead(inbox, commandName, pkt);
          return;
        case Delim =>
          state, written := DispatchAndRead(inbox, commandName, None);
          return;
        case ResponseEnd => return Stopped(false), written;
        case Data(payload) =>
          seenCmdOrCap := true;
          var name := CutPrefix(TrimLf(payload), "command=");
          if name.Some? {
            if commandName != "" {
              return Stopped(false), written;
            }
            commandName := name.value;
          }
      }
    }
  }

  /** dispatchV2 with the packet held back, if any. */
  method DispatchAndRead(inbox: Inbox, name: string, pending: Option<Packet>)
    returns (state: Server, written: seq<Packet>)
    requires inbox.Valid() && (pending == None || pending == Some(Flush))
    modifies inbox
    ensures inbox.Valid()
    ensures pending == None ==> Served(state, inbox.Rest(), written) == Serve(Dispatch(name), old(inbox.Rest()))
    ensures pending == Some(Flush) ==>
      Served(state, inbox.Rest(), written) == Serve(Feed(Head(true, name), Flush), old(inbox.Rest()))
  {
    hide FeedArg;
    match Dispatch(name) {
      case Refusing(msg) =>
        state, written := Stopped(false), if Fits(Err(msg)) then [Err(msg), Flush] else [];
      case ReadingArgs(args) =>
        ghost var rest := inbox.Rest();
        var r := new ArgsReader(inbox, pending);
        assert pending == None ==> r.Rest() == rest;
        if pending == Some(Flush) {
          FlushFirst(args, rest);
        }
        state, written := ReadArgs(r, args);
        assert r.Rest() == inbox.Rest();
      case other => state, written := other, [];
    }
  }

  lemma FlushFirst(args: Args, rest: seq<Packet>)
    ensures Serve(ReadingArgs(args), [Flush] + rest) == Served(Answering(args), rest, [])
  {
    assert ([Flush] + rest)[1..] == rest;
  }
}
