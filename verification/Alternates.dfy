/**
 Opening a store and, recursively, the alternates it names: the in-flight set, cycles, teardown, and
 which worlds the recursion comes to an end in.
 */
module Alternates {
  import opened Options

  /** A canonical directory path. */
  type Dir = string

  /**
   What the file system holds. resolve maps a path to the commonDir it resolves to, when it is a usable
   repository; opening counts how many of its three backends open; alternates lists the entries of a
   commonDir's alternates file, None when that file cannot be read, and no key when there is no such file.
   */
  datatype World = World(resolve: map<Dir, Dir>, opening: map<Dir, nat>, alternates: map<Dir, Option<seq<Dir>>>)

  function Common(w: World, path: Dir): Dir {
    if path in w.resolve then w.resolve[path] else path
  }

  predicate Readable(w: World, common: Dir) {
    common in w.alternates ==> w.alternates[common].Some?
  }

  function Entries(w: World, common: Dir): seq<Dir> {
    if common in w.alternates && w.alternates[common].Some? then w.alternates[common].value else []
  }

  function Backends(w: World, path: Dir): nat {
    if path in w.resolve && path in w.opening then w.opening[path] else 0
  }

  /** The store behind path opens when its alternates do. */
  predicate Usable(w: World, path: Dir) {
    Backends(w, path) >= 3 && Readable(w, Common(w, path))
  }

  // ---------------------------------------------------------------- stores and the handles they hold

  datatype Store = Store(common: Dir, backends: set<nat>, alternates: seq<Store>)

  function Handles(s: Store): set<nat> {
    s.backends + AllHandles(s.alternates)
  }

  function AllHandles(ss: seq<Store>): set<nat> {
    if ss == [] then {} else AllHandles(ss[..|ss| - 1]) + Handles(ss[|ss| - 1])
  }

  /** The handles of a store are its backends and, at any depth, those of its alternates. */
  lemma {:induction false} HandlesAre(s: Store, h: nat)
    ensures h in Handles(s) <==> h in s.backends || exists i :: 0 <= i < |s.alternates| && h in Handles(s.alternates[i])
  {
    SomeHandle(s.alternates, h);
  }

  lemma {:induction false} SomeHandle(ss: seq<Store>, h: nat)
    ensures h in AllHandles(ss) <==> exists i :: 0 <= i < |ss| && h in Handles(ss[i])
    decreases |ss|
  {
    if ss != [] {
      SomeHandle(ss[..|ss| - 1], h);
    }
  }

  /** The set shared by one Open, and the backends open anywhere. */
  class Ledger {
    var seen: set<Dir>
    var live: set<nat>
    var next: nat

    ghost predicate Valid()
      reads this
    {
      forall h :: h in live ==> h < next
    }

    constructor ()
      ensures Valid() && seen == {} && live == {}
    {
      seen, live, next := {}, {}, 0;
    }

    method OpenBackend() returns (h: nat)
      requires Valid()
      modifies this
      ensures Valid() && h == old(next) && next == h + 1 && seen == old(seen) && live == old(live) + {h}
    {
      h := next;
      live, next := live + {h}, next + 1;
    }
  }

  /** Store.Close: the backends, then every alternate. */
  method CloseStore(l: Ledger, s: Store)
    requires l.Valid()
    modifies l
    ensures l.Valid() && l.live == old(l.live) - Handles(s) && l.seen == old(l.seen) && l.next == old(l.next)
    decreases s, 1
  {
    l.live := l.live - s.backends;
    CloseAll(l, s.alternates);
  }

  method CloseAll(l: Ledger, ss: seq<Store>)
    requires l.Valid()
    modifies l
    ensures l.Valid() && l.live == old(l.live) - AllHandles(ss) && l.seen == old(l.seen) && l.next == old(l.next)
    decreases ss, 0
  {
    if ss != [] {
      CloseAll(l, ss[..|ss| - 1]);
      CloseStore(l, ss[|ss| - 1]);
    }
  }

  // ---------------------------------------------------------------- the recursion

  /** How a call of openWithSeen ends within some depth of calls: not yet, or with this in-flight set. */
  datatype Run = Cut | Done(ok: bool, seen: set<Dir>)

  /**
   openWithSeen, at most fuel calls deep. The in-flight set is the shared map: a call adds its commonDir
   and on return deletes it, whether or not it was there before.
   */
  function Open(fuel: nat, w: World, seen: set<Dir>, path: Dir): Run
    decreases fuel, 0
  {
    if fuel == 0 then Cut
    else if Backends(w, path) < 3 then Done(false, seen)
    else
      var common := Common(w, path);
      var r := if Readable(w, common) then OpenEntries(fuel - 1, w, seen + {common}, Entries(w, common))
               else Done(false, seen + {common});
      if r.Cut? then Cut else Done(r.ok, r.seen - {common})
  }

  /** openAlternates, from some entry on: the first that is in flight or does not open fails the call. */
  function OpenEntries(fuel: nat, w: World, seen: set<Dir>, entries: seq<Dir>): Run
    decreases fuel, |entries|
  {
    if entries == [] then Done(true, seen)
    else if entries[0] in seen then Done(false, seen)
    else
      var r := Open(fuel, w, seen, entries[0]);
      if r.Cut? || !r.ok then r else OpenEntries(fuel, w, r.seen, entries[1..])
  }

  predicate Succeeds(r: Run) {
    r.Done? && r.ok
  }

  /** A call that comes to an end ends alike at every greater depth. */
  lemma {:induction false} MoreFuel(fuel: nat, more: nat, w: World, seen: set<Dir>, path: Dir)
    requires fuel <= more && Open(fuel, w, seen, path).Done?
    ensures Open(more, w, seen, path) == Open(fuel, w, seen, path)
    decreases fuel, 0
  {
    var common := Common(w, path);
    if Backends(w, path) >= 3 && Readable(w, common) {
      MoreFuelEntries(fuel - 1, more - 1, w, seen + {common}, Entries(w, common));
    }
  }

  lemma {:induction false} MoreFuelEntries(fuel: nat, more: nat, w: World, seen: set<Dir>, entries: seq<Dir>)
    requires fuel <= more && OpenEntries(fuel, w, seen, entries).Done?
    ensures OpenEntries(more, w, seen, entries) == OpenEntries(fuel, w, seen, entries)
    decreases fuel, |entries|
  {
    if entries != [] && entries[0] !in seen {
      var r := Open(fuel, w, seen, entries[0]);
      MoreFuel(fuel, more, w, seen, entries[0]);
      if r.ok {
        MoreFuelEntries(fuel, more, w, r.seen, entries[1..]);
      }
    }
  }

  // ---------------------------------------------------------------- the frames of a run

  /** to is an alternate of the store at from. */
  ghost predicate Edge(w: World, from: Dir, to: Dir) {
    to in Entries(w, Common(w, from))
  }

  /** A chain of alternates: the paths of the calls on the stack, outermost first. */
  ghost predicate Chain(w: World, p: seq<Dir>) {
    forall i :: 0 < i < |p| ==> Edge(w, p[i - 1], p[i])
  }

  /** The directories that the calls on the stack have in flight. */
  ghost function InFlight(w: World, p: seq<Dir>): set<Dir> {
    set i | 0 <= i < |p| :: Common(w, p[i])
  }

  lemma InFlightPush(w: World, s: seq<Dir>, path: Dir)
    ensures InFlight(w, s + [path]) == InFlight(w, s) + {Common(w, path)}
  {
    var p := s + [path];
    forall d
      ensures d in InFlight(w, s) ==> d in InFlight(w, p)
      ensures d in InFlight(w, p) ==> d in InFlight(w, s) + {Common(w, path)}
    {
      if d in InFlight(w, s) {
        var i :| 0 <= i < |s| && d == Common(w, s[i]);
        assert p[i] == s[i];
      }
      if d in InFlight(w, p) {
        var i :| 0 <= i < |p| && d == Common(w, p[i]);
        assert i < |s| ==> p[i] == s[i];
      }
    }
    assert p[|s|] == path;
  }

  lemma ChainPush(w: World, s: seq<Dir>, path: Dir)
    requires Chain(w, s) && (s != [] ==> Edge(w, s[|s| - 1], path))
    ensures Chain(w, s + [path])
  {
    hide Edge;
  }

  /** On a chain, an in-flight directory has a frame, and the path called from it is one of its entries. */
  lemma CalledFrom(w: World, s: seq<Dir>, path: Dir) returns (x: Dir)
    requires Chain(w, s + [path]) && Common(w, path) in InFlight(w, s)
    ensures x in Entries(w, Common(w, path)) && Common(w, x) in InFlight(w, s + [path])
  {
    var p := s + [path];
    var k :| 0 <= k < |s| && Common(w, path) == Common(w, s[k]);
    x := p[k + 1];
    assert Edge(w, p[k + 1 - 1], p[k + 1]);
  }

  /**
   A call that succeeds was not for a directory in flight, left the in-flight set as it found it, and had
   every entry succeed in turn. Were its directory in flight, the path the frame of that directory called
   would be one of its entries and succeed at a smaller depth, with its own directory in flight again.
   */
  lemma {:induction false} SuccessShape(fuel: nat, w: World, s: seq<Dir>, path: Dir)
    requires Chain(w, s + [path]) && Succeeds(Open(fuel, w, InFlight(w, s), path))
    ensures fuel > 0 && Usable(w, path) && Common(w, path) !in InFlight(w, s)
    ensures Open(fuel, w, InFlight(w, s), path).seen == InFlight(w, s)
    ensures forall e :: e in Entries(w, Common(w, path)) ==>
      e !in InFlight(w, s + [path]) && Succeeds(Open(fuel - 1, w, InFlight(w, s + [path]), e))
    decreases fuel, 0
  {
    hide Chain, InFlight, OpenEntries;
    var common := Common(w, path);
    InFlightPush(w, s, path);
    EntriesShape(fuel - 1, w, s + [path], Entries(w, common));
    if common in InFlight(w, s) {
      var x := CalledFrom(w, s, path);
      assert Edge(w, path, x);
      ChainPush(w, s + [path], x);
      SuccessShape(fuel - 1, w, s + [path], x);
      assert false;
    }
  }

  lemma {:induction false} EntriesShape(fuel: nat, w: World, s: seq<Dir>, entries: seq<Dir>)
    requires s != [] && Chain(w, s) && forall e :: e in entries ==> Edge(w, s[|s| - 1], e)
    requires Succeeds(OpenEntries(fuel, w, InFlight(w, s), entries))
    ensures OpenEntries(fuel, w, InFlight(w, s), entries).seen == InFlight(w, s)
    ensures forall e :: e in entries ==> e !in InFlight(w, s) && Succeeds(Open(fuel, w, InFlight(w, s), e))
    decreases fuel, |entries|
  {
    hide Chain, InFlight, Open, Entries;
    if entries != [] {
      assert entries[0] in entries && forall e :: e in entries[1..] ==> e in entries;
      ChainPush(w, s, entries[0]);
      SuccessShape(fuel, w, s, entries[0]);
      assert entries == [entries[0]] + entries[1..];
      EntriesShape(fuel, w, s, entries[1..]);
    }
  }

  // ---------------------------------------------------------------- when it succeeds

  /** Every store on the chain is usable, and none is named by, or resolves to, a directory in flight before it. */
  ghost predicate Clean(w: World, p: seq<Dir>) {
    forall k :: 0 <= k < |p| ==> CleanAt(w, p, k)
  }

  ghost predicate CleanAt(w: World, p: seq<Dir>, k: nat)
    requires k < |p|
  {
    Usable(w, p[k]) && p[k] !in InFlight(w, p[..k]) && Common(w, p[k]) !in InFlight(w, p[..k])
  }

  lemma {:induction false} SuccessAlong(fuel: nat, w: World, p: seq<Dir>, k: nat)
    requires Chain(w, p) && k < |p| && Succeeds(Open(fuel, w, {}, p[0]))
    ensures CleanAt(w, p, k)
    ensures k <= fuel && Succeeds(Open(fuel - k, w, InFlight(w, p[..k]), p[k]))
  {
    hide Open, Common, Entries;
    assert Chain(w, p[..k] + [p[k]]) by { assert p[..k] + [p[k]] == p[..k + 1]; }
    if k > 0 {
      SuccessAlong(fuel, w, p, k - 1);
      assert p[..k - 1] + [p[k - 1]] == p[..k];
      assert Chain(w, p[..k]);
      SuccessShape(fuel - (k - 1), w, p[..k - 1], p[k - 1]);
      assert Edge(w, p[k - 1], p[k]);
    } else {
      assert InFlight(w, p[..0]) == {};
    }
    SuccessShape(fuel - k, w, p[..k], p[k]);
  }

  /** How deep a call can go before a directory must repeat. */
  ghost function Room(w: World, inFlight: set<Dir>): nat {
    |w.resolve.Values - inFlight|
  }

  lemma RoomShrinks(w: World, inFlight: set<Dir>, path: Dir)
    requires path in w.resolve && w.resolve[path] !in inFlight
    ensures Room(w, inFlight + {w.resolve[path]}) < Room(w, inFlight)
  {
    var common := w.resolve[path];
    assert common in w.resolve.Values;
    var a, b := w.resolve.Values - inFlight, w.resolve.Values - (inFlight + {common});
    assert b + {common} == a && common !in b;
  }

  /** Where a call with room left does not succeed, some chain through it shows why. */
  lemma {:induction false} FailingChain(fuel: nat, w: World, s: seq<Dir>, path: Dir) returns (p: seq<Dir>)
    requires Chain(w, s + [path]) && fuel > Room(w, InFlight(w, s))
    requires !Succeeds(Open(fuel, w, InFlight(w, s), path))
    ensures Chain(w, p) && s + [path] <= p && !Clean(w, p)
    decreases fuel
  {
    hide Chain, InFlight, OpenEntries, Entries;
    p := s + [path];
    assert p[|s|] == path && p[..|s|] == s;
    var common := Common(w, path);
    if !Usable(w, path) || common in InFlight(w, s) {
      assert !CleanAt(w, p, |s|);
    } else {
      InFlightPush(w, s, path);
      RoomShrinks(w, InFlight(w, s), path);
      var e := FailingEntry(fuel - 1, w, p, Entries(w, common));
      EdgeOfEntry(w, p, e);
      ChainPush(w, p, e);
      if e in InFlight(w, p) {
        assert (p + [e])[..|p|] == p && (p + [e])[|p|] == e;
        assert !CleanAt(w, p + [e], |p|);
        p := p + [e];
      } else {
        p := FailingChain(fuel - 1, w, p, e);
      }
    }
  }

  lemma EdgeOfEntry(w: World, s: seq<Dir>, e: Dir)
    requires s != [] && e in Entries(w, Common(w, s[|s| - 1]))
    ensures Edge(w, s[|s| - 1], e)
  {
  }

  lemma {:induction false} FailingEntry(fuel: nat, w: World, s: seq<Dir>, entries: seq<Dir>) returns (e: Dir)
    requires s != [] && Chain(w, s) && forall e :: e in entries ==> Edge(w, s[|s| - 1], e)
    requires !Succeeds(OpenEntries(fuel, w, InFlight(w, s), entries))
    ensures e in entries && (e in InFlight(w, s) || !Succeeds(Open(fuel, w, InFlight(w, s), e)))
    decreases |entries|
  {
    hide Chain, InFlight, Open, Entries;
    assert entries[0] in entries && forall e :: e in entries[1..] ==> e in entries;
    e := entries[0];
    if e !in InFlight(w, s) && Succeeds(Open(fuel, w, InFlight(w, s), e)) {
      ChainPush(w, s, e);
      SuccessShape(fuel, w, s, e);
      e := FailingEntry(fuel, w, s, entries[1..]);
    }
  }

  /**
   In every world, opening a path succeeds exactly when every store its chains of alternates reach is usable
   and no chain comes back to a directory it has been through; two chains may meet.
   */
  lemma {:induction false} OpensExactly(w: World, path: Dir)
    ensures (exists fuel: nat :: Succeeds(Open(fuel, w, {}, path)))
      <==> forall p :: Chain(w, p) && p != [] && p[0] == path ==> Clean(w, p)
  {
    hide Open, Chain, CleanAt;
    if fuel: nat :| Succeeds(Open(fuel, w, {}, path)) {
      forall p | Chain(w, p) && p != [] && p[0] == path
        ensures Clean(w, p)
      {
        forall k | 0 <= k < |p|
          ensures CleanAt(w, p, k)
        {
          SuccessAlong(fuel, w, p, k);
        }
      }
      assert exists f: nat :: Succeeds(Open(f, w, {}, path));
    } else {
      EmptyChain(w);
      ChainPush(w, [], path);
      assert InFlight(w, []) == {};
      var p := FailingChain(Room(w, {}) + 1, w, [], path);
      assert Chain(w, p) && p != [] && p[0] == path && !Clean(w, p);
    }
  }

  lemma EmptyChain(w: World)
    ensures Chain(w, [])
  {
  }

  // ---------------------------------------------------------------- when it ends

  /** No depth of calls is enough. */
  ghost predicate RunsForEver(w: World, s: seq<Dir>, path: Dir) {
    forall fuel: nat :: Open(fuel, w, InFlight(w, s), path).Cut?
  }

  /** With the frames s, the innermost call comes to make the call for e: all entries before it have opened. */
  ghost predicate Calls(w: World, s: seq<Dir>, e: Dir)
    requires s != []
  {
    Usable(w, s[|s| - 1]) && exists i :: CallsEntry(w, s, e, i)
  }

  ghost predicate CallsEntry(w: World, s: seq<Dir>, e: Dir, i: int)
    requires s != []
  {
    var entries := Entries(w, Common(w, s[|s| - 1]));
    && 0 <= i < |entries| && entries[i] == e && e !in InFlight(w, s)
    && forall j :: 0 <= j < i ==> OpensUnder(w, s, entries[j])
  }

  ghost predicate OpensUnder(w: World, s: seq<Dir>, e: Dir) {
    e !in InFlight(w, s) && exists fuel: nat :: Succeeds(Open(fuel, w, InFlight(w, s), e))
  }

  /** The frames of a run: each call is made by the one before it. */
  ghost predicate LiveChain(w: World, p: seq<Dir>) {
    forall k :: 0 < k < |p| ==> Calls(w, p[..k], p[k])
  }

  /** The run comes back to a call it is in the middle of: the same path, with the same directories in flight. */
  ghost predicate Loops(w: World, p: seq<Dir>, i: int, j: int) {
    0 <= i < j < |p| && p[i] == p[j] && InFlight(w, p[..i]) == InFlight(w, p[..j])
  }

  lemma LiveIsChain(w: World, p: seq<Dir>)
    requires LiveChain(w, p)
    ensures Chain(w, p)
  {
    forall i | 0 < i < |p|
      ensures Edge(w, p[i - 1], p[i])
    {
      assert Calls(w, p[..i], p[i]);
      assert p[..i][|p[..i]| - 1] == p[i - 1];
    }
  }

  /** While the entries before it open, what ends the list ends an entry of it. */
  lemma {:induction false} EntryEnds(fuel: nat, w: World, s: seq<Dir>, entries: seq<Dir>, i: nat)
    requires s != [] && Chain(w, s) && forall e :: e in entries ==> Edge(w, s[|s| - 1], e)
    requires i < |entries| && entries[i] !in InFlight(w, s)
    requires forall j :: 0 <= j < i ==> OpensUnder(w, s, entries[j])
    requires OpenEntries(fuel, w, InFlight(w, s), entries).Done?
    ensures Open(fuel, w, InFlight(w, s), entries[i]).Done?
    decreases |entries|
  {
    hide Chain, InFlight, Open, Entries;
    if i > 0 {
      var e := entries[0];
      assert e in entries && forall x :: x in entries[1..] ==> x in entries;
      assert OpensUnder(w, s, entries[0]);
      EndsAlike(fuel, w, s, e);
      ChainPush(w, s, e);
      SuccessShape(fuel, w, s, e);
      forall j | 0 <= j < i - 1
        ensures OpensUnder(w, s, entries[1..][j])
      {
        assert entries[1..][j] == entries[j + 1];
      }
      EntryEnds(fuel, w, s, entries[1..], i - 1);
    }
  }

  /** A call that succeeds at one depth and ends at another succeeds there too. */
  lemma EndsAlike(fuel: nat, w: World, s: seq<Dir>, e: Dir)
    requires OpensUnder(w, s, e) && Open(fuel, w, InFlight(w, s), e).Done?
    ensures Succeeds(Open(fuel, w, InFlight(w, s), e))
  {
    hide Open, InFlight;
    var f: nat :| Succeeds(Open(f, w, InFlight(w, s), e));
    MoreFuel(f, if f < fuel then fuel else f, w, InFlight(w, s), e);
    MoreFuel(fuel, if f < fuel then fuel else f, w, InFlight(w, s), e);
  }

  /** A call that ends has every call it makes end one level sooner. */
  lemma {:induction false} CalleeEnds(fuel: nat, w: World, s: seq<Dir>, path: Dir, e: Dir)
    requires Chain(w, s + [path]) && Calls(w, s + [path], e) && Open(fuel, w, InFlight(w, s), path).Done?
    ensures fuel > 0 && Open(fuel - 1, w, InFlight(w, s + [path]), e).Done?
  {
    hide Chain, InFlight, OpenEntries;
    InFlightPush(w, s, path);
    var i :| CallsEntry(w, s + [path], e, i);
    EntryEnds(fuel - 1, w, s + [path], Entries(w, Common(w, path)), i);
  }

  lemma {:induction false} EndsAlong(fuel: nat, w: World, p: seq<Dir>, i: nat, k: nat)
    requires LiveChain(w, p) && i + k < |p| && Open(fuel, w, InFlight(w, p[..i]), p[i]).Done?
    ensures k <= fuel && Open(fuel - k, w, InFlight(w, p[..i + k]), p[i + k]).Done?
    decreases k
  {
    hide Open, InFlight, Calls;
    if k > 0 {
      EndsAlong(fuel, w, p, i, k - 1);
      var m := i + k - 1;
      assert p[..m] + [p[m]] == p[..m + 1];
      LiveIsChain(w, p);
      assert Chain(w, p[..m + 1]);
      CalleeEnds(fuel - (k - 1), w, p[..m], p[m], p[m + 1]);
    }
  }

  /** A call on a loop does not end: it would end at a smaller depth again. */
  lemma {:induction false} LoopCuts(fuel: nat, w: World, p: seq<Dir>, i: nat, j: nat)
    requires LiveChain(w, p) && Loops(w, p, i, j)
    ensures Open(fuel, w, InFlight(w, p[..i]), p[i]).Cut?
    decreases fuel
  {
    hide Open, InFlight, LiveChain;
    if Open(fuel, w, InFlight(w, p[..i]), p[i]).Done? {
      EndsAlong(fuel, w, p, i, j - i);
      LoopCuts(fuel - (j - i), w, p, i, j);
    }
  }

  /** The entries are called without an end at every depth. */
  ghost predicate Endless(w: World, s: seq<Dir>, entries: seq<Dir>) {
    forall fuel: nat :: OpenEntries(fuel, w, InFlight(w, s), entries).Cut?
  }

  /** A call that does not end makes one that does not. */
  lemma {:induction false} EndlessCallee(w: World, s: seq<Dir>, path: Dir) returns (e: Dir)
    requires Chain(w, s + [path]) && RunsForEver(w, s, path)
    ensures Calls(w, s + [path], e) && RunsForEver(w, s + [path], e)
  {
    hide Chain, InFlight, OpenEntries;
    InFlightPush(w, s, path);
    var common := Common(w, path);
    assert Open(1, w, InFlight(w, s), path).Cut?;
    assert Usable(w, path);
    forall f: nat
      ensures OpenEntries(f, w, InFlight(w, s + [path]), Entries(w, common)).Cut?
    {
      assert Open(f + 1, w, InFlight(w, s), path).Cut?;
    }
    var i;
    e, i := EndlessEntry(w, s + [path], Entries(w, common));
    assert CallsEntry(w, s + [path], e, i);
  }

  lemma {:induction false} EndlessEntry(w: World, s: seq<Dir>, entries: seq<Dir>) returns (e: Dir, i: nat)
    requires s != [] && Chain(w, s) && (forall e :: e in entries ==> Edge(w, s[|s| - 1], e))
    requires Endless(w, s, entries)
    ensures i < |entries| && entries[i] == e && e !in InFlight(w, s) && RunsForEver(w, s, e)
    ensures forall j :: 0 <= j < i ==> OpensUnder(w, s, entries[j])
    decreases |entries|
  {
    hide Chain, InFlight, Open, Entries;
    assert OpenEntries(0, w, InFlight(w, s), entries).Cut?;
    assert entries[0] in entries && forall x :: x in entries[1..] ==> x in entries;
    e, i := entries[0], 0;
    if f: nat :| Open(f, w, InFlight(w, s), e).Done? {
      assert OpenEntries(f, w, InFlight(w, s), entries).Cut?;
      ChainPush(w, s, e);
      SuccessShape(f, w, s, e);
      forall g: nat
        ensures OpenEntries(g, w, InFlight(w, s), entries[1..]).Cut?
      {
        RestEndless(f, g, w, s, entries);
      }
      e, i := EndlessEntry(w, s, entries[1..]);
      i := i + 1;
      forall j | 0 <= j < i
        ensures OpensUnder(w, s, entries[j])
      {
        assert j > 0 ==> entries[j] == entries[1..][j - 1];
      }
    }
  }

  lemma RestEndless(f: nat, g: nat, w: World, s: seq<Dir>, entries: seq<Dir>)
    requires entries != [] && Endless(w, s, entries)
    requires entries[0] !in InFlight(w, s)
    requires Open(f, w, InFlight(w, s), entries[0]) == Done(true, InFlight(w, s))
    ensures OpenEntries(g, w, InFlight(w, s), entries[1..]).Cut?
  {
    hide Open, InFlight;
    var more := if f < g then g else f;
    MoreFuel(f, more, w, InFlight(w, s), entries[0]);
    assert OpenEntries(more, w, InFlight(w, s), entries).Cut?;
    if OpenEntries(g, w, InFlight(w, s), entries[1..]).Done? {
      MoreFuelEntries(g, more, w, InFlight(w, s), entries[1..]);
    }
  }

  /**
   Following the calls that do not end from p's last one: from frame m on the same directories are in
   flight and the paths differ, so a new directory, a new path or a repeated call comes next.
   */
  lemma {:induction false} FindLoop(w: World, p: seq<Dir>, m: nat, visited: set<Dir>)
    returns (q: seq<Dir>, i: nat, j: nat)
    requires p != [] && LiveChain(w, p) && RunsForEver(w, p[..|p| - 1], p[|p| - 1])
    requires m < |p| && forall k :: m <= k < |p| ==> InFlight(w, p[..k]) == InFlight(w, p[..|p| - 1])
    requires visited == (set k | m <= k < |p| :: p[k])
    ensures q != [] && q[0] == p[0] && LiveChain(w, q) && Loops(w, q, i, j)
    decreases Room(w, InFlight(w, p[..|p| - 1])), |w.resolve.Keys - visited|
  {
    hide Chain, InFlight, Open, Calls, Room;
    var s, path := p[..|p| - 1], p[|p| - 1];
    assert s + [path] == p;
    LiveIsChain(w, p);
    EndlessResolves(w, s, path);
    var e := EndlessCallee(w, s, path);
    InFlightPush(w, s, path);
    q := p + [e];
    assert q[..|p|] == p && q[..|q| - 1] == p && q[|q| - 1] == e;
    LivePush(w, p, e);
    if Common(w, path) !in InFlight(w, s) {
      RoomShrinks(w, InFlight(w, s), path);
      assert (set k | |p| <= k < |q| :: q[k]) == {e};
      q, i, j := FindLoop(w, q, |p|, {e});
    } else if e in visited {
      i, j :| m <= i < |p| && e == p[i] && j == |p|;
      assert q[..i] == p[..i] && q[i] == p[i];
    } else {
      assert InFlight(w, p) == InFlight(w, s);
      forall k | m <= k < |q|
        ensures InFlight(w, q[..k]) == InFlight(w, p)
      {
        assert k < |p| ==> q[..k] == p[..k];
      }
      EndlessResolves(w, p, e);
      VisitPush(w, p, m, visited, e);
      q, i, j := FindLoop(w, q, m, visited + {e});
    }
  }

  lemma EndlessResolves(w: World, s: seq<Dir>, path: Dir)
    requires RunsForEver(w, s, path)
    ensures path in w.resolve
  {
    assert Open(1, w, InFlight(w, s), path).Cut?;
  }

  lemma LivePush(w: World, p: seq<Dir>, e: Dir)
    requires p != [] && LiveChain(w, p) && Calls(w, p, e)
    ensures LiveChain(w, p + [e])
  {
    hide Calls;
    var q := p + [e];
    forall k | 0 < k < |q|
      ensures Calls(w, q[..k], q[k])
    {
      assert q[..k] == if k < |p| then p[..k] else p;
    }
  }

  lemma VisitPush(w: World, p: seq<Dir>, m: nat, visited: set<Dir>, e: Dir)
    requires m < |p| && visited == (set k | m <= k < |p| :: p[k]) && e !in visited && e in w.resolve
    ensures (set k | m <= k < |p + [e]| :: (p + [e])[k]) == visited + {e}
    ensures |w.resolve.Keys - (visited + {e})| < |w.resolve.Keys - visited|
  {
    var q := p + [e];
    assert forall k :: m <= k < |p| ==> q[k] == p[k];
    assert q[|p|] == e;
    var a, b := w.resolve.Keys - visited, w.resolve.Keys - (visited + {e});
    assert b + {e} == a && e !in b;
  }

  /**
   In every world, opening a path runs for ever exactly when its calls come back to one they are in the
   middle of, with no directory put in flight since.
   */
  lemma {:induction false} EndlessExactly(w: World, path: Dir)
    ensures RunsForEver(w, [], path)
      <==> exists p, i, j :: LiveChain(w, p) && p != [] && p[0] == path && Loops(w, p, i, j)
  {
    hide Open, InFlight, LiveChain;
    if RunsForEver(w, [], path) {
      var p := [path];
      assert LiveChain(w, p) by { LiveOne(w, path); }
      assert p[..0] == [];
      var q, i, j := FindLoop(w, p, 0, {path});
    }
    if p, i, j :| LiveChain(w, p) && p != [] && p[0] == path && Loops(w, p, i, j) {
      forall fuel: nat
        ensures Open(fuel, w, InFlight(w, []), path).Cut?
      {
        assert p[..0] == [];
        if Open(fuel, w, InFlight(w, []), path).Done? {
          EndsAlong(fuel, w, p, 0, i);
          LoopCuts(fuel - i, w, p, i, j);
        }
      }
    }
  }

  lemma LiveOne(w: World, path: Dir)
    ensures LiveChain(w, [path])
  {
  }

  // ---------------------------------------------------------------- when every alternate is its own commonDir

  /** Each alternate that is a repository is its own commonDir; the cycle check takes this for granted. */
  ghost predicate OwnCommonDir(w: World) {
    forall c, e :: e in Entries(w, c) ==> Common(w, e) == e
  }

  /** Then every call ends, within as many levels as there are commonDirs, and restores the in-flight set. */
  lemma {:induction false} OwnEnds(fuel: nat, w: World, seen: set<Dir>, path: Dir)
    requires OwnCommonDir(w) && Common(w, path) !in seen && fuel > Room(w, seen)
    ensures Open(fuel, w, seen, path).Done? && Open(fuel, w, seen, path).seen == seen
    decreases fuel, 0
  {
    hide OpenEntries, Entries, OwnCommonDir, Room;
    var common := Common(w, path);
    if Usable(w, path) {
      RoomShrinks(w, seen, path);
      assert forall e :: e in Entries(w, common) ==> Common(w, e) == e by { OwnEntries(w, common); }
      OwnEntriesEnd(fuel - 1, w, seen + {common}, Entries(w, common));
    }
  }

  lemma {:induction false} OwnEntriesEnd(fuel: nat, w: World, seen: set<Dir>, entries: seq<Dir>)
    requires OwnCommonDir(w) && (forall e :: e in entries ==> Common(w, e) == e) && fuel > Room(w, seen)
    ensures OpenEntries(fuel, w, seen, entries).Done? && OpenEntries(fuel, w, seen, entries).seen == seen
    decreases fuel, |entries|
  {
    hide Open, Entries, OwnCommonDir, Room;
    if entries != [] && entries[0] !in seen {
      assert entries[0] in entries;
      OwnEnds(fuel, w, seen, entries[0]);
      assert forall e :: e in entries[1..] ==> e in entries;
      OwnEntriesEnd(fuel, w, seen, entries[1..]);
    }
  }

  lemma OwnEntries(w: World, common: Dir)
    requires OwnCommonDir(w)
    ensures forall e :: e in Entries(w, common) ==> Common(w, e) == e
  {
  }

  /** A call leaves nothing in flight that was not. */
  lemma {:induction false} SeenShrinks(fuel: nat, w: World, seen: set<Dir>, path: Dir)
    requires Open(fuel, w, seen, path).Done?
    ensures Open(fuel, w, seen, path).seen <= seen
    decreases fuel, 0
  {
    if Backends(w, path) >= 3 && Readable(w, Common(w, path)) {
      EntriesShrink(fuel - 1, w, seen + {Common(w, path)}, Entries(w, Common(w, path)));
    }
  }

  lemma {:induction false} EntriesShrink(fuel: nat, w: World, seen: set<Dir>, entries: seq<Dir>)
    requires OpenEntries(fuel, w, seen, entries).Done?
    ensures OpenEntries(fuel, w, seen, entries).seen <= seen
    decreases fuel, |entries|
  {
    hide Open;
    if entries != [] && entries[0] !in seen {
      SeenShrinks(fuel, w, seen, entries[0]);
      var r := Open(fuel, w, seen, entries[0]);
      if r.ok {
        EntriesShrink(fuel, w, r.seen, entries[1..]);
      }
    }
  }

  /** One alternate that resolves to another commonDir can send the recursion round for ever. */
  lemma RoundForEver()
    ensures RunsForEver(World(map["a" := "a", "b" := "a"], map["a" := 3, "b" := 3], map["a" := Some(["b"])]), [], "a")
  {
    var w := World(map["a" := "a", "b" := "a"], map["a" := 3, "b" := 3], map["a" := Some(["b"])]);
    var p := ["a", "b", "b"];
    hide Open;
    assert Entries(w, "a") == ["b"];
    assert InFlight(w, ["a"]) == {"a"} by { InFlightPush(w, [], "a"); assert [] + ["a"] == ["a"]; }
    assert InFlight(w, ["a", "b"]) == {"a"} by { InFlightPush(w, ["a"], "b"); assert ["a"] + ["b"] == ["a", "b"]; }
    assert CallsEntry(w, ["a"], "b", 0) && CallsEntry(w, ["a", "b"], "b", 0);
    assert p[..1] == ["a"] && p[..2] == ["a", "b"];
    assert LiveChain(w, p) && Loops(w, p, 1, 2);
    EndlessExactly(w, "a");
  }

  // ---------------------------------------------------------------- opening

  /**
   s is the store the world has at path: its commonDir, three backends, and in the order of its alternates
   file the stores of the entries there; none when there is no such file.
   */
  ghost predicate IsStoreAt(w: World, path: Dir, s: Store)
    decreases s
  {
    && path in w.resolve && s.common == w.resolve[path]
    && path in w.opening && w.opening[path] >= 3 && |s.backends| == 3
    && if s.common in w.alternates then
         w.alternates[s.common].Some? && AreStoresAt(w, w.alternates[s.common].value, s.alternates)
       else s.alternates == []
  }

  ghost predicate AreStoresAt(w: World, paths: seq<Dir>, ss: seq<Store>)
    decreases ss
  {
    |ss| == |paths| && forall i :: 0 <= i < |ss| ==> IsStoreAt(w, paths[i], ss[i])
  }

  /** The backends of one store; a failure closes the ones already open. */
  method OpenBackends(l: Ledger, n: nat) returns (r: Option<set<nat>>)
    requires l.Valid()
    modifies l
    ensures l.Valid() && l.seen == old(l.seen) && l.next >= old(l.next)
    ensures r.Some? <==> n >= 3
    ensures r == None ==> l.live == old(l.live)
    ensures r.Some? ==> |r.value| == 3 && l.live == old(l.live) + r.value
    ensures r.Some? ==> forall h :: h in r.value ==> old(l.next) <= h < l.next
  {
    var held: set<nat> := {};
    for i := 0 to 3
      invariant l.Valid() && l.seen == old(l.seen) && l.next >= old(l.next)
      invariant n >= i && l.live == old(l.live) + held
      invariant |held| == i && forall h :: h in held ==> old(l.next) <= h < l.next
    {
      if n <= i {
        assert forall h :: h in held ==> h !in old(l.live);
        l.live := l.live - held;
        return None;
      }
      var h := l.OpenBackend();
      assert h !in held;
      held := held + {h};
    }
    return Some(held);
  }

  /**
   openWithSeen, in every world and from every in-flight set in which it ends: the recursion it describes,
   and nothing stays open behind a failure.
   */
  method OpenWithSeen(l: Ledger, w: World, path: Dir, ghost fuel: nat) returns (r: Option<Store>)
    requires l.Valid() && Open(fuel, w, l.seen, path).Done?
    modifies l
    ensures Open(fuel, w, old(l.seen), path) == Done(r.Some?, l.seen)
    ensures l.Valid() && l.next >= old(l.next)
    ensures r == None ==> l.live == old(l.live)
    ensures r.Some? ==> IsStoreAt(w, path, r.value) && l.live == old(l.live) + Handles(r.value)
    ensures r.Some? ==> forall h :: h in Handles(r.value) ==> old(l.next) <= h < l.next
    decreases fuel, 0
  {
    hide OpenEntries, AreStoresAt, IsStoreAt;
    if path !in w.resolve {
      return None;
    }
    var common := w.resolve[path];
    var backends := OpenBackends(l, Backends(w, path));
    if backends == None {
      return None;
    }
    l.seen := l.seen + {common};
    var alternates := OpenAlternates(l, w, common, fuel - 1);
    l.seen := l.seen - {common};
    if alternates == None {
      assert forall h :: h in backends.value ==> h !in old(l.live);
      l.live := l.live - backends.value;
      return None;
    }
    StoreMade(w, path, backends.value, alternates.value);
    r := Some(Store(common, backends.value, alternates.value));
  }

  lemma StoreMade(w: World, path: Dir, backends: set<nat>, ss: seq<Store>)
    requires path in w.resolve && path in w.opening && w.opening[path] >= 3 && |backends| == 3
    requires
      var common := w.resolve[path];
      if common in w.alternates then w.alternates[common].Some? && AreStoresAt(w, w.alternates[common].value, ss)
      else ss == []
    ensures IsStoreAt(w, path, Store(w.resolve[path], backends, ss))
  {
    hide AreStoresAt;
  }

  /** openAlternates: an entry in flight is a cycle, a repeat of a finished one is not. */
  method OpenAlternates(l: Ledger, w: World, common: Dir, ghost fuel: nat) returns (r: Option<seq<Store>>)
    requires l.Valid() && (Readable(w, common) ==> OpenEntries(fuel, w, l.seen, Entries(w, common)).Done?)
    modifies l
    ensures if Readable(w, common) then OpenEntries(fuel, w, old(l.seen), Entries(w, common)) == Done(r.Some?, l.seen)
            else r == None && l.seen == old(l.seen)
    ensures l.Valid() && l.next >= old(l.next)
    ensures r == None ==> l.live == old(l.live)
    ensures r.Some? ==> l.live == old(l.live) + AllHandles(r.value)
    ensures r.Some? ==>
      if common in w.alternates then w.alternates[common].Some? && AreStoresAt(w, w.alternates[common].value, r.value)
      else r.value == []
    ensures r.Some? ==> forall h :: h in AllHandles(r.value) ==> old(l.next) <= h < l.next
    decreases fuel, |Entries(w, common)| + 1
  {
    hide Open, IsStoreAt;
    if common !in w.alternates {
      return Some([]);
    }
    if w.alternates[common] == None {
      return None;
    }
    var entries := w.alternates[common].value;
    var held: seq<Store> := [];
    assert entries[0..] == entries;
    for i := 0 to |entries|
      invariant l.Valid() && l.next >= old(l.next)
      invariant l.live == old(l.live) + AllHandles(held)
      invariant forall h :: h in AllHandles(held) ==> old(l.next) <= h < l.next
      invariant OpenEntries(fuel, w, l.seen, entries[i..]) == OpenEntries(fuel, w, old(l.seen), entries)
      invariant |held| == i && forall k :: 0 <= k < i ==> IsStoreAt(w, entries[k], held[k])
    {
      assert entries[i..][0] == entries[i] && entries[i..][1..] == entries[i + 1..];
      if entries[i] in l.seen {
        assert forall h :: h in AllHandles(held) ==> h !in old(l.live);
        CloseAll(l, held);
        return None;
      }
      var alt := OpenWithSeen(l, w, entries[i], fuel);
      if alt == None {
        assert forall h :: h in AllHandles(held) ==> h !in old(l.live);
        CloseAll(l, held);
        return None;
      }
      assert (held + [alt.value])[..|held|] == held;
      held := held + [alt.value];
    }
    return Some(held);
  }

  /**
   objstore.Open, wherever it ends: it succeeds exactly when every chain of alternates is clean, then holds
   its own handles and no other, holds none after a failure, and leaves nothing in flight.
   */
  method OpenStore(w: World, path: Dir) returns (l: Ledger, r: Option<Store>)
    requires !RunsForEver(w, [], path)
    ensures fresh(l) && l.Valid() && l.seen == {}
    ensures r.Some? <==> forall p :: Chain(w, p) && p != [] && p[0] == path ==> Clean(w, p)
    ensures r.Some? ==> IsStoreAt(w, path, r.value)
    ensures l.live == if r.Some? then Handles(r.value) else {}
  {
    hide Open, Chain, Clean;
    l := new Ledger();
    ghost var fuel: nat :| Open(fuel, w, InFlight(w, []), path).Done?;
    assert InFlight(w, []) == {};
    r := OpenWithSeen(l, w, path, fuel);
    SeenShrinks(fuel, w, {}, path);
    OpensExactly(w, path);
    Outcome(fuel, w, path);
  }

  /** A call that ends says whether some depth succeeds. */
  lemma Outcome(fuel: nat, w: World, path: Dir)
    requires Open(fuel, w, {}, path).Done?
    ensures Succeeds(Open(fuel, w, {}, path)) <==> exists f: nat :: Succeeds(Open(f, w, {}, path))
  {
    hide Open;
    forall f: nat | Succeeds(Open(f, w, {}, path))
      ensures Succeeds(Open(fuel, w, {}, path))
    {
      MoreFuel(f, if f < fuel then fuel else f, w, {}, path);
      MoreFuel(fuel, if f < fuel then fuel else f, w, {}, path);
    }
  }
}
