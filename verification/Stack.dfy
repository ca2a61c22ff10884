/**
 A stack of reftables, oldest first: the merge at open time, the sorted view, and the release of
 the readers when a table fails or the stack is closed.
 */
module Stack {
  import opened Options
  import opened Bytes
  import opened RecordKey
  import opened RefRecord
  import opened Table

  // ---------------------------------------------------------------- what the merge means

  /** The last record of the log that mentions name. */
  function LastMention(log: seq<Record>, name: bytes): (r: Option<Record>)
    ensures r.Some? ==> r.value in log && r.value.name == name
    ensures r.None? ==> forall x :: x in log ==> x.name != name
  {
    if log == [] then None
    else
      var last := log[|log| - 1];
      if last.name == name then Some(last) else LastMention(log[..|log| - 1], name)
  }

  lemma {:induction false} LastMentionIs(log: seq<Record>, i: nat)
    requires i < |log| && forall j :: i < j < |log| ==> log[j].name != log[i].name
    ensures LastMention(log, log[i].name) == Some(log[i])
    decreases |log|
  {
    if i < |log| - 1 {
      LastMentionIs(log[..|log| - 1], i);
    }
  }

  /** A name is visible when its last mention is not a tombstone. */
  ghost predicate Shows(merged: map<bytes, Record>, log: seq<Record>) {
    forall name: bytes ::
      var m := LastMention(log, name);
      && (name in merged <==> m.Some? && m.value.value != Deletion)
      && (name in merged ==> merged[name] == m.value)
  }

  /** The tables one after another, oldest first. */
  function Log(tables: seq<seq<Record>>): seq<Record> {
    if tables == [] then [] else Log(tables[..|tables| - 1]) + tables[|tables| - 1]
  }

  /** Table k is the newest to mention name. */
  ghost predicate NewestMentioning(tables: seq<seq<Record>>, k: nat, name: bytes) {
    && k < |tables| && (exists r :: r in tables[k] && r.name == name)
    && forall j, r :: k < j < |tables| && r in tables[j] ==> r.name != name
  }

  lemma {:induction false} LastMentionAppend(a: seq<Record>, b: seq<Record>, name: bytes)
    ensures LastMention(a + b, name) ==
      if LastMention(b, name).Some? then LastMention(b, name) else LastMention(a, name)
  {
    if b == [] {
      assert a + b == a;
    } else {
      assert (a + b)[..|a + b| - 1] == a + b[..|b| - 1];
      LastMentionAppend(a, b[..|b| - 1], name);
    }
  }

  /** The last mention in the log is the last mention in the newest table that has one. */
  lemma {:induction false} NewestTableWins(tables: seq<seq<Record>>, k: nat, name: bytes)
    requires NewestMentioning(tables, k, name)
    ensures LastMention(Log(tables), name) == LastMention(tables[k], name)
    ensures LastMention(tables[k], name).Some?
  {
    var n := |tables| - 1;
    LastMentionAppend(Log(tables[..n]), tables[n], name);
    if k < n {
      assert LastMention(tables[n], name).None?;
      NewestTableWins(tables[..n], k, name);
    }
  }

  /** No table mentions the name: the log does not either. */
  lemma {:induction false} Unmentioned(tables: seq<seq<Record>>, name: bytes)
    requires forall k, r :: 0 <= k < |tables| && r in tables[k] ==> r.name != name
    ensures LastMention(Log(tables), name).None?
  {
    if tables != [] {
      var n := |tables| - 1;
      Unmentioned(tables[..n], name);
      LastMentionAppend(Log(tables[..n]), tables[n], name);
    }
  }

  /** The whole reading of a merged view: newest table first, tombstones hide, nothing else appears. */
  lemma MergedMeaning(merged: map<bytes, Record>, tables: seq<seq<Record>>, name: bytes)
    requires Shows(merged, Log(tables))
    ensures forall k: nat :: NewestMentioning(tables, k, name) ==>
      var r := LastMention(tables[k], name);
      && r.Some? && (name in merged <==> r.value.value != Deletion) && (name in merged ==> merged[name] == r.value)
    ensures name in merged ==> exists k: nat :: NewestMentioning(tables, k, name)
  {
    forall k: nat | NewestMentioning(tables, k, name)
      ensures LastMention(Log(tables), name) == LastMention(tables[k], name) && LastMention(tables[k], name).Some?
    {
      NewestTableWins(tables, k, name);
    }
    if name in merged {
      if forall k, r :: 0 <= k < |tables| && r in tables[k] ==> r.name != name {
        Unmentioned(tables, name);
        assert false;
      }
      var k := FindNewest(tables, name, |tables|);
    }
  }

  /** r is what the newest table mentioning name says of it: nothing when there is none or it deletes the name. */
  ghost predicate NewestSays(tables: seq<seq<Record>>, name: bytes, r: Option<Record>) {
    && (forall k: nat :: NewestMentioning(tables, k, name) ==>
      var m := LastMention(tables[k], name);
      m.Some? && r == if m.value.value == Deletion then None else m)
    && (r.Some? ==> r.value.name == name && exists k: nat :: NewestMentioning(tables, k, name))
  }

  lemma ViewSays(merged: map<bytes, Record>, tables: seq<seq<Record>>, name: bytes)
    requires Shows(merged, Log(tables))
    ensures NewestSays(tables, name, if name in merged then Some(merged[name]) else None)
  {
    hide Log, NewestMentioning;
    MergedMeaning(merged, tables, name);
  }

  lemma {:induction false} FindNewest(tables: seq<seq<Record>>, name: bytes, n: nat) returns (k: nat)
    requires n <= |tables| && exists j, r :: 0 <= j < n && r in tables[j] && r.name == name
    requires forall j, r :: n <= j < |tables| && r in tables[j] ==> r.name != name
    ensures NewestMentioning(tables, k, name)
    decreases n
  {
    if exists r :: r in tables[n - 1] && r.name == name {
      k := n - 1;
    } else {
      k := FindNewest(tables, name, n - 1);
    }
  }

  /** One record of the merge: a tombstone deletes, anything else replaces. */
  lemma ShowsStep(merged: map<bytes, Record>, log: seq<Record>, rec: Record)
    requires Shows(merged, log)
    ensures Shows(if rec.value == Deletion then merged - {rec.name} else merged[rec.name := rec], log + [rec])
  {
    var next := if rec.value == Deletion then merged - {rec.name} else merged[rec.name := rec];
    assert (log + [rec])[..|log|] == log;
  }

  // ---------------------------------------------------------------- sorted names

  /** name in its place among ascending names. */
  function Insert(names: seq<bytes>, name: bytes): seq<bytes> {
    if names == [] || Less(name, names[0]) then [name] + names else [names[0]] + Insert(names[1..], name)
  }

  lemma {:induction false} InsertKeepsOrder(names: seq<bytes>, name: bytes)
    requires Ascending(names) && name !in names
    ensures Ascending(Insert(names, name))
    ensures forall x :: x in Insert(names, name) <==> x in names || x == name
  {
    if names == [] {
    } else if Less(name, names[0]) {
      forall j | 0 <= j < |names|
        ensures Less(name, names[j])
      {
        if j > 0 {
          LessTransitive(name, names[0], names[j]);
        }
      }
    } else {
      var rest := Insert(names[1..], name);
      InsertKeepsOrder(names[1..], name);
      LessTotal(name, names[0]);
      forall j | 0 <= j < |rest|
        ensures Less(names[0], rest[j])
      {
        assert rest[j] in rest;
        assert rest[j] in names[1..] ==> exists i :: 0 < i < |names| && names[i] == rest[j];
      }
      assert names == [names[0]] + names[1..];
    }
  }

  /** slices.Sorted(maps.Keys(m)): the keys arrive in any order. */
  method SortedKeys(m: map<bytes, Record>) returns (names: seq<bytes>)
    ensures Ascending(names) && (forall x :: x in names <==> x in m)
  {
    hide Ascending, Insert, Less;
    names := [];
    assert Ascending(names) by {
      EmptyAscends();
    }
    var keys := m.Keys;
    while keys != {}
      invariant keys <= m.Keys && Ascending(names)
      invariant forall x :: x in names <==> x in m && x !in keys
      decreases |keys|
    {
      var k :| k in keys;
      InsertKeepsOrder(names, k);
      names := Insert(names, k);
      keys := keys - {k};
    }
  }

  lemma EmptyAscends()
    ensures Ascending([])
  {
  }

  // ---------------------------------------------------------------- readers and the stack

  /** A table file: its bytes and parsed header, or a file OpenReader rejects. */
  datatype Source = Opens(file: bytes, header: Header) | Rejected(error: Error)

  class Reader {
    const file: bytes
    const header: Header
    var closed: bool

    constructor (file: bytes, header: Header)
      ensures this.file == file && this.header == header && !closed
    {
      this.file, this.header, closed := file, header, false;
    }

    method Close()
      modifies this
      ensures closed
    {
      closed := true;
    }
  }

  method CloseAll(readers: seq<Reader>)
    modifies readers
    ensures forall r :: r in readers ==> r.closed
  {
    for i := 0 to |readers|
      invariant forall k :: 0 <= k < i ==> readers[k].closed
    {
      readers[i].Close();
    }
  }

  ghost predicate Holds(r: Reader, s: Source) {
    s.Opens? && r.file == s.file && r.header == s.header
  }

  /** The records of each table, as iteration yields them. */
  ghost function TablesOf(sources: seq<Source>): (t: seq<seq<Record>>)
    requires forall s :: s in sources ==> s.Opens?
    ensures |t| == |sources|
    ensures forall i :: 0 <= i < |sources| ==> t[i] == Flatten(Leaves(sources[i].file, sources[i].header).leaves)
  {
    seq(|sources|, i requires 0 <= i < |sources| => Flatten(Leaves(sources[i].file, sources[i].header).leaves))
  }

  ghost predicate Usable(s: Source) {
    s.Opens? ==> ValidHeader(s.header) && |s.file| < U32
  }

  class Stack {
    var readers: seq<Reader>
    var merged: map<bytes, Record>
    var sorted: seq<bytes>
    ghost var tables: seq<seq<Record>>

    /** The view is the merge of the tables, oldest first, and sorted lists its names in order. */
    ghost predicate Valid()
      reads this
    {
      && Shows(merged, Log(tables))
      && Ascending(sorted) && forall x :: x in sorted <==> x in merged
    }

    constructor (readers: seq<Reader>, merged: map<bytes, Record>, sorted: seq<bytes>, ghost tables: seq<seq<Record>>)
      requires Shows(merged, Log(tables)) && Ascending(sorted) && forall x :: x in sorted <==> x in merged
      ensures Valid() && this.readers == readers && this.tables == tables
    {
      hide Shows, Log, Ascending;
      this.readers, this.merged, this.sorted, this.tables := readers, merged, sorted, tables;
    }

    /** FindRef: the record of the newest table mentioning the name, and nothing when that table deletes it. */
    method FindRef(name: bytes) returns (r: Option<Record>)
      requires Valid()
      ensures NewestSays(tables, name, r)
    {
      ViewSays(merged, tables, name);
      if name in merged {
        return Some(merged[name]);
      }
      return None;
    }

    /** IterRefs: in name order, once each, the records the newest tables give; a name passed over has none. */
    method IterRefs() returns (records: seq<Record>)
      requires Valid()
      ensures Ascending(Names(records))
      ensures forall r :: r in records ==> NewestSays(tables, r.name, Some(r))
      ensures forall name :: name !in Names(records) ==> NewestSays(tables, name, None)
    {
      hide Log, NewestSays;
      records := [];
      for i := 0 to |sorted|
        invariant |records| == i && forall k :: 0 <= k < i ==> records[k] == merged[sorted[k]]
      {
        assert sorted[i] in sorted;
        records := records + [merged[sorted[i]]];
      }
      assert Names(records) == sorted by {
        forall i | 0 <= i < |sorted|
          ensures records[i].name == sorted[i]
        {
          assert sorted[i] in sorted;
        }
      }
      forall name: bytes
        ensures NewestSays(tables, name, if name in merged then Some(merged[name]) else None)
      {
        ViewSays(merged, tables, name);
      }
      forall r | r in records
        ensures NewestSays(tables, r.name, Some(r))
      {
        var i :| 0 <= i < |records| && records[i] == r;
        assert sorted[i] in sorted;
        assert merged[sorted[i]] == r && r.name == sorted[i];
      }
    }

    /** Close releases every reader, and a second call finds none to release. */
    method Close()
      modifies this, readers
      ensures forall r :: r in old(readers) ==> r.closed
      ensures Valid() && readers == [] && merged == map[] && sorted == [] && tables == []
    {
      var rs := readers;
      readers, merged, sorted, tables := [], map[], [], [];
      CloseAll(rs);
    }
  }

  function Names(records: seq<Record>): (names: seq<bytes>)
    ensures |names| == |records| && forall i :: 0 <= i < |records| ==> names[i] == records[i].name
  {
    seq(|records|, i requires 0 <= i < |records| => records[i].name)
  }

  method OpenReaders(sources: seq<Source>) returns (readers: seq<Reader>, err: Option<Error>)
    requires forall s :: s in sources ==> Usable(s)
    ensures forall i :: 0 <= i < |readers| ==> fresh(readers[i])
    ensures err == None <==> forall s :: s in sources ==> s.Opens?
    ensures err.Some? ==> forall r :: r in readers ==> r.closed
    ensures err == None ==> |readers| == |sources|
    ensures err == None ==> forall i :: 0 <= i < |sources| ==> Holds(readers[i], sources[i]) && !readers[i].closed
  {
    readers, err := [], None;
    for i := 0 to |sources|
      invariant |readers| == i && forall k :: 0 <= k < i ==> fresh(readers[k])
      invariant forall k :: 0 <= k < i ==> Holds(readers[k], sources[k]) && !readers[k].closed
    {
      match sources[i] {
        case Rejected(e) =>
          CloseAll(readers);
          assert sources[i] in sources;
          return readers, Some(e);
        case Opens(file, header) =>
          var r := new Reader(file, header);
          readers := readers + [r];
      }
    }
  }

  /** The inner loop of the merge over one table's records. */
  method MergeTable(merged: map<bytes, Record>, records: seq<Record>, ghost log: seq<Record>)
    returns (next: map<bytes, Record>)
    requires Shows(merged, log)
    ensures Shows(next, log + records)
  {
    hide Shows;
    next := merged;
    assert log + records[..0] == log;
    for i := 0 to |records|
      invariant Shows(next, log + records[..i])
    {
      var rec := records[i];
      ShowsStep(next, log + records[..i], rec);
      assert log + records[..i] + [rec] == log + records[..i + 1];
      if rec.value.Deletion? {
        next := next - {rec.name};
      } else {
        next := next[rec.name := rec];
      }
    }
    assert records[..|records|] == records;
  }

  /** OpenStack after the manifest has been read: every table is opened before any is merged. */
  method OpenStack(sources: seq<Source>) returns (stack: Option<Stack>, readers: seq<Reader>)
    requires forall s :: s in sources ==> Usable(s)
    ensures forall i :: 0 <= i < |readers| ==> fresh(readers[i])
    ensures stack.Some? <==> forall s :: s in sources ==> s.Opens? && Leaves(s.file, s.header).err == None
    ensures stack == None ==> forall r :: r in readers ==> r.closed
    ensures stack.Some? ==>
      && stack.value.Valid() && stack.value.tables == TablesOf(sources)
      && stack.value.readers == readers && |readers| == |sources|
      && forall i :: 0 <= i < |readers| ==> !readers[i].closed
  {
    hide Shows, Leaves, Log;
    var err;
    readers, err := OpenReaders(sources);
    if err.Some? {
      return None, readers;
    }
    var merged: map<bytes, Record> := map[];
    ghost var tables := TablesOf(sources);
    EmptyShows(tables);
    for i := 0 to |readers|
      invariant Shows(merged, Log(tables[..i]))
      invariant forall k :: 0 <= k < i ==> Leaves(sources[k].file, sources[k].header).err == None
      invariant forall k :: 0 <= k < |readers| ==> !readers[k].closed
    {
      assert Usable(sources[i]) && sources[i] in sources;
      var records, e := IterAllRefs(readers[i].file, readers[i].header);
      if e.Some? {
        CloseAll(readers);
        return None, readers;
      }
      merged := MergeTable(merged, records, Log(tables[..i]));
      LogStep(tables, i);
    }
    assert tables[..|readers|] == tables;
    var sorted := SortedKeys(merged);
    var s := new Stack(readers, merged, sorted, tables);
    return Some(s), readers;
  }

  lemma EmptyShows(tables: seq<seq<Record>>)
    ensures Shows(map[], Log(tables[..0]))
  {
  }

  lemma LogStep(tables: seq<seq<Record>>, i: nat)
    requires i < |tables|
    ensures Log(tables[..i + 1]) == Log(tables[..i]) + tables[i]
  {
    assert tables[..i + 1][..i] == tables[..i];
  }

  // ---------------------------------------------------------------- tables.list

  const LF: byte := 10

  /** bytes.Split on line feeds: always at least one piece. */
  function Lines(b: bytes): (lines: seq<bytes>)
    ensures |lines| >= 1 && forall l :: l in lines ==> LF !in l
  {
    if b == [] then [[]]
    else
      var rest := Lines(b[1..]);
      if b[0] == LF then [[]] + rest else [[b[0]] + rest[0]] + rest[1..]
  }

  function Joined(lines: seq<bytes>): bytes
    requires lines != []
  {
    if |lines| == 1 then lines[0] else lines[0] + [LF] + Joined(lines[1..])
  }

  lemma {:induction false} LinesJoined(lines: seq<bytes>)
    requires lines != [] && forall l :: l in lines ==> LF !in l
    ensures Lines(Joined(lines)) == lines
    decreases Joined(lines)
  {
    var b := Joined(lines);
    if lines[0] == [] {
      if |lines| > 1 {
        assert b[1..] == Joined(lines[1..]);
        assert forall l :: l in lines[1..] ==> l in lines;
        LinesJoined(lines[1..]);
      }
    } else {
      var cut := [lines[0][1..]] + lines[1..];
      assert cut[1..] == lines[1..];
      assert b[1..] == Joined(cut) && b[0] == lines[0][0];
      assert lines[0] in lines && lines[0] == [b[0]] + lines[0][1..];
      assert forall l :: l in lines[1..] ==> l in lines;
      assert forall l :: l in cut ==> l == lines[0][1..] || l in lines[1..];
      LinesJoined(cut);
    }
  }

  lemma {:induction false} JoinedLines(b: bytes)
    ensures Joined(Lines(b)) == b
  {
    if b != [] {
      JoinedLines(b[1..]);
      var rest := Lines(b[1..]);
      if b[0] == LF {
        assert ([[]] + rest)[1..] == rest;
      } else {
        assert Lines(b)[1..] == rest[1..];
      }
    }
  }

  function TablesList(raw: bytes): Option<seq<bytes>> {
    if raw == [] then Some([])
    else
      var lines := Lines(if raw[|raw| - 1] == LF then raw[..|raw| - 1] else raw);
      if [] in lines then None else Some(lines)
  }

  method ParseTablesList(raw: bytes) returns (r: Option<seq<bytes>>)
    ensures r == TablesList(raw)
  {
    if |raw| == 0 {
      return Some([]);
    }
    var trimmed := raw;
    if trimmed[|trimmed| - 1] == LF {
      trimmed := trimmed[..|trimmed| - 1];
    }
    var parts := Lines(trimmed);
    var out := [];
    for i := 0 to |parts|
      invariant out == parts[..i] && [] !in out
    {
      if |parts[i]| == 0 {
        return None;
      }
      out := out + [parts[i]];
    }
    assert parts[..|parts|] == parts;
    return Some(out);
  }

  /**
   A manifest is accepted exactly when it is empty, which means no tables, or lists non-empty names one to a
   line, with or without a last line feed. A single line feed is refused: it lists one empty name.
   */
  lemma TablesListExact(raw: bytes, names: seq<bytes>)
    ensures TablesList([]) == Some([]) && TablesList([10]) == None
    ensures TablesList(raw) == Some(names)
      <==> if names == [] then raw == []
           else
             && (forall n :: n in names ==> n != [] && 10 !in n)
             && (raw == Joined(names) || raw == Joined(names) + [10])
  {
    LoneLineFeed();
    if TablesList(raw) == Some(names) && raw != [] {
      JoinedLines(if raw[|raw| - 1] == LF then raw[..|raw| - 1] else raw);
      assert raw[|raw| - 1] == LF ==> raw == raw[..|raw| - 1] + [LF];
    }
    if names != [] && forall n :: n in names ==> n != [] && LF !in n {
      LinesJoined(names);
      LastByte(names);
      var j := Joined(names);
      assert (j + [LF])[..|j|] == j;
    }
  }

  lemma LoneLineFeed()
    ensures TablesList([10]) == None && forall raw :: raw != [] ==> TablesList(raw) != Some([])
  {
    assert [10][..0] == [] && Lines([]) == [[]];
  }

  lemma {:induction false} LastByte(names: seq<bytes>)
    requires names != [] && forall n :: n in names ==> n != [] && LF !in n
    ensures var j := Joined(names); j != [] && j[|j| - 1] != LF
  {
    if |names| > 1 {
      assert forall n :: n in names[1..] ==> n in names;
      LastByte(names[1..]);
    } else {
      assert names[0] in names;
    }
  }
}
