/** packed-refs files, the loose refs that override them, and the chain of symbolic refs behind HEAD. */
module PackedRefs {
  import opened Options
  import opened WireText
  import opened Refs

  /** bufio.Scanner's limit of 1 MiB. */
  const MaxLine := 0x10_0000 - 1

  datatype Entry = Entry(oid: string, peeled: string, peelKnown: bool, fromPacked: bool)

  datatype Traits = Traits(peeled: bool, fullyPeeled: bool, sorted: bool)

  datatype Packed = Packed(refs: map<string, Entry>, traits: Traits)

  /** The parser's variables: what it has built, the last ref, and whether a non-blank line was seen. */
  datatype Scan = Scan(packed: Packed, lastRef: string, seenAny: bool)

  datatype Step = To(scan: Scan) | Corrupt

  const Nothing := Scan(Packed(map[], Traits(false, false, false)), "", false)

  predicate IsBreak(c: char) {
    c == '\r' || c == '\n'
  }

  predicate IsBlank(c: char) {
    c == ' ' || c == '\t'
  }

  predicate IsHash(c: char) {
    c == '#'
  }

  // ---------------------------------------------------------------- parsing

  /** parsePackedRefTraits. */
  function ParseTraits(line: string): Traits {
    match CutPrefix(TrimSpace(TrimLeft(IsHash, line)), "pack-refs with:")
    case None => Traits(false, false, false)
    case Some(rest) =>
      var toks := Fields(IsSpace, rest);
      Traits("peeled" in toks, "fully-peeled" in toks, "sorted" in toks)
  }

  /** A `^` line: the peel of the ref before it, once. */
  ghost function PeelLine(s: Scan, line: string, n: nat): Step
    requires line != ""
  {
    if s.lastRef == "" || s.lastRef !in s.packed.refs || s.packed.refs[s.lastRef].peelKnown then Corrupt
    else
      match ParseHex(line[1..], n)
      case None => Corrupt
      case Some(peeled) =>
        var entry := s.packed.refs[s.lastRef].(peeled := peeled, peelKnown := true);
        To(s.(packed := s.packed.(refs := s.packed.refs[s.lastRef := entry]), seenAny := true))
  }

  /** A ref line. */
  ghost function RefLine(s: Scan, line: string, n: nat): Step {
    match Cut(line, ' ')
    case None => Corrupt
    case Some(p) =>
      if p.1 == "" || p.1[0] in " \t^" || !GoodName(p.1) then Corrupt
      else
        match ParseHex(p.0, n)
        case None => Corrupt
        case Some(oid) =>
          var sorted := s.packed.traits.sorted && !(s.lastRef != "" && Before(p.1, s.lastRef));
          var packed := Packed(s.packed.refs[p.1 := Entry(oid, "", false, true)], s.packed.traits.(sorted := sorted));
          To(Scan(packed, p.1, true))
  }

  ghost function LineStep(s: Scan, text: string, n: nat): Step {
    var line := TrimRight(IsBlank, TrimRight(IsBreak, text));
    if line == "" then To(s)
    else if line[0] == '#' then
      To(Scan(if s.seenAny then s.packed else s.packed.(traits := ParseTraits(line)), s.lastRef, true))
    else if line[0] == '^' then PeelLine(s, line, n)
    else RefLine(s, line, n)
  }

  ghost function ParseFrom(s: Scan, body: string, n: nat): Step
    decreases |body|
  {
    match ScanLine(body, MaxLine)
    case NoLine => To(s)
    case LineTooLong => Corrupt
    case Scanned(text, rest) =>
      match LineStep(s, text, n)
      case Corrupt => Corrupt
      case To(t) => ParseFrom(t, rest, n)
  }

  /** parsePackedRefs. */
  method ParsePackedRefs(body: string, n: nat) returns (r: Option<Packed>)
    ensures r.Some? <==> ParseFrom(Nothing, body, n).To?
    ensures r.Some? ==> r.value == ParseFrom(Nothing, body, n).scan.packed
  {
    hide GoodName, Before, ParseHex, ParseTraits;
    var refs: map<string, Entry> := map[];
    var traits := Traits(false, false, false);
    var seenAny, lastRef := false, "";
    var rest := body;
    while true
      invariant ParseFrom(Scan(Packed(refs, traits), lastRef, seenAny), rest, n) == ParseFrom(Nothing, body, n)
      invariant lastRef != "" ==> lastRef in refs
      decreases |rest|
    {
      var scan := ScanLine(rest, MaxLine);
      if scan.NoLine? {
        return Some(Packed(refs, traits));
      }
      if scan.LineTooLong? {
        return None;
      }
      rest := scan.rest;
      var line := TrimRight(IsBlank, TrimRight(IsBreak, scan.line));
      if line == "" {
      } else if line[0] == '#' {
        if !seenAny {
          traits := ParseTraits(line);
        }
        seenAny := true;
      } else if line[0] == '^' {
        seenAny := true;
        if lastRef == "" || refs[lastRef].peelKnown {
          return None;
        }
        var peeled := ParseHex(line[1..], n);
        if peeled == None {
          return None;
        }
        refs := refs[lastRef := refs[lastRef].(peeled := peeled.value, peelKnown := true)];
      } else {
        seenAny := true;
        var cut := Cut(line, ' ');
        if cut == None || cut.value.1 == "" || cut.value.1[0] in " \t^" {
          return None;
        }
        var name := cut.value.1;
        var good := CheckName(name);
        if !good {
          return None;
        }
        var oid := ParseHex(cut.value.0, n);
        if oid == None {
          return None;
        }
        if traits.sorted && lastRef != "" && Before(name, lastRef) {
          traits := traits.(sorted := false);
        }
        refs := refs[name := Entry(oid.value, "", false, true)];
        lastRef := name;
      }
    }
  }

  // ---------------------------------------------------------------- printing

  /** A packed-refs body as git writes it. */
  function PrintEntries(refs: seq<RefEntry>): string {
    if refs == [] then ""
    else
      var r := refs[0];
      r.oid + " " + r.name + "\n" + (PeelText(r) + PrintEntries(refs[1..]))
  }

  function PeelText(r: RefEntry): string {
    if r.peeled == "" then "" else "^" + r.peeled + "\n"
  }

  function Word(c: bool, s: string): seq<string> {
    if c then [s] else []
  }

  function Words(t: Traits): (ws: seq<string>)
    ensures |ws| <= 3
  {
    Word(t.peeled, "peeled") + Word(t.fullyPeeled, "fully-peeled") + Word(t.sorted, "sorted")
  }

  /** The header line that claims the traits t. */
  function Header(t: Traits): string {
    "# pack-refs with:" + if Words(t) == [] then "" else " " + Spaced(Words(t))
  }

  ghost predicate GoodEntry(r: RefEntry, n: nat) {
    && GoodName(r.name) && IsOid(r.oid) && |r.oid| == n && (r.peeled != "" ==> IsOid(r.peeled) && |r.peeled| == n)
    && n + 1 + |r.name| <= MaxLine
  }

  function EntryOf(r: RefEntry): Entry {
    Entry(r.oid, r.peeled, r.peeled != "", true)
  }

  /** The map the entries describe: of two with one name the later counts. */
  function Build(refs: map<string, Entry>, entries: seq<RefEntry>): map<string, Entry>
    decreases |entries|
  {
    if entries == [] then refs else Build(refs[entries[0].name := EntryOf(entries[0])], entries[1..])
  }

  /** Whether the names after last never step back. */
  function InOrder(last: string, entries: seq<RefEntry>): bool
    decreases |entries|
  {
    entries == [] || (!(last != "" && Before(entries[0].name, last)) && InOrder(entries[0].name, entries[1..]))
  }

  // ---------------------------------------------------------------- parsing inverts printing

  lemma TrimmedLine(line: string)
    requires line != "" && !IsSpace(line[|line| - 1])
    ensures TrimRight(IsBlank, TrimRight(IsBreak, line)) == line
  {
  }

  lemma OidPlain(s: string)
    requires IsOid(s)
    ensures s != "" && FreeOf(IsSpace, s) && s[0] != '#' && s[0] != '^'
  {
  }

  /** One line of the body is one step of the parser. */
  lemma {:induction false} LineParses(s: Scan, line: string, rest: string, n: nat, t: Scan)
    requires line != "" && '\n' !in line && !IsSpace(line[|line| - 1]) && |line| <= MaxLine
    requires LineStep(s, line, n) == To(t)
    ensures ParseFrom(s, line + "\n" + rest, n) == ParseFrom(t, rest, n)
  {
    hide LineStep;
    ScanFirst(line, rest, MaxLine);
  }

  /** The scanner's variables after a ref line for r. */
  ghost function AfterRef(s: Scan, r: RefEntry): Scan {
    var sorted := s.packed.traits.sorted && !(s.lastRef != "" && Before(r.name, s.lastRef));
    var packed := Packed(s.packed.refs[r.name := Entry(r.oid, "", false, true)], s.packed.traits.(sorted := sorted));
    Scan(packed, r.name, true)
  }

  /** And after its peel line. */
  ghost function AfterPeel(s: Scan, peeled: string): Scan
    requires s.lastRef in s.packed.refs
  {
    var entry := s.packed.refs[s.lastRef].(peeled := peeled, peelKnown := true);
    s.(packed := s.packed.(refs := s.packed.refs[s.lastRef := entry]))
  }

  lemma RefStep(s: Scan, r: RefEntry, n: nat)
    requires GoodEntry(r, n)
    ensures LineStep(s, r.oid + " " + r.name, n) == To(AfterRef(s, r))
    ensures r.name != "" && !IsSpace(r.name[|r.name| - 1]) && '\n' !in r.oid + " " + r.name
  {
    hide GoodName, Before, ParseHex, IsOid, PeelLine, TrimRight, Cut;
    var line := r.oid + " " + r.name;
    GoodNameIsPlain(r.name);
    OidPlain(r.oid);
    HexParses(r.oid, n);
    assert line[0] == r.oid[0] && line[|line| - 1] == r.name[|r.name| - 1];
    TrimmedLine(line);
    assert line == r.oid + [' '] + r.name;
    CutFirst(r.oid, ' ', r.name);
  }

  lemma {:induction false} RefLineParses(s: Scan, r: RefEntry, rest: string, n: nat)
    requires GoodEntry(r, n)
    ensures ParseFrom(s, r.oid + " " + r.name + "\n" + rest, n) == ParseFrom(AfterRef(s, r), rest, n)
  {
    hide GoodName, LineStep, ParseFrom, AfterRef;
    var line := r.oid + " " + r.name;
    RefStep(s, r, n);
    assert line[|line| - 1] == r.name[|r.name| - 1];
    LineParses(s, line, rest, n, AfterRef(s, r));
  }

  lemma PeelLineParses(s: Scan, peeled: string, rest: string, n: nat)
    requires IsOid(peeled) && |peeled| == n < MaxLine && s.lastRef != "" && s.lastRef in s.packed.refs
    requires !s.packed.refs[s.lastRef].peelKnown && s.seenAny
    ensures ParseFrom(s, "^" + peeled + "\n" + rest, n) == ParseFrom(AfterPeel(s, peeled), rest, n)
  {
    hide ParseHex, IsOid, RefLine, ParseFrom, TrimRight;
    var line := "^" + peeled;
    OidPlain(peeled);
    HexParses(peeled, n);
    assert line[|line| - 1] == peeled[|peeled| - 1] && line[1..] == peeled;
    assert '\n' !in line;
    TrimmedLine(line);
    LineParses(s, line, rest, n, AfterPeel(s, peeled));
  }

  /** And after the whole entry. */
  ghost function After(s: Scan, r: RefEntry): Scan {
    Scan(Packed(s.packed.refs[r.name := EntryOf(r)], AfterRef(s, r).packed.traits), r.name, true)
  }

  lemma {:induction false} EntryParses(s: Scan, r: RefEntry, tail: string, n: nat)
    requires GoodEntry(r, n)
    ensures ParseFrom(s, r.oid + " " + r.name + "\n" + (PeelText(r) + tail), n) == ParseFrom(After(s, r), tail, n)
  {
    hide GoodEntry, Before, ParseFrom;
    EntryShape(r, n);
    var bare := AfterRef(s, r);
    RefLineParses(s, r, PeelText(r) + tail, n);
    if r.peeled == "" {
      assert "" + tail == tail;
    } else {
      PeelLineParses(bare, r.peeled, tail, n);
      assert AfterPeel(bare, r.peeled).packed.refs == s.packed.refs[r.name := EntryOf(r)];
    }
  }

  lemma {:induction false} EntriesParse(s: Scan, entries: seq<RefEntry>, n: nat)
    requires forall i :: 0 <= i < |entries| ==> GoodEntry(entries[i], n)
    ensures ParseFrom(s, PrintEntries(entries), n).To?
    ensures ParseFrom(s, PrintEntries(entries), n).scan.packed ==
      Packed(Build(s.packed.refs, entries),
             s.packed.traits.(sorted := s.packed.traits.sorted && InOrder(s.lastRef, entries)))
    decreases |entries|
  {
    hide GoodEntry, Before, PeelText;
    if entries == [] {
      assert ParseFrom(s, "", n) == To(s);
    } else {
      hide ParseFrom;
      var r := entries[0];
      EntryShape(r, n);
      EntryParses(s, r, PrintEntries(entries[1..]), n);
      EntriesParse(After(s, r), entries[1..], n);
    }
  }

  lemma EntryShape(r: RefEntry, n: nat)
    requires GoodEntry(r, n)
    ensures r.name != "" && n < MaxLine && (r.peeled != "" ==> IsOid(r.peeled) && |r.peeled| == n)
  {
  }

  /** The last entry of each name, by position. */
  ghost predicate IsLast(entries: seq<RefEntry>, i: nat) {
    i < |entries| && forall j :: i < j < |entries| ==> entries[j].name != entries[i].name
  }

  lemma {:induction false} BuildIsLast(refs: map<string, Entry>, entries: seq<RefEntry>)
    ensures forall i: nat :: IsLast(entries, i) ==>
      entries[i].name in Build(refs, entries) && Build(refs, entries)[entries[i].name] == EntryOf(entries[i])
    ensures forall name :: (forall i :: 0 <= i < |entries| ==> entries[i].name != name) ==>
      (name in Build(refs, entries) <==> name in refs) && (name in refs ==> Build(refs, entries)[name] == refs[name])
    decreases |entries|
  {
    if entries != [] {
      var next := refs[entries[0].name := EntryOf(entries[0])];
      var tail := entries[1..];
      BuildIsLast(next, tail);
      forall i: nat | IsLast(entries, i)
        ensures entries[i].name in Build(refs, entries) && Build(refs, entries)[entries[i].name] == EntryOf(entries[i])
      {
        if i > 0 {
          assert IsLast(tail, i - 1) by {
            assert forall j :: i - 1 < j < |tail| ==> tail[j] == entries[j + 1];
          }
        } else {
          assert forall j :: 0 <= j < |tail| ==> tail[j] == entries[j + 1];
        }
      }
      forall name | forall i :: 0 <= i < |entries| ==> entries[i].name != name
        ensures (name in Build(refs, entries) <==> name in refs) &&
          (name in refs ==> Build(refs, entries)[name] == refs[name])
      {
        assert forall j :: 0 <= j < |tail| ==> tail[j] == entries[j + 1];
        assert entries[0].name != name;
      }
    }
  }

  /** The adjacent checks see every step back. */
  lemma {:induction false} InOrderIsNonDecreasing(last: string, entries: seq<RefEntry>)
    requires forall i :: 0 <= i < |entries| ==> entries[i].name != ""
    ensures InOrder(last, entries) ==> NameOrder(entries)
    ensures InOrder("", entries) <==> NameOrder(entries)
    ensures last != "" ==> (InOrder(last, entries) <==>
      (NameOrder(entries) && forall i :: 0 <= i < |entries| ==> !Before(entries[i].name, last)))
    decreases |entries|
  {
    hide Before;
    if entries != [] {
      var tail := entries[1..];
      InOrderIsNonDecreasing(entries[0].name, tail);
      if NameOrder(tail) && (forall i :: 0 <= i < |tail| ==> !Before(tail[i].name, entries[0].name)) {
        forall i, j | 0 <= i < j < |entries|
          ensures !Before(entries[j].name, entries[i].name)
        {
          assert entries[j] == tail[j - 1];
          if i > 0 {
            assert entries[i] == tail[i - 1];
          }
        }
        if last != "" && !Before(entries[0].name, last) {
          forall i | 0 <= i < |entries|
            ensures !Before(entries[i].name, last)
          {
            if i > 0 {
              assert entries[i] == tail[i - 1];
              NotBeforeTransitive(last, entries[0].name, entries[i].name);
            }
          }
        }
      }
      if NameOrder(entries) {
        forall i, j | 0 <= i < j < |tail|
          ensures !Before(tail[j].name, tail[i].name)
        {
          assert tail[i] == entries[i + 1] && tail[j] == entries[j + 1];
        }
        forall i | 0 <= i < |tail|
          ensures !Before(tail[i].name, entries[0].name)
        {
          assert tail[i] == entries[i + 1];
        }
      }
    }
  }

  // ---------------------------------------------------------------- the header

  /** A spaced-out list of short tokens is one short line without white space at its end. */
  lemma {:induction false} SpacedTokens(ts: seq<string>)
    requires forall i :: 0 <= i < |ts| ==> IsToken(IsSpace, ts[i]) && |ts[i]| <= 12
    ensures |Spaced(ts)| <= 13 * |ts| && '\n' !in Spaced(ts)
    ensures ts != [] ==> Spaced(ts) != "" && !IsSpace(Spaced(ts)[|Spaced(ts)| - 1])
  {
    if |ts| == 1 {
      assert !IsSpace(ts[0][|ts[0]| - 1]);
    } else if |ts| > 1 {
      SpacedTokens(ts[1..]);
    }
  }

  lemma WordsAre(t: Traits)
    ensures forall i :: 0 <= i < |Words(t)| ==> IsToken(IsSpace, Words(t)[i]) && |Words(t)[i]| <= 12
    ensures ("peeled" in Words(t)) == t.peeled && ("fully-peeled" in Words(t)) == t.fullyPeeled &&
      ("sorted" in Words(t)) == t.sorted
  {
    assert "peeled"[0] == 'p' && "fully-peeled"[0] == 'f' && "sorted"[0] == 's';
  }

  lemma WordsSplit(t: Traits)
    ensures Fields(IsSpace, if Words(t) == [] then "" else " " + Spaced(Words(t))) == Words(t)
  {
    hide Words, Fields, Spaced;
    WordsAre(t);
    FieldsOfSpaced(IsSpace, Words(t));
    if Words(t) != [] {
      LeadingSpace(IsSpace, ' ', Spaced(Words(t)));
    } else {
      assert Spaced(Words(t)) == "" by { NoWords(Words(t)); }
    }
  }

  lemma NoWords(ws: seq<string>)
    requires ws == []
    ensures Spaced(ws) == ""
  {
  }

  lemma HeaderTrims(rest: string)
    requires rest != "" ==> !IsSpace(rest[|rest| - 1])
    ensures TrimSpace(TrimLeft(IsHash, "# pack-refs with:" + rest)) == "pack-refs with:" + rest
    ensures !IsSpace(("# pack-refs with:" + rest)[|"# pack-refs with:" + rest| - 1])
  {
    hide TrimSpace;
    var line, bare := "# pack-refs with:" + rest, "pack-refs with:" + rest;
    var spaced := " " + bare;
    assert line[|line| - 1] == if rest == "" then ':' else rest[|rest| - 1];
    assert line[1..] == spaced && spaced[1..] == bare && spaced[0] == ' ' && bare[0] == 'p';
    assert spaced[|spaced| - 1] == line[|line| - 1];
    assert TrimLeft(IsHash, line) == TrimLeft(IsHash, spaced) == spaced;
    assert TrimRight(IsSpace, spaced) == spaced;
    assert TrimLeft(IsSpace, spaced) == TrimLeft(IsSpace, bare) == bare;
    TrimsBothWays(spaced);
  }

  lemma TrimsBothWays(s: string)
    ensures TrimSpace(s) == TrimLeft(IsSpace, TrimRight(IsSpace, s))
  {
  }

  lemma {:induction false} HeaderParses(t: Traits, rest: string, n: nat)
    ensures ParseFrom(Nothing, Header(t) + "\n" + rest, n) == ParseFrom(Scan(Packed(map[], t), "", true), rest, n)
  {
    hide ParseFrom, Words, Spaced, Fields, TrimSpace, TrimLeft, TrimRight, PeelLine, RefLine;
    var words := if Words(t) == [] then "" else " " + Spaced(Words(t));
    var line := Header(t);
    WordsAre(t);
    SpacedTokens(Words(t));
    HeaderTrims(words);
    CutConcat("pack-refs with:", words);
    WordsSplit(t);
    assert ParseTraits(line) == t;
    assert '\n' !in line && line[0] == '#';
    TrimmedLine(line);
    LineParses(Nothing, line, rest, n, Scan(Packed(map[], t), "", true));
  }

  /**
   Parsing inverts printing: of several entries with one name the last counts, each peel stays with its own
   ref, and the sorted trait survives exactly when it is claimed and no name is below an earlier one.
   */
  lemma {:induction false} PackedRoundTrip(t: Traits, entries: seq<RefEntry>, n: nat)
    requires forall i :: 0 <= i < |entries| ==> GoodEntry(entries[i], n)
    ensures var r := ParseFrom(Nothing, Header(t) + "\n" + PrintEntries(entries), n);
      && r.To?
      && r.scan.packed.traits == t.(sorted := t.sorted && NameOrder(entries))
      && (forall i: nat :: IsLast(entries, i) ==>
            entries[i].name in r.scan.packed.refs && r.scan.packed.refs[entries[i].name] == EntryOf(entries[i]))
      && (forall name :: name in r.scan.packed.refs ==> exists i :: 0 <= i < |entries| && entries[i].name == name)
  {
    hide ParseFrom, Build, InOrder, IsLast, Header, PrintEntries, GoodEntry, NameOrder;
    HeaderParses(t, PrintEntries(entries), n);
    EntriesParse(Scan(Packed(map[], t), "", true), entries, n);
    BuildIsLast(map[], entries);
    forall i | 0 <= i < |entries|
      ensures entries[i].name != ""
    {
      EntryShape(entries[i], n);
    }
    InOrderIsNonDecreasing("", entries);
  }

  lemma RefusedHere(s: Scan, line: string, rest: string, n: nat)
    requires line != "" && '\n' !in line && !IsSpace(line[|line| - 1]) && |line| <= 1048575
    requires LineStep(s, line, n) == Corrupt
    ensures ParseFrom(s, line + "\n" + rest, n) == Corrupt
  {
    hide LineStep;
    ScanFirst(line, rest, MaxLine);
  }

  /**
   A peel is refused without a ref before it, after another peel of that ref, and when it is no id; a ref
   line without a space behind its id, or whose id or name is not one.
   */
  lemma {:induction false} RefusedLines(s: Scan, word: string, name: string, rest: string, n: nat)
    requires '\n' !in word && |word| + |name| + 2 <= 1048575 && word != "" && !IsSpace(word[|word| - 1])
    ensures NoPeel(s, word, n) ==> ParseFrom(s, "^" + word + "\n" + rest, n) == Corrupt
    ensures word[0] != '#' && word[0] != '^' && ' ' !in word ==> ParseFrom(s, word + "\n" + rest, n) == Corrupt
    ensures word[0] != '#' && word[0] != '^' && ' ' !in word && '\n' !in name
            && name != "" && !IsSpace(name[|name| - 1]) && (ParseHex(word, n) == None || !GoodName(name)) ==>
      ParseFrom(s, word + " " + name + "\n" + rest, n) == Corrupt
  {
    hide ParseFrom, ParseHex, GoodName, TrimRight, Cut;
    PeelRefused(s, word, rest, n);
    if word[0] != '#' && word[0] != '^' && ' ' !in word {
      TrimmedLine(word);
      RefusedHere(s, word, rest, n);
      if '\n' !in name && name != "" && !IsSpace(name[|name| - 1]) {
        var line := word + " " + name;
        assert line[|line| - 1] == name[|name| - 1] && line == word + [' '] + name && line[0] == word[0];
        TrimmedLine(line);
        CutFirst(word, ' ', name);
        if ParseHex(word, n) == None || !GoodName(name) {
          RefusedHere(s, line, rest, n);
        }
      }
    }
  }

  /** No peel may follow here, or this is none. */
  ghost predicate NoPeel(s: Scan, word: string, n: nat) {
    s.lastRef == "" || s.lastRef !in s.packed.refs || s.packed.refs[s.lastRef].peelKnown || ParseHex(word, n) == None
  }

  lemma PeelRefused(s: Scan, word: string, rest: string, n: nat)
    requires '\n' !in word && |word| + 1 <= 1048575 && word != "" && !IsSpace(word[|word| - 1])
    ensures NoPeel(s, word, n) ==> ParseFrom(s, "^" + word + "\n" + rest, n) == Corrupt
  {
    hide ParseFrom, ParseHex, RefLine, TrimRight;
    var line := "^" + word;
    assert line[|line| - 1] == word[|word| - 1] && line[1..] == word;
    TrimmedLine(line);
    if NoPeel(s, word, n) {
      RefusedHere(s, line, rest, n);
    }
  }

  /** A comment behind the first line that is not blank changes nothing, and neither does a blank line. */
  lemma CommentsPass(s: Scan, comment: string, rest: string, n: nat)
    requires '\n' !in comment && |comment| + 2 <= 1048575
    ensures s.seenAny ==> ParseFrom(s, "#" + comment + ".\n" + rest, n) == ParseFrom(s, rest, n)
    ensures ParseFrom(s, "\n" + rest, n) == ParseFrom(s, rest, n)
  {
    hide ParseTraits, TrimRight, ParseFrom, PeelLine, RefLine;
    var line := "#" + comment + ".";
    assert line[|line| - 1] == '.' && line[0] == '#' && line != "" && '\n' !in line;
    TrimmedLine(line);
    if s.seenAny {
      assert LineStep(s, line, n) == To(s);
      LineParses(s, line, rest, n, s);
      assert line + "\n" + rest == "#" + comment + ".\n" + rest;
    }
    BlankPasses(s, rest, n);
  }

  /** Blanks at the end of a line, and carriage returns behind them, are not part of it. */
  lemma TrailingBlanks(s: Scan, line: string, c: char, rest: string, n: nat)
    requires '\n' !in line && |line| + 2 <= 1048575 && line != "" && !IsSpace(line[|line| - 1])
    requires c in {' ', '\t', '\r'}
    ensures ParseFrom(s, line + [c] + "\n" + rest, n) == ParseFrom(s, line + "\n" + rest, n)
  {
    hide LineStep;
    var raw := line + [c];
    assert raw + "\n" + rest == raw + ['\n'] + rest && line + "\n" + rest == line + ['\n'] + rest;
    CutFirst(raw, '\n', rest);
    CutFirst(line, '\n', rest);
    TrimsOne(s, line, c, n);
    assert raw[..|raw| - 1] == line;
  }

  lemma TrimsOne(s: Scan, line: string, c: char, n: nat)
    requires line != "" && !IsSpace(line[|line| - 1]) && c in {' ', '\t', '\r'}
    ensures LineStep(s, line + [c], n) == LineStep(s, line, n)
  {
    hide ParseTraits, PeelLine, RefLine;
    TrimmedLine(line);
    assert (line + [c])[..|line|] == line;
  }

  lemma BlankPasses(s: Scan, rest: string, n: nat)
    ensures ParseFrom(s, "\n" + rest, n) == ParseFrom(s, rest, n)
  {
    hide ParseTraits, TrimRight, PeelLine, RefLine;
    ScanFirst("", rest, MaxLine);
    assert "" + "\n" + rest == "\n" + rest;
    NothingToTrim();
  }

  lemma NothingToTrim()
    ensures TrimRight(IsBlank, TrimRight(IsBreak, "")) == ""
  {
  }

  /** The header git writes, word by word. */
  lemma HeaderLetters()
    ensures Header(Traits(true, true, true)) == "# pack-refs with:" + " peeled" + (" fully-peeled" + " sorted")
    ensures Header(Traits(false, false, false)) == "# pack-refs with:" + ""
    ensures Header(Traits(false, true, false)) == "# pack-refs with:" + " fully-peeled"
  {
    hide Spaced;
    assert Words(Traits(true, true, true)) == ["peeled", "fully-peeled", "sorted"];
    assert Words(Traits(false, true, false)) == ["fully-peeled"];
    hide Words;
    SpacedThree("peeled", "fully-peeled", "sorted");
    assert " " + "peeled" == " peeled" && " " + "fully-peeled" == " fully-peeled" && " " + "sorted" == " sorted";
  }

  lemma SpacedThree(x: string, y: string, z: string)
    ensures Spaced([x, y, z]) == x + " " + (y + " " + z) && Spaced([y]) == y
    ensures "# pack-refs with:" + (" " + Spaced([x, y, z])) ==
      "# pack-refs with:" + (" " + x) + ((" " + y) + (" " + z))
  {
    var three, two := [x, y, z], [y, z];
    assert three[1..] == two && two[1..] == [z];
    assert Spaced([z]) == z && Spaced(two) == y + " " + Spaced([z]);
    assert Spaced(three) == x + " " + Spaced(two);
  }

  // ---------------------------------------------------------------- loose refs

  /** A regular file under refs/, with its name and trimmed content. */
  datatype LooseFile = LooseFile(name: string, content: string)

  ghost predicate HoldsOid(f: LooseFile, n: nat) {
    f.content != "" && !("ref:" <= f.content) && ParseHex(f.content, n).Some?
  }

  /** toRefEntry's PeelKnown. */
  function PeelKnown(traits: Traits, name: string, e: Entry): bool {
    e.peelKnown || (e.fromPacked && traits.fullyPeeled) || (e.fromPacked && traits.peeled && "refs/tags/" <= name)
  }

  /**
   What a file that was read back says about a peel: it is known when the ref has a peel line, when the file
   claims to be fully peeled, or when it claims to be peeled and the ref is a tag.
   */
  lemma {:induction false} PeelsKnown(t: Traits, entries: seq<RefEntry>, n: nat, i: nat)
    requires forall k :: 0 <= k < |entries| ==> GoodEntry(entries[k], n)
    requires IsLast(entries, i)
    ensures var r := ParseFrom(Nothing, Header(t) + "\n" + PrintEntries(entries), n);
      r.To? && entries[i].name in r.scan.packed.refs &&
      (PeelKnown(r.scan.packed.traits, entries[i].name, r.scan.packed.refs[entries[i].name]) <==>
        entries[i].peeled != "" || t.fullyPeeled || (t.peeled && "refs/tags/" <= entries[i].name))
  {
    hide ParseFrom, Header, PrintEntries, GoodEntry, NameOrder, IsLast;
    PackedRoundTrip(t, entries, n);
    assert i < |entries| by { LastIsThere(entries, i); }
  }

  lemma LastIsThere(entries: seq<RefEntry>, i: nat)
    requires IsLast(entries, i)
    ensures i < |entries|
  {
  }

  /** A loose ref holds an id of n digits and nothing else; "ref:" makes it symbolic. */
  lemma LooseIds(name: string, oid: string, n: nat)
    requires IsOid(oid) && |oid| == n
    ensures HoldsOid(LooseFile(name, oid), n) && !HoldsOid(LooseFile(name, "ref:" + oid), n)
    ensures !HoldsOid(LooseFile(name, oid + "x"), n) && !HoldsOid(LooseFile(name, ""), n)
  {
    HexParses(oid, n);
    assert "ref:"[0] == 'r';
  }

  /**
   walkLooseRefs: every name whose file holds an id has that id and no known peel, whatever packed-refs said
   about it or claimed about its peels; every other name is as it was.
   */
  method WalkLooseRefs(packed: map<string, Entry>, traits: Traits, files: seq<LooseFile>, n: nat)
    returns (r: Option<map<string, Entry>>)
    requires forall i, j :: 0 <= i < j < |files| ==> files[i].name != files[j].name
    ensures r == None <==> exists i :: 0 <= i < |files| && !("ref:" <= files[i].content) && !HoldsOid(files[i], n)
    ensures r.Some? ==> forall i :: 0 <= i < |files| && HoldsOid(files[i], n) ==>
      && files[i].name in r.value
      && r.value[files[i].name].oid == ParseHex(files[i].content, n).value
      && !PeelKnown(traits, files[i].name, r.value[files[i].name])
    ensures r.Some? ==> forall name ::
      (forall i :: 0 <= i < |files| && HoldsOid(files[i], n) ==> files[i].name != name) ==>
      (name in r.value <==> name in packed) && (name in packed ==> r.value[name] == packed[name])
  {
    hide ParseHex;
    var refs := packed;
    for i := 0 to |files|
      invariant forall k :: 0 <= k < i ==> "ref:" <= files[k].content || HoldsOid(files[k], n)
      invariant forall k :: 0 <= k < i && HoldsOid(files[k], n) ==>
        files[k].name in refs && refs[files[k].name] == Entry(ParseHex(files[k].content, n).value, "", false, false)
      invariant forall name :: (forall k :: 0 <= k < i && HoldsOid(files[k], n) ==> files[k].name != name) ==>
        (name in refs <==> name in packed) && (name in packed ==> refs[name] == packed[name])
    {
      var f := files[i];
      if f.content == "" {
        return None;
      }
      if !("ref:" <= f.content) {
        var oid := ParseHex(f.content, n);
        if oid == None {
          return None;
        }
        assert HoldsOid(f, n);
        refs := refs[f.name := Entry(oid.value, "", false, false)];
      }
    }
    return Some(refs);
  }

  // ---------------------------------------------------------------- symbolic refs

  /** What reading a name as a symbolic loose ref gives. */
  datatype Symref = Missing | Broken | Target(name: string)

  datatype HeadResult = Resolved(symref: string, oid: string) | Unborn(symref: string) | HeadCorrupt

  const MaxRefDepth := 5

  /** The chain read without remembering where it has been, over at most depth names. */
  function Follow(refs: map<string, Entry>, read: string -> Symref, current: string, depth: nat): (r: HeadResult)
    decreases depth
  {
    if depth == 0 then HeadCorrupt
    else if current in refs then Resolved(current, refs[current].oid)
    else
      match read(current)
      case Missing => Unborn(current)
      case Broken => HeadCorrupt
      case Target(next) => Follow(refs, read, next, depth - 1)
  }

  /** Each name is a symbolic ref to the next, and none before the last has an id. */
  ghost predicate SymrefChain(refs: map<string, Entry>, read: string -> Symref, names: seq<string>) {
    && names != []
    && forall i :: 0 <= i < |names| - 1 ==> names[i] !in refs && read(names[i]) == Target(names[i + 1])
  }

  /**
   A chain of at most five names ends at the id of the last, or unborn when that name does not exist, or
   corrupt when it cannot be read as a ref; a sixth name is never looked at.
   */
  lemma {:induction false} FollowedChain(refs: map<string, Entry>, read: string -> Symref, names: seq<string>)
    requires SymrefChain(refs, read, names)
    ensures var last, r := names[|names| - 1], Follow(refs, read, names[0], 5);
      && (|names| > 5 ==> r == HeadCorrupt)
      && (|names| <= 5 ==>
            && (last in refs ==> r == Resolved(last, refs[last].oid))
            && (last !in refs && read(last) == Missing ==> r == Unborn(last))
            && (last !in refs && read(last) == Broken ==> r == HeadCorrupt))
  {
    hide Follow;
    ChainFollows(refs, read, names, 5);
    if |names| <= 5 {
      FollowStep(refs, read, names[|names| - 1], 5 - (|names| - 1));
    }
  }

  lemma {:induction false} ChainFollows(refs: map<string, Entry>, read: string -> Symref, names: seq<string>, n: nat)
    requires SymrefChain(refs, read, names)
    ensures |names| <= n ==>
      Follow(refs, read, names[0], n) == Follow(refs, read, names[|names| - 1], n - (|names| - 1))
    ensures |names| > n ==> Follow(refs, read, names[0], n) == HeadCorrupt
    decreases |names|
  {
    hide Follow;
    FollowStep(refs, read, names[0], n);
    if |names| > 1 && n > 0 {
      assert names[0] !in refs && read(names[0]) == Target(names[1]);
      ChainFollows(refs, read, names[1..], n - 1);
    }
  }

  /** The name reached after k symbolic refs. */
  ghost function Hop(read: string -> Symref, current: string, k: nat): Option<string>
    decreases k
  {
    if k == 0 then Some(current)
    else match read(current)
         case Target(next) => Hop(read, next, k - 1)
         case _ => None
  }

  /** A chain that returns to a name it has been through never ends at an id. */
  lemma {:induction false} CycleCorrupt(refs: map<string, Entry>, read: string -> Symref, current: string, k: nat,
                                        depth: nat)
    requires k > 0 && Hop(read, current, k) == Some(current)
    requires forall j: nat :: j < k && Hop(read, current, j).Some? ==> Hop(read, current, j).value !in refs
    ensures Follow(refs, read, current, depth).HeadCorrupt?
    decreases depth
  {
    if depth > 0 {
      assert Hop(read, current, 0) == Some(current);
      var next := read(current).name;
      HopOn(read, current, k);
      forall j: nat | j < k && Hop(read, next, j).Some?
        ensures Hop(read, next, j).value !in refs
      {
        if j + 1 < k {
          assert Hop(read, current, j + 1) == Hop(read, next, j);
        } else {
          assert Hop(read, current, k) == Hop(read, next, j);
        }
      }
      CycleCorrupt(refs, read, next, k, depth - 1);
    }
  }

  /** Starting one name later on a cycle comes back one name later. */
  lemma HopOn(read: string -> Symref, current: string, k: nat)
    requires k > 0 && Hop(read, current, k) == Some(current)
    ensures read(current).Target? && Hop(read, read(current).name, k) == Some(read(current).name)
  {
    HopConcat(read, current, k, 1);
    HopConcat(read, current, 1, k);
    assert Hop(read, current, 1) == Some(read(current).name);
  }

  lemma {:induction false} HopConcat(read: string -> Symref, current: string, a: nat, b: nat)
    requires Hop(read, current, a).Some?
    ensures Hop(read, current, a + b) == Hop(read, Hop(read, current, a).value, b)
    decreases a
  {
    if a > 0 {
      HopConcat(read, read(current).name, a - 1, b);
    }
  }

  /** followSymrefChain: remembering the names only makes a corrupt chain fail sooner. */
  method FollowSymrefChain(refs: map<string, Entry>, read: string -> Symref, target: string) returns (r: HeadResult)
    ensures r == Follow(refs, read, target, 5)
  {
    hide Follow, Hop;
    var seen: map<string, nat> := map[];
    var current := target;
    HopZero(read, target);
    for i := 0 to MaxRefDepth
      invariant Follow(refs, read, target, MaxRefDepth) == Follow(refs, read, current, MaxRefDepth - i)
      invariant Hop(read, target, i) == Some(current)
      invariant forall name :: name in seen ==> seen[name] < i && Hop(read, target, seen[name]) == Some(name)
      invariant forall j: nat :: j < i && Hop(read, target, j).Some? ==> Hop(read, target, j).value !in refs
    {
      if current in seen {
        var j := seen[current];
        HopConcat(read, target, j, i - j);
        forall m: nat | m < i - j && Hop(read, current, m).Some?
          ensures Hop(read, current, m).value !in refs
        {
          HopConcat(read, target, j, m);
        }
        CycleCorrupt(refs, read, current, i - j, MaxRefDepth - i);
        return HeadCorrupt;
      }
      seen := seen[current := i];
      FollowStep(refs, read, current, MaxRefDepth - i);
      if current in refs {
        return Resolved(current, refs[current].oid);
      }
      match read(current) {
        case Broken => return HeadCorrupt;
        case Missing => return Unborn(current);
        case Target(next) =>
          HopConcat(read, target, i, 1);
          HopOne(read, current, next);
          current := next;
      }
    }
    FollowStep(refs, read, current, 0);
    return HeadCorrupt;
  }

  lemma HopZero(read: string -> Symref, current: string)
    ensures Hop(read, current, 0) == Some(current)
  {
  }

  lemma HopOne(read: string -> Symref, current: string, next: string)
    requires read(current) == Target(next)
    ensures Hop(read, current, 1) == Some(next)
  {
    HopZero(read, next);
  }

  lemma FollowStep(refs: map<string, Entry>, read: string -> Symref, current: string, depth: nat)
    ensures depth == 0 ==> Follow(refs, read, current, depth) == HeadCorrupt
    ensures depth > 0 && current in refs ==> Follow(refs, read, current, depth) == Resolved(current, refs[current].oid)
    ensures depth > 0 && current !in refs ==> (
      match read(current)
      case Missing => Follow(refs, read, current, depth) == Unborn(current)
      case Broken => Follow(refs, read, current, depth) == HeadCorrupt
      case Target(next) => Follow(refs, read, current, depth) == Follow(refs, read, next, depth - 1))
  {
  }
}
