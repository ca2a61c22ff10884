/**
 What an advertisement says, line by line: versions 1 and 2, every refusal, where HEAD appears, and which ref a
 symref capability is about.
 */
module AdvertFormat {
  import opened Options
  import opened Pktline
  import opened WireText
  import opened Refs
  import opened Advertise

  // ---------------------------------------------------------------- version 2

  ghost predicate NoSpace(s: string) {
    forall i :: 0 <= i < |s| ==> s[i] != ' ' && s[i] != '\t' && s[i] != '\n'
  }

  /** The line is the capability's name, then its value behind '='; a name alone has no value. */
  ghost predicate Says(line: string, c: Capability) {
    && '=' !in c.name && NoSpace(c.name) && NoSpace(c.value)
    && (line == c.name + "=" + c.value || (c.value == "" && c.name != "" && line == c.name))
  }

  ghost predicate AllSay(lines: seq<string>, caps: seq<Capability>) {
    |lines| == |caps| && forall i :: 0 <= i < |lines| ==> Says(lines[i], caps[i])
  }

  ghost function LinePackets(lines: seq<string>): (ps: seq<Packet>)
    ensures |ps| == |lines| && forall i :: 0 <= i < |ps| ==> ps[i] == Data(lines[i] + "\n")
  {
    seq(|lines|, i requires 0 <= i < |lines| => Data(lines[i] + "\n"))
  }

  lemma LineSays(line: string, c: Capability)
    requires Says(line, c)
    ensures ParseCaps(TrimLf(line + "\n")) == [c]
  {
    TrimLine(line);
    assert FreeOf(IsWireSpace, line) && line != "";
    assert Spaced([line]) == line;
    FieldsOfSpaced(IsWireSpace, [line]);
    if line == c.name + "=" + c.value {
      CapParses(c.name, c.value);
    } else {
      assert Cut(line, '=') == None;
    }
  }

  /** Whatever stands behind them, lines that say capabilities add just those, in order. */
  lemma {:induction false} LinesAdd(sofar: seq<Capability>, lines: seq<string>, caps: seq<Capability>,
                                    rest: seq<Packet>)
    requires AllSay(lines, caps)
    ensures V2Caps(sofar, LinePackets(lines) + rest) == V2Caps(sofar + caps, rest)
    decreases |lines|
  {
    hide Says, ParseCaps, TrimLf;
    var ps := LinePackets(lines) + rest;
    if lines == [] {
      assert ps == rest && sofar + caps == sofar;
    } else {
      assert Says(lines[0], caps[0]);
      LineSays(lines[0], caps[0]);
      assert ps[0] == Data(lines[0] + "\n") && ps[1..] == LinePackets(lines[1..]) + rest;
      LinesAdd(sofar + [caps[0]], lines[1..], caps[1..], rest);
      assert sofar + [caps[0]] + caps[1..] == sofar + caps;
    }
  }

  lemma VersionLine(version: string, ps: seq<Packet>)
    ensures var all := [Data("version " + version + "\n")] + ps;
      all[1..] == ps && all[0].Data? && CutPrefix(TrimLf(all[0].payload), "version ") == Some(version)
  {
    TrimLine("version " + version);
    CutConcat("version ", version);
  }

  /**
   Behind "version 2", one capability a line and a flush, the client reads exactly those capabilities, in
   order, and no refs. Without the flush the advertisement is cut short, and another control packet is
   refused.
   */
  lemma {:induction false} VersionTwo(lines: seq<string>, caps: seq<Capability>, rest: seq<Packet>)
    requires AllSay(lines, caps)
    ensures Parse([Data("version 2\n")] + (LinePackets(lines) + ([Flush] + rest))) == Ok(Advertisement(V2, caps, []))
    ensures Parse([Data("version 2\n")] + LinePackets(lines)) == Bad(Truncated)
    ensures forall p :: p == Delim || p == ResponseEnd ==>
      Parse([Data("version 2\n")] + (LinePackets(lines) + ([p] + rest))) == Bad(UnexpectedControl)
  {
    hide AllSay, TrimLf, CutPrefix;
    assert "version " + "2" + "\n" == "version 2\n";
    forall ps
      ensures Parse([Data("version 2\n")] + ps) ==
        match V2Caps([], ps) { case Bad(e) => Bad(e) case Ok(cs) => Ok(Advertisement(V2, cs, [])) }
    {
      VersionLine("2", ps);
    }
    forall end: seq<Packet> {
      LinesAdd([], lines, caps, end);
    }
    assert [] + caps == caps;
    assert LinePackets(lines) + [] == LinePackets(lines);
  }

  // ---------------------------------------------------------------- version 1 and the versions that are refused

  /** "version 1" in front of a version 0 advertisement changes the version and nothing else. */
  lemma VersionOneIs(ps: seq<Packet>)
    requires ps != [] && ps[0].Data? && !("version " <= TrimLf(ps[0].payload))
    ensures Parse([Data("version 1\n")] + ps) ==
      match Parse(ps) { case Bad(e) => Bad(e) case Ok(ad) => Ok(ad.(version := V1)) }
  {
    hide ParseFirst, ParseLines, ApplySymrefs, TrimLf, CutPrefix;
    assert "version " + "1" + "\n" == "version 1\n";
    VersionLine("1", ps);
    assert ([Data("version 1\n")] + ps)[2..] == ps[1..];
    assert CutPrefix(TrimLf(ps[0].payload), "version ") == None;
  }

  /** A version 1 client reads the same capabilities and refs from the same lines. */
  lemma {:induction false} VersionOne(head: Head, algo: string, agent: string, n: nat, refs: seq<RefEntry>)
    requires IsOid(head.oid) && n > 0 && CapsFree(head, algo, agent)
    requires forall i :: 0 <= i < |refs| ==> GoodRef(refs[i])
    ensures Parse([Data("version 1\n")] + Advert(head, Spaced(CapTokens(head, algo, agent)), n, refs)) ==
      Ok(SeenBy(head, algo, agent, refs).(version := V1))
  {
    hide Spaced, CapTokens, Parse, CapsFree, GoodRef, Advert, SeenBy;
    var caps := Spaced(CapTokens(head, algo, agent));
    AdvertRoundTrip(head, algo, agent, n, refs);
    AdvertStarts(head, caps, n, refs);
    VersionOneIs(Advert(head, caps, n, refs));
  }

  lemma AdvertStarts(head: Head, caps: string, n: nat, refs: seq<RefEntry>)
    requires IsOid(head.oid) && n > 0 && forall i :: 0 <= i < |refs| ==> GoodRef(refs[i])
    ensures var ps := Advert(head, caps, n, refs); ps[0].Data? && !("version " <= TrimLf(ps[0].payload))
  {
    hide PlainName, RefLines, PeelLines, IsZero, TrimLf;
    var oid := if HeadValid(head) then head.oid else if refs == [] then Zeros(n) else refs[0].oid;
    var name := if HeadValid(head) then "HEAD" else if refs == [] then "capabilities^{}" else refs[0].name;
    var line := oid + " " + (name + ['\0'] + caps);
    assert refs != [] ==> GoodRef(refs[0]);
    assert IsOid(oid);
    assert Advert(head, caps, n, refs)[0] == FirstLine(oid, name, caps) == Data(line + "\n");
    TrimLine(line);
    assert line == oid + (" " + (name + ['\0'] + caps));
    OidStart(oid, " " + (name + ['\0'] + caps));
  }

  /** No packets, a control packet first, an unknown version, and "version 1" without a ref line behind it. */
  lemma {:induction false} OddStarts(version: string, p: Packet, ps: seq<Packet>)
    ensures Parse([]) == Bad(Truncated)
    ensures !p.Data? ==> Parse([p] + ps) == Ok(Advertisement(V0, [], []))
    ensures version != "1" && version != "2" ==>
      Parse([Data("version " + version + "\n")] + ps) == Bad(UnsupportedProtocol)
    ensures Parse([Data("version 1\n")]) == Bad(Truncated)
    ensures !p.Data? ==> Parse([Data("version 1\n")] + ([p] + ps)) == Bad(Malformed)
  {
    hide TrimLf, ParseLines, V2Caps, ApplySymrefs;
    VersionLine(version, ps);
    assert "version " + "1" + "\n" == "version 1\n";
    VersionLine("1", []);
    assert [Data("version 1\n")] + [] == [Data("version 1\n")];
    VersionLine("1", [p] + ps);
    NothingFirst();
  }

  lemma NothingFirst()
    ensures ParseFirst("") == Bad(Malformed)
  {
  }

  // ---------------------------------------------------------------- version 0, line by line

  ghost predicate AllZeros(s: string) {
    s != "" && forall i :: 0 <= i < |s| ==> s[i] == '0'
  }

  /**
   The first line is an id, a name and capabilities. The name is a ref's, or the placeholder's behind a zero
   id; any other peeled name, and a line without the space or the NUL, is refused.
   */
  lemma {:induction false} FirstLines(oid: string, name: string, caps: string, ps: seq<Packet>)
    requires ' ' !in oid && '\0' !in name && oid != "version"
    ensures var first := if AllZeros(oid) && name == "capabilities^{}" then [] else [RawRef(oid, name, "", "", false)];
      Parse([Data(oid + " " + name + "\0" + caps + "\n")] + ps) ==
      if first != [] && |name| >= 3 && name[|name| - 3..] == "^{}" then Bad(Malformed)
      else match ParseLines(first, ps)
           case Bad(e) => Bad(e)
           case Ok(refs) => Ok(Advertisement(V0, ParseCaps(caps), ApplySymrefs(refs, ParseCaps(caps))))
    ensures Parse([Data(oid + "\n")] + ps) == Bad(Malformed)
    ensures Parse([Data(oid + " " + name + "\n")] + ps) == Bad(Malformed)
  {
    hide ParseFirst, ParseCaps, ParseLines, ApplySymrefs, Parse, TrimLf;
    var tail := name + ['\0'] + caps;
    assert oid + " " + name + "\0" + caps + "\n" == oid + (" " + tail) + "\n";
    assert oid + " " + name + "\n" == oid + (" " + name) + "\n" && oid + "\n" == oid + "" + "\n";
    PlainStart(oid, " " + tail, ps);
    PlainStart(oid, " " + name, ps);
    PlainStart(oid, "", ps);
    FirstParses(oid, name, caps);
    FirstRefused(oid, name);
  }

  lemma FirstParses(oid: string, name: string, caps: string)
    requires ' ' !in oid && '\0' !in name
    ensures ParseFirst(oid + (" " + (name + ['\0'] + caps)) + "\n") ==
      if AllZeros(oid) && name == "capabilities^{}" then Ok((ParseCaps(caps), []))
      else if |name| >= 3 && name[|name| - 3..] == "^{}" then Bad(Malformed)
      else Ok((ParseCaps(caps), [RawRef(oid, name, "", "", false)]))
  {
    hide ParseCaps, Cut, TrimLf;
    var tail := name + ['\0'] + caps;
    TrimLine(oid + (" " + tail));
    assert oid + (" " + tail) == oid + [' '] + tail;
    CutFirst(oid, ' ', tail);
    CutFirst(name, '\0', caps);
  }

  lemma FirstRefused(oid: string, name: string)
    requires ' ' !in oid && '\0' !in name
    ensures ParseFirst(oid + (" " + name) + "\n") == ParseFirst(oid + "" + "\n") == Bad(Malformed)
  {
    hide ParseCaps, Cut, TrimLf;
    TrimLine(oid + (" " + name));
    TrimLine(oid + "");
    assert oid + (" " + name) == oid + [' '] + name && oid + "" == oid;
    CutFirst(oid, ' ', name);
  }

  /** A line whose first word is another does not begin with this word and a space. */
  lemma OtherWord(word: string, id: string, rest: string)
    requires ' ' !in word && ' ' !in id && id != word && (rest != "" ==> rest[0] == ' ')
    ensures !(word + " " <= id + rest)
  {
    assert rest == "" ==> id + rest == id;
    if word + " " <= id + rest {
      assert (id + rest)[|word|] == ' ';
      var more := (id + rest)[|word| + 1..];
      assert id + rest == word + " " + more == word + [' '] + more;
      CutFirst(word, ' ', more);
      if rest != "" {
        assert id + rest == id + [' '] + rest[1..];
        CutFirst(id, ' ', rest[1..]);
      }
    }
  }

  lemma PlainStart(oid: string, rest: string, ps: seq<Packet>)
    requires ' ' !in oid && oid != "version" && (rest != "" ==> rest[0] == ' ')
    ensures Parse([Data(oid + rest + "\n")] + ps) == ParseV0(oid + rest + "\n", ps, V0)
  {
    hide ParseV0;
    TrimLine(oid + rest);
    assert ([Data(oid + rest + "\n")] + ps)[1..] == ps;
    assert "version" + " " == "version ";
    OtherWord("version", oid, rest);
  }

  /** After the first line: a ref, the peel of the ref just before it, a shallow line, and the end. */
  lemma {:induction false} LaterLines(refs: seq<RawRef>, id: string, name: string, ps: seq<Packet>)
    requires ' ' !in id && id != "shallow"
    ensures !(|name| >= 3 && name[|name| - 3..] == "^{}") ==>
      ParseLines(refs, [Data(id + " " + name + "\n")] + ps) == ParseLines(refs + [RawRef(id, name, "", "", false)], ps)
    ensures ParseLines(refs, [Data(id + " " + name + "^{}\n")] + ps) ==
      if refs != [] && refs[|refs| - 1].name == name && refs[|refs| - 1].peeled == ""
      then ParseLines(refs[..|refs| - 1] + [refs[|refs| - 1].(peeled := id)], ps) else Bad(PeelMismatch)
    ensures ParseLines(refs, [Data("shallow " + name + "\n")] + ps) == ParseLines(refs, ps)
    ensures ParseLines(refs, [Data(id + "\n")] + ps) == Bad(Malformed)
    ensures ParseLines(refs, [Flush] + ps) == Ok(refs) && ParseLines(refs, []) == Bad(Truncated)
    ensures ParseLines(refs, [Delim] + ps) == ParseLines(refs, [ResponseEnd] + ps) == Bad(UnexpectedControl)
  {
    hide ParseLines, CutSuffix, Cut, TrimLf;
    PlainLine(refs, id, name, ps);
    PlainLine(refs, id, name + "^{}", ps);
    assert id + " " + name + "^{}\n" == id + " " + (name + "^{}") + "\n";
    CutSuffixConcat(name, "^{}");
    LineEnds(refs, id, name, ps);
    if refs != [] {
      var last := |refs| - 1;
      assert forall r :: refs[last := r] == refs[..last] + [r];
    }
  }

  lemma PlainLine(refs: seq<RawRef>, id: string, name: string, ps: seq<Packet>)
    requires ' ' !in id && id != "shallow"
    ensures ParseLines(refs, [Data(id + " " + name + "\n")] + ps) ==
      match CutSuffix(name, "^{}")
      case None => ParseLines(refs + [RawRef(id, name, "", "", false)], ps)
      case Some(peeled) =>
        if refs == [] || refs[|refs| - 1].name != peeled || refs[|refs| - 1].peeled != "" then Bad(PeelMismatch)
        else ParseLines(refs[|refs| - 1 := refs[|refs| - 1].(peeled := id)], ps)
  {
    hide CutSuffix;
    var payload := id + " " + name + "\n";
    LineSplits(refs, id, name);
    hide ParseLine;
    assert ([Data(payload)] + ps)[1..] == ps;
  }

  lemma LineSplits(refs: seq<RawRef>, id: string, name: string)
    requires ' ' !in id && id != "shallow"
    ensures ParseLine(refs, id + " " + name + "\n") ==
      match CutSuffix(name, "^{}")
      case None => Ok(refs + [RawRef(id, name, "", "", false)])
      case Some(peeled) =>
        if refs == [] || refs[|refs| - 1].name != peeled || refs[|refs| - 1].peeled != "" then Bad(PeelMismatch)
        else Ok(refs[|refs| - 1 := refs[|refs| - 1].(peeled := id)])
  {
    hide CutSuffix, Cut, TrimLf;
    var line := id + " " + name;
    TrimLine(line);
    assert line == id + [' '] + name;
    CutFirst(id, ' ', name);
    assert "shallow" + " " == "shallow " && line == id + (" " + name);
    OtherWord("shallow", id, " " + name);
  }

  lemma LineEnds(refs: seq<RawRef>, id: string, name: string, ps: seq<Packet>)
    requires ' ' !in id && id != "shallow"
    ensures ParseLines(refs, [Data("shallow " + name + "\n")] + ps) == ParseLines(refs, ps)
    ensures ParseLines(refs, [Data(id + "\n")] + ps) == Bad(Malformed)
    ensures ParseLines(refs, [Flush] + ps) == Ok(refs) && ParseLines(refs, []) == Bad(Truncated)
    ensures ParseLines(refs, [Delim] + ps) == ParseLines(refs, [ResponseEnd] + ps) == Bad(UnexpectedControl)
  {
    TrimLine("shallow " + name);
    TrimLine(id);
    assert "shallow" + " " == "shallow " && id + "" == id;
    OtherWord("shallow", id, "");
    assert ([Data("shallow " + name + "\n")] + ps)[1..] == ps;
  }

  // ---------------------------------------------------------------- symrefs

  /** The capability symref=name:target. */
  ghost predicate Targets(c: Capability, name: string, target: string) {
    c.name == "symref" && name != "" && ':' !in name && target != "" && c.value == name + ":" + target
  }

  ghost predicate IsFirstNamed(refs: seq<RawRef>, i: nat)
    requires i < |refs|
  {
    forall k :: 0 <= k < i ==> refs[k].name != refs[i].name
  }

  lemma SymrefStep(refs: seq<RawRef>, caps: seq<Capability>, i: nat) returns (after: seq<RawRef>)
    requires i < |refs| && caps != []
    ensures |after| == |refs| && ApplySymrefs(refs, caps) == ApplySymrefs(after, caps[1..])
    ensures forall k :: 0 <= k < |refs| ==> after[k].name == refs[k].name
    ensures forall target :: Targets(caps[0], refs[i].name, target) && IsFirstNamed(refs, i) ==>
      after[i] == refs[i].(symref := target)
    ensures (forall target :: !Targets(caps[0], refs[i].name, target)) || !IsFirstNamed(refs, i) ==> after[i] == refs[i]
  {
    hide SetSymref;
    var c := caps[0];
    var cut := Cut(c.value, ':');
    if cut.Some? && c.name == "symref" && cut.value.0 != "" && cut.value.1 != "" {
      var name, target := cut.value.0, cut.value.1;
      after := SetSymref(refs, name, target);
      assert Targets(c, name, target);
      SetAt(refs, name, target, i);
      forall k | 0 <= k < |refs|
        ensures after[k].name == refs[k].name
      {
        SetAt(refs, name, target, k);
      }
    } else {
      after := refs;
    }
    forall target | Targets(c, refs[i].name, target)
      ensures cut == Some((refs[i].name, target))
    {
      assert c.value == refs[i].name + [':'] + target;
      CutFirst(refs[i].name, ':', target);
    }
  }

  lemma {:induction false} SetAt(refs: seq<RawRef>, name: string, target: string, i: nat)
    requires i < |refs|
    ensures SetSymref(refs, name, target)[i] ==
      if refs[i].name == name && IsFirstNamed(refs, i) then refs[i].(symref := target) else refs[i]
  {
    if refs[0].name != name && i > 0 {
      SetAt(refs[1..], name, target, i - 1);
      assert forall k :: 1 <= k < |refs| ==> refs[1..][k - 1] == refs[k];
      if refs[i].name == name {
        assert IsFirstNamed(refs, i) <==> IsFirstNamed(refs[1..], i - 1);
      }
    }
  }

  /** Among the refs of one name the first gets the target, and of several targets the last counts. */
  lemma {:induction false} SymrefGoesToFirst(refs: seq<RawRef>, caps: seq<Capability>, i: nat, j: nat, target: string)
    requires i < |refs| && IsFirstNamed(refs, i) && j < |caps| && Targets(caps[j], refs[i].name, target)
    requires forall k, t :: j < k < |caps| ==> !Targets(caps[k], refs[i].name, t)
    ensures ApplySymrefs(refs, caps)[i] == refs[i].(symref := target)
    decreases |caps|
  {
    hide ApplySymrefs, Targets;
    var after := SymrefStep(refs, caps, i);
    assert caps[1..] == caps[1..];
    if j == 0 {
      SymrefLeaves(after, caps[1..], i);
    } else {
      SymrefGoesToFirst(after, caps[1..], i, j - 1, target);
    }
  }

  /** A ref no valid symref names, or not the first of its name, is left as it is. */
  lemma {:induction false} SymrefLeaves(refs: seq<RawRef>, caps: seq<Capability>, i: nat)
    requires i < |refs|
    requires !IsFirstNamed(refs, i) || forall k, t :: 0 <= k < |caps| ==> !Targets(caps[k], refs[i].name, t)
    ensures ApplySymrefs(refs, caps)[i] == refs[i]
    decreases |caps|
  {
    hide Targets;
    if caps != [] {
      hide ApplySymrefs;
      var after := SymrefStep(refs, caps, i);
      SymrefLeaves(after, caps[1..], i);
    }
  }

  // ---------------------------------------------------------------- the whole of version 0, in the store's terms

  /** HEAD is there: it points somewhere, or some digit of its id is not a zero. */
  ghost predicate HeadShows(head: Head) {
    !head.unborn && (head.symref != "" || exists i :: 0 <= i < |head.oid| && head.oid[i] != '0')
  }

  /**
   From what the server writes for its refs the client reads HEAD first, exactly when it shows, with its
   target, then every ref with its id and its own peel.
   */
  lemma {:induction false} WrittenIsRead(head: Head, algo: string, agent: string, n: nat, refs: seq<RefEntry>)
    requires IsOid(head.oid) && n > 0 && NoSpace(head.symref) && NoSpace(algo) && NoSpace(agent)
    requires forall i :: 0 <= i < |refs| ==> GoodRef(refs[i]) && refs[i].name != "HEAD"
    ensures var ad := Parse(Advert(head, Spaced(CapTokens(head, algo, agent)), n, refs));
      var first := if HeadShows(head) then [RawRef(head.oid, "HEAD", "", head.symref, false)] else [];
      && ad.Ok? && ad.value.version == V0
      && ad.value.caps == (if head.symref != "" then [Capability("symref", "HEAD:" + head.symref)] else [])
                          + [Capability("object-format", algo), Capability("agent", agent)]
      && ad.value.refs == first + seq(|refs|, i requires 0 <= i < |refs| =>
                                        RawRef(refs[i].oid, refs[i].name, refs[i].peeled, "", false))
  {
    hide Advert, CapTokens, Spaced, Parse, GoodRef;
    assert CapsFree(head, algo, agent);
    AdvertRoundTrip(head, algo, agent, n, refs);
    HeadSeen(head, algo, agent, refs);
    assert HeadShows(head) <==> HeadValid(head);
    assert RawAll(refs) == seq(|refs|, i requires 0 <= i < |refs| =>
                                 RawRef(refs[i].oid, refs[i].name, refs[i].peeled, "", false));
  }

  /** Two refs, one of them a tag, and HEAD, to the letter. */
  lemma {:induction false} ToTheLetter(caps: string)
    ensures Advert(Head.Head("0a", "refs/x", false), caps, 2,
                   [RefEntry("refs/x", "0a", ""), RefEntry("refs/t", "1b", "2c")]) ==
      [Data("0a HEAD\0" + caps + "\n"), Data("0a refs/x\n"), Data("1b refs/t\n"),
       Data("2c refs/t^{}\n"), Flush]
    ensures Advert(Head.Head("00", "", false), caps, 2, [RefEntry("refs/t", "1b", "2c")]) ==
      [Data("1b refs/t\0" + caps + "\n"), Data("2c refs/t^{}\n"), Flush]
    ensures Advert(Head.Head("00", "", false), caps, 2, []) == [Data("00 capabilities^{}\0" + caps + "\n"), Flush]
  {
    hide RefPackets, RefLines, FirstLine, PeelLines, IsZero;
    var x, t := RefEntry("refs/x", "0a", ""), RefEntry("refs/t", "1b", "2c");
    FirstLetters("0a", "HEAD", "0a HEAD", caps);
    FirstLetters("1b", "refs/t", "1b refs/t", caps);
    FirstLetters("00", "capabilities^{}", "00 capabilities^{}", caps);
    LineLetters(x, t, caps);
    ZeroLetters();
    NoLines();
    assert [t][1..] == [] && |"refs/x"| == 6;
    var h, none := Head.Head("0a", "refs/x", false), Head.Head("00", "", false);
    assert HeadValid(h) && !HeadValid(none);
    var one, first := RefLines([x, t]), RefPackets(t, Some(caps));
    assert Advert(h, caps, 2, [x, t]) == [Data("0a HEAD" + "\0" + caps + "\n")] + (one + [Flush]);
    assert Advert(none, caps, 2, [t]) == first + (RefLines([]) + [Flush]);
    assert "0a HEAD" + "\0" + caps + "\n" == "0a HEAD\0" + caps + "\n";
    assert "1b refs/t" + "\0" + caps + "\n" == "1b refs/t\0" + caps + "\n";
    assert "00 capabilities^{}" + "\0" + caps + "\n" == "00 capabilities^{}\0" + caps + "\n";
  }

  lemma ZeroLetters()
    ensures Zeros(2) == "00" && IsZero("00")
  {
  }

  lemma NoLines()
    ensures RefLines([]) == []
  {
  }

  lemma LineLetters(x: RefEntry, t: RefEntry, caps: string)
    requires x == RefEntry("refs/x", "0a", "") && t == RefEntry("refs/t", "1b", "2c")
    ensures RefLines([x, t]) == [Data("0a refs/x\n"), Data("1b refs/t\n"), Data("2c refs/t^{}\n")]
    ensures RefPackets(t, Some(caps)) == [FirstLine(t.oid, t.name, caps), Data("2c refs/t^{}\n")]
  {
    hide FirstLine;
    assert "0a" + " " + "refs/x" + "\n" == "0a refs/x\n";
    assert "1b" + " " + "refs/t" + "\n" == "1b refs/t\n";
    assert "2c" + " " + "refs/t" + "^{}" + "\n" == "2c refs/t^{}\n";
    assert [x, t][1..] == [t] && [t][1..] == [];
    assert RefLines([t]) == RefPackets(t, None) + RefLines([]);
  }

  lemma FirstLetters(oid: string, name: string, start: string, caps: string)
    requires start == oid + " " + name
    ensures FirstLine(oid, name, caps) == Data(start + "\0" + caps + "\n")
  {
    assert oid + " " + (name + ['\0'] + caps) + "\n" == start + "\0" + caps + "\n";
  }
}
