/** The object-info response: what the server writes for each id, and what the client decodes. */
module ObjectInfo {
  import opened Options
  import opened Pktline
  import opened WireText
  import opened Refs
  import opened Request
  import Bytes
  import Decimal

  // ---------------------------------------------------------------- the server's side

  /** What the store knows of an object. */
  datatype Lookup = Hit(size: nat) | Missing | Corrupt(message: string)

  datatype Row = Row(line: Packet, fatal: bool)

  /** emitObjectInfoLine. */
  function EmitRow(oid: string, n: nat, size: bool, store: string -> Lookup): Row {
    if !ParsesAsId(oid, n) then Row(Err("object-info: protocol error, expected to get oid, not " + oid), false)
    else
      match store(oid)
      case Hit(bytes) => Row(Line(oid + if size then " " + Decimal.Print(bytes) else ""), false)
      case Missing => Row(Line(oid + if size then " " else ""), false)
      case Corrupt(message) => Row(Err("objstore: object corrupt or unresolvable: " + message), true)
  }

  /** The rows, up to the first fatal one, and the closing flush. */
  function Rows(oids: seq<string>, n: nat, size: bool, store: string -> Lookup): (ps: seq<Packet>)
    ensures ps != [] && ps[|ps| - 1] == Flush && forall i :: 0 <= i < |ps| - 1 ==> ps[i].Data?
  {
    if oids == [] then [Flush]
    else
      var row := EmitRow(oids[0], n, size, store);
      [row.line] + if row.fatal then [Flush] else Rows(oids[1..], n, size, store)
  }

  /** writeObjectInfoResponse and the closing flush of handleObjectInfo. */
  function Respond(oids: seq<string>, n: nat, size: bool, store: string -> Lookup): (ps: seq<Packet>)
    ensures ps != [] && ps[|ps| - 1] == Flush && forall i :: 0 <= i < |ps| - 1 ==> ps[i].Data?
  {
    (if size && oids != [] then [Line("size")] else []) + Rows(oids, n, size, store)
  }

  lemma RowsUnfold(oids: seq<string>, n: nat, size: bool, store: string -> Lookup)
    requires oids != []
    ensures var row := EmitRow(oids[0], n, size, store);
      Rows(oids, n, size, store) == [row.line] + if row.fatal then [Flush] else Rows(oids[1..], n, size, store)
  {
    hide EmitRow;
  }

  lemma NoRows(oids: seq<string>, n: nat, size: bool, store: string -> Lookup)
    requires oids == []
    ensures Rows(oids, n, size, store) == [Flush]
  {
  }

  /** The same packets written one by one, up to the first that does not fit; refused ends the session. */
  method WriteResponse(oids: seq<string>, n: nat, size: bool, store: string -> Lookup)
    returns (ok: bool, refused: bool, out: seq<Packet>)
    ensures SendsOf(Respond(oids, n, size, store), ok, out)
    ensures ok ==> (refused <==> exists i :: 0 <= i < |oids| && EmitRow(oids[i], n, size, store).fatal)
  {
    hide EmitRow, Fits, Rows;
    ghost var whole := Respond(oids, n, size, store);
    refused, out := false, [];
    ControlFits();
    SizeFits();
    if size && |oids| > 0 {
      out := [Line("size")];
    }
    for i := 0 to |oids|
      invariant whole == out + Rows(oids[i..], n, size, store) && AllFit(out)
      invariant forall k :: 0 <= k < i ==> !EmitRow(oids[k], n, size, store).fatal
    {
      var row := EmitRow(oids[i], n, size, store);
      assert oids[i..][0] == oids[i] && oids[i..][1..] == oids[i + 1..];
      ghost var rest := if row.fatal then [Flush] else Rows(oids[i + 1..], n, size, store);
      RowsUnfold(oids[i..], n, size, store);
      assert whole == out + [row.line] + rest;
      assert whole[|out|] == row.line;
      if !Fits(row.line) {
        return false, false, out;
      }
      out := out + [row.line];
      if row.fatal {
        return true, true, out + [Flush];
      }
    }
    assert Rows(oids[|oids|..], n, size, store) == [Flush] by { NoRows(oids[|oids|..], n, size, store); }
    out := out + [Flush];
    ok := true;
  }

  lemma SizeFits()
    ensures Fits(Line("size"))
  {
  }

  // ---------------------------------------------------------------- the client's side

  datatype Info = Info(oid: string, size: int)

  datatype Parsed = Found(info: Info) | Dropped | Malformed

  datatype Result = Ok(infos: seq<Info>) | Bad

  /** looksLikeObjectInfoOIDLine. */
  predicate LooksLikeRow(line: string) {
    var tok := FirstToken(line);
    (|tok| == 40 || |tok| == 64) && IsLower(tok)
  }

  function FirstToken(line: string): string {
    match Cut(line, ' ')
    case Some(p) => p.0
    case None => line
  }

  predicate IsLower(oid: string) {
    forall i :: 0 <= i < |oid| ==> IsHexDigit(oid[i])
  }

  /** strconv.ParseInt in base 10: an optional sign, digits, and the range of int64. */
  function ParseInt64(s: string): Option<int> {
    var negative := s != "" && s[0] == '-';
    var digits := if s != "" && (s[0] == '-' || s[0] == '+') then s[1..] else s;
    match DigitsValue(digits)
    case None => None
    case Some(v) =>
      var sign: int := if negative then -1 else 1;
      var value: int := sign * v;
      if -Bytes.U63 <= value < Bytes.U63 then Some(value) else None
  }

  function DigitsValue(s: string): Option<nat> {
    if s == "" then None
    else if !Decimal.IsDigit(s[|s| - 1]) then None
    else if |s| == 1 then Some(Decimal.DigitValue(s[0]))
    else
      match DigitsValue(s[..|s| - 1])
      case None => None
      case Some(v) => Some(v * 10 + Decimal.DigitValue(s[|s| - 1]))
  }

  /** parseObjectInfoLine. */
  function ParseRow(line: string, wantSize: bool): Parsed {
    match Cut(line, ' ')
    case None => if line == "" || wantSize then Dropped else Found(Info(line, 0))
    case Some(p) =>
      if p.0 == "" || p.1 == "" then Dropped
      else if !wantSize then Found(Info(p.0, 0))
      else
        match ParseInt64(p.1)
        case None => Malformed
        case Some(size) => Found(Info(p.0, size))
  }

  /** One data packet of the response proper. */
  function DecodeRow(payload: string, wantSize: bool): Parsed {
    var line := TrimLf(payload);
    if "ERR " <= line then Malformed else ParseRow(line, wantSize)
  }

  function Append(infos: seq<Info>, row: Parsed): seq<Info> {
    if row.Found? then infos + [row.info] else infos
  }

  ghost function DecodeRows(infos: seq<Info>, wantSize: bool, ps: seq<Packet>): Result
    decreases |ps|
  {
    if ps == [] then Bad
    else match ps[0]
         case Flush => Ok(infos)
         case Data(payload) =>
           var row := DecodeRow(payload, wantSize);
           if row.Malformed? then Bad else DecodeRows(Append(infos, row), wantSize, ps[1..])
         case _ => Bad
  }

  /** DecodeObjectInfo. */
  ghost function Decode(ps: seq<Packet>): Result {
    if ps == [] then Bad
    else match ps[0]
         case Flush => Ok([])
         case Data(payload) =>
           var line := TrimLf(payload);
           if "ERR " <= line then Bad
           else if LooksLikeRow(line) then
             var row := ParseRow(line, false);
             if row.Malformed? then Bad else DecodeRows(Append([], row), false, ps[1..])
           else DecodeRows([], "size" in Fields(IsSpace, line), ps[1..])
         case _ => Bad
  }

  /** The decoder in place. */
  method Read(r: Inbox) returns (result: Result)
    requires r.Valid()
    modifies r
    ensures r.Valid() && result == Decode(old(r.Rest()))
  {
    hide ParseRow, LooksLikeRow;
    ghost var all := r.Rest();
    var first := r.ReadPacket();
    if first == None {
      return Bad;
    }
    if first.value.Flush? {
      return Ok([]);
    }
    if !first.value.Data? {
      return Bad;
    }
    assert all[1..] == r.Rest();
    var firstLine := TrimLf(first.value.payload);
    if "ERR " <= firstLine {
      return Bad;
    }
    var infos: seq<Info> := [];
    var wantSize := false;
    if LooksLikeRow(firstLine) {
      var row := ParseRow(firstLine, false);
      if row.Malformed? {
        return Bad;
      }
      infos := Append(infos, row);
    } else {
      var tokens := Fields(IsSpace, firstLine);
      for i := 0 to |tokens|
        invariant wantSize <==> "size" in tokens[..i]
      {
        if tokens[i] == "size" {
          wantSize := true;
        }
      }
      assert tokens[..|tokens|] == tokens;
    }
    while true
      invariant r.Valid() && DecodeRows(infos, wantSize, r.Rest()) == Decode(all)
      decreases |r.Rest()|
    {
      ghost var before := r.Rest();
      var p := r.ReadPacket();
      if p == None {
        return Bad;
      }
      assert before[0] == p.value && before[1..] == r.Rest();
      match p.value {
        case Flush => return Ok(infos);
        case Data(payload) =>
          var row := DecodeRow(payload, wantSize);
          if row.Malformed? {
            return Bad;
          }
          infos := Append(infos, row);
        case _ => return Bad;
      }
    }
  }

  // ---------------------------------------------------------------- they agree

  /** The rows a client should see: with sizes only what the store has, without sizes every id asked for. */
  function Seen(oids: seq<string>, size: bool, store: string -> Lookup): (infos: seq<Info>) {
    if oids == [] then []
    else
      var rest := Seen(oids[1..], size, store);
      if !size then [Info(oids[0], 0)] + rest
      else if store(oids[0]).Hit? then [Info(oids[0], store(oids[0]).size)] + rest
      else rest
  }

  /** The server can answer for the id: it parses, and the object behind it is not corrupt. */
  ghost predicate Answerable(oid: string, n: nat, store: string -> Lookup) {
    ParsesAsId(oid, n) && !store(oid).Corrupt?
  }

  ghost predicate AllAnswerable(oids: seq<string>, n: nat, store: string -> Lookup) {
    forall i :: 0 <= i < |oids| ==> Answerable(oids[i], n, store)
  }

  /** Sizes are non-negative int64s. */
  ghost predicate SizesFit(oids: seq<string>, store: string -> Lookup) {
    forall i :: 0 <= i < |oids| && store(oids[i]).Hit? ==> store(oids[i]).size < Bytes.U63
  }

  lemma {:induction false} PrintedDigits(v: nat)
    ensures DigitsValue(Decimal.Print(v)) == Some(v)
  {
    var s := Decimal.Print(v);
    if v >= 10 {
      PrintedDigits(v / 10);
      assert s[..|s| - 1] == Decimal.Print(v / 10);
    }
  }

  lemma PrintedSize(v: nat)
    requires v < Bytes.U63
    ensures ParseInt64(Decimal.Print(v)) == Some(v) && Decimal.Print(v) != ""
  {
    PrintedDigits(v);
    assert Decimal.IsDigit(Decimal.Print(v)[0]);
  }

  lemma IdHasNoSpace(oid: string, n: nat, rest: string)
    requires ParsesAsId(oid, n) && n >= 2
    ensures ' ' !in oid && oid != "" && !("ERR " <= oid + rest)
  {
    assert (oid + rest)[1] == oid[1] && "ERR "[1] == 'R';
  }

  function RowText(oid: string, size: bool, store: string -> Lookup): string {
    oid + if !size then "" else if store(oid).Hit? then " " + Decimal.Print(store(oid).size) else " "
  }

  function RowSeen(oid: string, size: bool, store: string -> Lookup): Parsed {
    if !size then Found(Info(oid, 0))
    else if store(oid).Hit? then Found(Info(oid, store(oid).size))
    else Dropped
  }

  lemma TextParses(oid: string, n: nat, size: bool, store: string -> Lookup)
    requires n >= 2 && ParsesAsId(oid, n) && (store(oid).Hit? ==> store(oid).size < Bytes.U63)
    ensures ParseRow(RowText(oid, size, store), size) == RowSeen(oid, size, store)
    ensures !("ERR " <= RowText(oid, size, store))
  {
    hide ParseInt64, ParsesAsId;
    var tail := if store(oid).Hit? then Decimal.Print(store(oid).size) else "";
    IdHasNoSpace(oid, n, RowText(oid, size, store)[|oid|..]);
    assert RowText(oid, size, store) == oid + RowText(oid, size, store)[|oid|..];
    if size {
      assert RowText(oid, size, store) == oid + [' '] + tail;
      CutFirst(oid, ' ', tail);
      if store(oid).Hit? {
        PrintedSize(store(oid).size);
      }
    }
  }

  /** A row for an object the store answers for reads back as that object, or not at all when it is missing. */
  lemma RowDecodes(oid: string, n: nat, size: bool, store: string -> Lookup)
    requires n >= 2 && Answerable(oid, n, store) && (store(oid).Hit? ==> store(oid).size < Bytes.U63)
    ensures EmitRow(oid, n, size, store) == Row(Line(RowText(oid, size, store)), false)
    ensures DecodeRow(RowText(oid, size, store) + "\n", size) == RowSeen(oid, size, store)
  {
    hide ParseRow, Decimal.Print, ParsesAsId;
    TextParses(oid, n, size, store);
    TrimLine(RowText(oid, size, store));
  }

  /** Any other row is an ERR line, which ends the decoding. */
  lemma OtherRowFails(oid: string, n: nat, size: bool, store: string -> Lookup)
    requires !Answerable(oid, n, store)
    ensures EmitRow(oid, n, size, store).line.Data?
    ensures DecodeRow(EmitRow(oid, n, size, store).line.payload, size) == Malformed
    ensures "ERR " <= TrimLf(EmitRow(oid, n, size, store).line.payload)
  {
    hide ParsesAsId;
    match store(oid)
    case Corrupt(message) =>
      TrimLine("ERR " + ("objstore: object corrupt or unresolvable: " + message));
      TrimLine("ERR " + ("object-info: protocol error, expected to get oid, not " + oid));
    case _ => TrimLine("ERR " + ("object-info: protocol error, expected to get oid, not " + oid));
  }

  lemma RowStep(infos: seq<Info>, size: bool, payload: string, ps: seq<Packet>)
    ensures DecodeRows(infos, size, [Data(payload)] + ps) ==
      if DecodeRow(payload, size).Malformed? then Bad
      else DecodeRows(Append(infos, DecodeRow(payload, size)), size, ps)
  {
    hide DecodeRow, Append;
    assert ([Data(payload)] + ps)[1..] == ps;
  }

  lemma FirstStep(payload: string, ps: seq<Packet>)
    ensures var line := TrimLf(payload);
      Decode([Data(payload)] + ps) ==
      if "ERR " <= line then Bad
      else if !LooksLikeRow(line) then DecodeRows([], "size" in Fields(IsSpace, line), ps)
      else if ParseRow(line, false).Malformed? then Bad
      else DecodeRows(Append([], ParseRow(line, false)), false, ps)
  {
    hide DecodeRows, LooksLikeRow, ParseRow, Fields, TrimLf, Append;
    assert ([Data(payload)] + ps)[1..] == ps;
  }

  lemma {:induction false} RowsDecode(infos: seq<Info>, oids: seq<string>, n: nat, size: bool, store: string -> Lookup)
    requires n >= 2 && SizesFit(oids, store)
    ensures DecodeRows(infos, size, Rows(oids, n, size, store)) ==
      if AllAnswerable(oids, n, store) then Ok(infos + Seen(oids, size, store)) else Bad
    decreases |oids|
  {
    hide EmitRow, DecodeRow, Answerable, RowText, RowSeen;
    if oids == [] {
      assert infos + [] == infos;
    } else {
      hide DecodeRows, Rows, Seen, AllAnswerable, Append;
      var row := EmitRow(oids[0], n, size, store);
      RowsUnfold(oids, n, size, store);
      var rest := if row.fatal then [Flush] else Rows(oids[1..], n, size, store);
      SeenStep(infos, oids, size, store);
      AnswerableStep(oids, n, store);
      if Answerable(oids[0], n, store) {
        RowDecodes(oids[0], n, size, store);
        RowsDecode(Append(infos, RowSeen(oids[0], size, store)), oids[1..], n, size, store);
        RowStep(infos, size, RowText(oids[0], size, store) + "\n", rest);
      } else {
        OtherRowFails(oids[0], n, size, store);
        RowStep(infos, size, row.line.payload, rest);
      }
    }
  }

  lemma SeenStep(infos: seq<Info>, oids: seq<string>, size: bool, store: string -> Lookup)
    requires oids != []
    ensures Append(infos, RowSeen(oids[0], size, store)) + Seen(oids[1..], size, store) ==
      infos + Seen(oids, size, store)
    ensures !RowSeen(oids[0], size, store).Malformed?
  {
    var row, rest := RowSeen(oids[0], size, store), Seen(oids[1..], size, store);
    if row.Found? {
      assert Seen(oids, size, store) == [row.info] + rest;
      assert infos + [row.info] + rest == infos + ([row.info] + rest);
    } else {
      assert Seen(oids, size, store) == rest;
    }
  }

  lemma AnswerableStep(oids: seq<string>, n: nat, store: string -> Lookup)
    requires oids != []
    ensures AllAnswerable(oids, n, store) <==> Answerable(oids[0], n, store) && AllAnswerable(oids[1..], n, store)
  {
    hide Answerable;
    assert forall i :: 0 <= i < |oids| - 1 ==> oids[1..][i] == oids[i + 1];
    if Answerable(oids[0], n, store) && AllAnswerable(oids[1..], n, store) {
      forall i | 0 <= i < |oids|
        ensures Answerable(oids[i], n, store)
      {
        if i > 0 {
          assert oids[i] == oids[1..][i - 1];
        }
      }
    }
  }

  lemma SizeLine()
    ensures TrimLf("size\n") == "size" && !("ERR " <= "size") && !LooksLikeRow("size") &&
      "size" in Fields(IsSpace, "size")
  {
    TrimLine("size");
    assert "size" + "\n" == "size\n" && "size"[0] == 's' && "ERR "[0] == 'E';
    assert Spaced(["size"]) == "size";
    FieldsOfSpaced(IsSpace, ["size"]);
    assert Fields(IsSpace, "size")[0] == "size";
  }

  lemma IdLooksLikeRow(oid: string, n: nat)
    requires (n == 40 || n == 64) && ParsesAsId(oid, n)
    ensures LooksLikeRow(oid) <==> IsLower(oid)
    ensures Fields(IsSpace, oid) == [oid] && oid != "size"
  {
    IdHasNoSpace(oid, n, "");
    assert Spaced([oid]) == oid;
    assert oid + "" == oid && IsToken(IsSpace, oid);
    FieldsOfSpaced(IsSpace, [oid]);
    assert "size"[0] == 's' && Cut(oid, ' ') == None && FirstToken(oid) == oid;
  }

  ghost predicate LowerHex(s: string) {
    forall i :: 0 <= i < |s| ==> '0' <= s[i] <= '9' || 'a' <= s[i] <= 'f'
  }

  /**
   The client decodes exactly the objects the store has, with their sizes and in the order asked for; without
   sizes, every id asked for. It fails exactly when some id is malformed or some object corrupt. One answer is
   lost: without sizes, a first id in upper case is taken for an attribute line.
   */
  lemma InfoRoundTrip(oids: seq<string>, n: nat, size: bool, store: string -> Lookup)
    requires (n == 40 || n == 64) && SizesFit(oids, store)
    ensures Decode(Respond(oids, n, size, store)) ==
      if !AllAnswerable(oids, n, store) then Bad
      else if size || oids == [] || LowerHex(oids[0]) then Ok(Seen(oids, size, store))
      else Ok(Seen(oids[1..], false, store))
  {
    assert oids != [] ==> (LowerHex(oids[0]) <==> IsLower(oids[0]));
    hide EmitRow, DecodeRow, RowText, LooksLikeRow, ParseRow, ParsesAsId, Fields, DecodeRows, IsLower, LowerHex;
    if oids == [] {
      assert AllAnswerable(oids, n, store);
    } else if size {
      hide Decode, Rows, Seen, AllAnswerable;
      SizedRows(oids, n, store);
      assert "size" + "\n" == "size\n";
      assert Respond(oids, n, size, store) == [Data("size\n")] + Rows(oids, n, size, store);
    } else {
      hide Decode, Rows, Seen, AllAnswerable;
      assert Respond(oids, n, size, store) == Rows(oids, n, size, store);
      BareRows(oids, n, store);
    }
  }

  lemma {:induction false} SizedRows(oids: seq<string>, n: nat, store: string -> Lookup)
    requires (n == 40 || n == 64) && SizesFit(oids, store)
    ensures Decode([Data("size\n")] + Rows(oids, n, true, store)) ==
      if !AllAnswerable(oids, n, store) then Bad else Ok(Seen(oids, true, store))
  {
    hide Decode, DecodeRows, Rows, Seen, AllAnswerable, LooksLikeRow, Fields, ParseRow, TrimLf, SizesFit;
    SizeLine();
    RowsDecode([], oids, n, true, store);
    FirstStep("size\n", Rows(oids, n, true, store));
    assert [] + Seen(oids, true, store) == Seen(oids, true, store);
  }

  lemma {:induction false} BareRows(oids: seq<string>, n: nat, store: string -> Lookup)
    requires (n == 40 || n == 64) && SizesFit(oids, store) && oids != []
    ensures Decode(Rows(oids, n, false, store)) ==
      if !AllAnswerable(oids, n, store) then Bad
      else if IsLower(oids[0]) then Ok(Seen(oids, false, store))
      else Ok(Seen(oids[1..], false, store))
  {
    hide EmitRow, DecodeRow, LooksLikeRow, Fields, DecodeRows, Answerable, IsLower, Decode, Rows, ParseRow, TrimLf;
    var oid, rest := oids[0], oids[1..];
    var row := EmitRow(oid, n, false, store);
    RowsUnfold(oids, n, false, store);
    if Answerable(oid, n, store) {
      RowDecodes(oid, n, false, store);
      assert RowText(oid, false, store) == oid + "" == oid;
      TrimLine(oid);
      AnswerableParses(oid, n, store);
      IdLooksLikeRow(oid, n);
      TextParses(oid, n, false, store);
      FirstStep(oid + "\n", Rows(rest, n, false, store));
      RowsDecode([Info(oid, 0)], rest, n, false, store);
      RowsDecode([], rest, n, false, store);
      assert [] + Seen(rest, false, store) == Seen(rest, false, store);
      assert Append([], Found(Info(oid, 0))) == [Info(oid, 0)];
      assert "size" !in [oid];
      AnswerableStep(oids, n, store);
    } else {
      OtherRowFails(oid, n, false, store);
      FirstStep(row.line.payload, if row.fatal then [Flush] else Rows(rest, n, false, store));
    }
  }

  lemma AnswerableParses(oid: string, n: nat, store: string -> Lookup)
    requires Answerable(oid, n, store)
    ensures ParsesAsId(oid, n)
  {
  }

  /** A row is an id, a space and a size; one without a size, or without an id, is passed over. */
  lemma {:induction false} RowsRead(id: string, text: string, wantSize: bool)
    requires ' ' !in id
    ensures ParseRow(id + " " + text, wantSize) ==
      if id == "" || text == "" then Dropped
      else if !wantSize then Found(Info(id, 0))
      else match ParseInt64(text) { case None => Malformed case Some(size) => Found(Info(id, size)) }
    ensures ParseRow(id, wantSize) == if id == "" || wantSize then Dropped else Found(Info(id, 0))
  {
    hide ParseInt64;
    assert id + " " + text == id + [' '] + text;
    CutFirst(id, ' ', text);
  }

  /** The first line names attributes unless it begins with 40 or 64 lower-case digits and a space or its end. */
  lemma {:induction false} LooksLikeRowExactly(id: string, text: string)
    requires ' ' !in id
    ensures LooksLikeRow(id) <==> |id| in {40, 64} && LowerHex(id)
    ensures LooksLikeRow(id + " " + text) <==> |id| in {40, 64} && LowerHex(id)
  {
    assert id + " " + text == id + [' '] + text;
    CutFirst(id, ' ', text);
  }

  lemma {:induction false} OnlyDigits(s: string)
    ensures DigitsValue(s).Some? <==> s != "" && forall i :: 0 <= i < |s| ==> '0' <= s[i] <= '9'
  {
    if |s| > 1 {
      OnlyDigits(s[..|s| - 1]);
      assert s == s[..|s| - 1] + [s[|s| - 1]];
    }
  }

  /** A sign, then digits, and nothing outside int64. */
  lemma {:induction false} SizesRead(v: int)
    requires v >= 0
    ensures ParseInt64(Decimal.Print(v)) == ParseInt64("+" + Decimal.Print(v)) ==
      if v < 0x8000_0000_0000_0000 then Some(v) else None
    ensures ParseInt64("-" + Decimal.Print(v)) == if v <= 0x8000_0000_0000_0000 then Some(-v) else None
  {
    PrintedDigits(v);
    assert Decimal.IsDigit(Decimal.Print(v)[0]);
    hide Decimal.Print, DigitsValue;
    SignedText(Decimal.Print(v), v);
  }

  lemma SignedText(p: string, v: int)
    requires p != "" && Decimal.IsDigit(p[0]) && v >= 0 && DigitsValue(p) == Some(v)
    ensures ParseInt64(p) == ParseInt64("+" + p) == if v < 0x8000_0000_0000_0000 then Some(v) else None
    ensures ParseInt64("-" + p) == if v <= 0x8000_0000_0000_0000 then Some(-v) else None
  {
    hide DigitsValue;
    assert ("+" + p)[1..] == p && ("-" + p)[1..] == p;
  }

  lemma {:induction false} NotASize(s: string)
    requires s == "" || exists i :: 0 < i < |s| && !('0' <= s[i] <= '9')
    ensures ParseInt64(s) == None
  {
    hide DigitsValue;
    OnlyDigits(s);
    if s != "" {
      var i :| 0 < i < |s| && !('0' <= s[i] <= '9');
      assert s[1..][i - 1] == s[i];
      OnlyDigits(s[1..]);
    }
  }

  /** No response at all, an ERR line, a control packet and a missing flush all fail. */
  lemma {:induction false} DecodeFails(msg: string, p: Packet, infos: seq<Info>, wantSize: bool, ps: seq<Packet>)
    requires p == Delim || p == ResponseEnd || p == Data("ERR " + msg + "\n")
    ensures Decode([]) == Decode([p] + ps) == Bad && Decode([Flush] + ps) == Ok([])
    ensures DecodeRows(infos, wantSize, []) == DecodeRows(infos, wantSize, [p] + ps) == Bad
    ensures DecodeRows(infos, wantSize, [Flush] + ps) == Ok(infos)
  {
    TrimLine("ERR " + msg);
    assert "ERR " <= "ERR " + msg;
  }

  /** The two error rows: a malformed id does not end the response, a corrupt object does. */
  lemma ErrorRows(oid: string, n: nat, size: bool, store: string -> Lookup, message: string)
    ensures |oid| != n ==>
      EmitRow(oid, n, size, store) ==
      Row(Data("ERR " + ("object-info: protocol error, expected to get oid, not " + oid) + "\n"), false)
    ensures ParsesAsId(oid, n) && store(oid) == Corrupt(message) ==>
      EmitRow(oid, n, size, store) ==
      Row(Data("ERR " + ("objstore: object corrupt or unresolvable: " + message) + "\n"), true)
  {
  }

  lemma {:induction false} LowerCaseNeeded(oid: string, store: string -> Lookup)
    requires oid == seq(40, _ => 'A') && store(oid) == Hit(7)
    ensures Decode(Respond([oid], 40, false, store)) == Ok([])
    ensures Decode(Respond([oid], 40, true, store)) == Ok([Info(oid, 7)])
  {
    hide Decode, Respond;
    assert !IsHexDigit(oid[0]);
    assert [oid][1..] == [];
    InfoRoundTrip([oid], 40, false, store);
    InfoRoundTrip([oid], 40, true, store);
  }
}
