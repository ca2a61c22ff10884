/** Delta chains and tag chains: the capped walks, their memo caches, and what they compute. */
module ObjectStore {
  import opened Options
  import opened WireText
  import Bytes
  import PackCrc
  import PackHeader
  import PackIndex
  import Refs
  import Varint

  type Oid = string

  /** An entry of some pack. */
  datatype Place = Place(pack: nat, at: int)

  /** What Pack.ReadHeader and Pack.ReadDeltaHeader read at a place; target is None when the delta is malformed. */
  datatype Header =
    | Unreadable
    | Unknown
    | Whole(kind: string, size: int)
    | OfsDelta(base: int, target: Option<int>)
    | RefDelta(id: Oid, target: Option<int>)

  /** What reading an object as a loose tag gives. */
  datatype TagRead = ReadFails | NotLoose | NotTag | Tag(body: string)

  /** The packs and loose objects behind a store, which do not change while it is open. */
  datatype World = World(
    header: Place -> Header,
    lookup: Oid -> Option<Place>,
    intact: (Oid, Place) -> bool,
    loose: Oid -> TagRead,
    hexLen: nat
  )

  // ---------------------------------------------------------------- delta chains

  const MaxChainDepth := 64

  datatype Outcome = Ends(kind: string) | Fails | Runs

  /** The entry a delta builds on. */
  function Base(w: World, p: Place): Option<Place> {
    match w.header(p)
    case OfsDelta(base, _) => Some(Place(p.pack, base))
    case RefDelta(id, _) => w.lookup(id)
    case _ => None
  }

  /** The chain from p resolved recursively, reading at most n headers. */
  function Resolve(w: World, p: Place, n: nat): (r: Outcome)
    decreases n
  {
    if n == 0 then Runs
    else
      match w.header(p)
      case Unreadable => Fails
      case Unknown => Fails
      case Whole(kind, _) => Ends(kind)
      case _ =>
        match Base(w, p)
        case None => Fails
        case Some(q) => Resolve(w, q, n - 1)
  }

  /** The size a caller sees: the object's own, or the target size of the delta at the head. */
  function HeadSize(w: World, p: Place): Option<int> {
    match w.header(p)
    case Whole(_, size) => Some(size)
    case OfsDelta(_, target) => target
    case RefDelta(_, target) => target
    case _ => None
  }

  datatype InfoResult = Info(kind: string, size: int) | Corrupt

  /** The resolver without a cap: some number of headers is enough. */
  ghost predicate ResolvesTo(w: World, p: Place, r: Outcome) {
    !r.Runs? && exists n: nat :: Resolve(w, p, n) == r
  }

  lemma {:induction false} ResolveMonotone(w: World, p: Place, n: nat, m: nat)
    requires n <= m && !Resolve(w, p, n).Runs?
    ensures Resolve(w, p, m) == Resolve(w, p, n)
    decreases n
  {
    if Base(w, p).Some? && n > 0 && !w.header(p).Whole? {
      ResolveMonotone(w, Base(w, p).value, n - 1, m - 1);
    }
  }

  /** What walkPackChain returns. */
  function ChainInfo(w: World, oid: Oid, p: Place): InfoResult {
    var r := Resolve(w, p, MaxChainDepth);
    if !w.intact(oid, p) || HeadSize(w, p).None? || !r.Ends? then Corrupt else Info(r.kind, HeadSize(w, p).value)
  }

  /**
   On chains of at most 64 entries the capped walk is the uncapped resolver, and on longer ones it fails,
   however they would end.
   */
  lemma CapOnlyCutsLongChains(w: World, oid: Oid, p: Place, r: Outcome, n: nat)
    requires w.intact(oid, p) && HeadSize(w, p).Some?
    requires n > 0 && Resolve(w, p, n) == r && !r.Runs? && Resolve(w, p, n - 1).Runs?
    ensures ResolvesTo(w, p, r) && (forall s :: ResolvesTo(w, p, s) ==> s == r)
    ensures n <= 64 ==>
      ChainInfo(w, oid, p) == if r.Ends? then Info(r.kind, HeadSize(w, p).value) else Corrupt
    ensures n > 64 ==> ChainInfo(w, oid, p) == Corrupt
  {
    hide Resolve, HeadSize;
    forall s | ResolvesTo(w, p, s)
      ensures s == r
    {
      var m: nat :| Resolve(w, p, m) == s;
      ResolveMonotone(w, p, if m <= n then m else n, if m <= n then n else m);
    }
    if n <= MaxChainDepth {
      ResolveMonotone(w, p, n, MaxChainDepth);
    } else if !Resolve(w, p, MaxChainDepth).Runs? {
      ResolveMonotone(w, p, MaxChainDepth, n - 1);
    }
  }

  /** The delta at p builds on q. */
  ghost predicate BuildsOn(w: World, p: Place, q: Place) {
    || (w.header(p).OfsDelta? && q == Place(p.pack, w.header(p).base))
    || (w.header(p).RefDelta? && w.lookup(w.header(p).id) == Some(q))
  }

  /** Each entry builds on the next. */
  ghost predicate DeltaChain(w: World, ps: seq<Place>) {
    ps != [] && forall i :: 0 <= i < |ps| - 1 ==> BuildsOn(w, ps[i], ps[i + 1])
  }

  /** The chain can go on from p no further, and p is no object either. */
  ghost predicate DeadEnd(w: World, p: Place) {
    || w.header(p).Unreadable? || w.header(p).Unknown?
    || (w.header(p).RefDelta? && w.lookup(w.header(p).id) == None)
  }

  lemma {:induction false} ChainResolves(w: World, ps: seq<Place>, n: nat)
    requires DeltaChain(w, ps)
    ensures |ps| <= n && w.header(ps[|ps| - 1]).Whole? ==> Resolve(w, ps[0], n) == Ends(w.header(ps[|ps| - 1]).kind)
    ensures |ps| <= n && DeadEnd(w, ps[|ps| - 1]) ==> Resolve(w, ps[0], n) == Fails
    ensures |ps| > n ==> Resolve(w, ps[0], n) == Runs
    decreases |ps|
  {
    ResolveStep(w, ps[0], n);
    if |ps| > 1 && n > 0 {
      assert BuildsOn(w, ps[0], ps[1]);
      ChainResolves(w, ps[1..], n - 1);
    }
  }

  /**
   A chain of at most 64 entries that ends in an object gives that object's type, with the object's own size
   when it stands alone and the target size of the first delta otherwise. A longer chain, one that breaks
   off, a first delta without a size and a damaged object are all corrupt.
   */
  lemma {:induction false} WalkedChain(w: World, oid: Oid, ps: seq<Place>)
    requires DeltaChain(w, ps)
    ensures w.header(ps[|ps| - 1]).Whole? && |ps| <= 64 && w.intact(oid, ps[0]) ==>
      var end, head := w.header(ps[|ps| - 1]), w.header(ps[0]);
      var sized := (head.OfsDelta? || head.RefDelta?) && head.target.Some?;
      && (|ps| == 1 ==> ChainInfo(w, oid, ps[0]) == Info(end.kind, end.size))
      && (|ps| > 1 && sized ==> ChainInfo(w, oid, ps[0]) == Info(end.kind, head.target.value))
      && (|ps| > 1 && !sized ==> ChainInfo(w, oid, ps[0]) == Corrupt)
    ensures |ps| > 64 || DeadEnd(w, ps[|ps| - 1]) || !w.intact(oid, ps[0]) ==> ChainInfo(w, oid, ps[0]) == Corrupt
  {
    hide Resolve, DeadEnd;
    ChainResolves(w, ps, 64);
    if |ps| > 1 {
      assert BuildsOn(w, ps[0], ps[1]);
    }
  }

  /** The store's check of an object is verifyPackCRC against the index paired with its pack. */
  ghost predicate ChecksSums(w: World, update: (nat, Bytes.byte) -> nat, name: Oid -> Bytes.bytes,
                             idxs: seq<PackIndex.Idx>, packs: seq<PackCrc.Pack>)
  {
    && |idxs| == |packs| && (forall i :: 0 <= i < |idxs| ==> PackIndex.Valid(idxs[i]))
    && forall oid, p: Place :: 0 <= p.pack < |packs| && p.at >= 0 ==>
        (w.intact(oid, p) <==> PackCrc.Passes(update, idxs[p.pack], packs[p.pack], name(oid), p.at))
  }

  /** An object whose packed bytes do not have the sum recorded for them is corrupt, whatever its chain. */
  lemma DamagedIsCorrupt(w: World, update: (nat, Bytes.byte) -> nat, name: Oid -> Bytes.bytes,
                         idxs: seq<PackIndex.Idx>, packs: seq<PackCrc.Pack>, oid: Oid, p: Place, k: nat, end: int)
    requires ChecksSums(w, update, name, idxs, packs) && p.pack < |packs| && p.at >= 0
    requires idxs[p.pack].ver == 2 && k < idxs[p.pack].count && PackIndex.NameAt(idxs[p.pack], k) == name(oid)
    requires PackCrc.Stops(idxs[p.pack], packs[p.pack], p.at, end) && p.at < end <= |packs[p.pack].data|
    requires PackIndex.CrcAt(idxs[p.pack], k) != PackCrc.Fold(update, 0, packs[p.pack].data[p.at..end])
    ensures ChainInfo(w, oid, p) == Corrupt
  {
    hide PackIndex.Valid, PackCrc.Stops, PackCrc.Passes, PackCrc.Fold, PackIndex.NameAt, PackIndex.CrcAt, Resolve;
    PackCrc.DamageShows(update, idxs[p.pack], packs[p.pack], k, p.at, end);
  }

  /** Pack.ReadHeader places an OFS_DELTA's base strictly below the delta. */
  ghost predicate OfsDescends(w: World) {
    forall p :: w.header(p).OfsDelta? ==> 0 <= w.header(p).base < p.at
  }

  function KindName(objectType: int): string {
    if objectType == PackHeader.TypeCommit then "commit"
    else if objectType == PackHeader.TypeTree then "tree"
    else if objectType == PackHeader.TypeBlob then "blob"
    else "tag"
  }

  /** The header at a place of packs given by their bytes; target stands for the inflated delta's target size. */
  function HeaderOf(packs: seq<Bytes.bytes>, hashLen: nat, hex: Bytes.bytes -> Oid, target: Place -> Option<int>,
                    p: Place): Header {
    if p.pack >= |packs| || p.at < 0 then Unreadable
    else
      match PackHeader.HeaderAt(packs[p.pack], p.at, hashLen)
      case Err(_) => Unreadable
      case Ok(h) =>
        match h.base
        case OfsBase(at) => OfsDelta(at, target(p))
        case RefBase(oid) => RefDelta(hex(oid), target(p))
        case NoBase => Whole(KindName(h.objectType), h.size)
  }

  /** What stands in a pack: the four whole kinds with their size, and the two deltas with their base. */
  lemma HeadersRead(packs: seq<Bytes.bytes>, i: nat, hex: Bytes.bytes -> Oid, target: Place -> Option<int>,
                    before: Bytes.bytes, t: nat, v: nat, base: Bytes.bytes, d: nat, tail: Bytes.bytes)
    requires i < |packs| && 1 <= t <= 4 && v < 0x1000_0000_0000_0000 && 0 < d < |before| < 0x8000_0000_0000_0000
    ensures packs[i] == before + (PackHeader.EncodeSize(t, v) + []) + tail ==>
      HeaderOf(packs, |base|, hex, target, Place(i, |before|)) == Whole(["commit", "tree", "blob", "tag"][t - 1], v)
    ensures packs[i] == before + (PackHeader.EncodeSize(6, v) + Varint.Encode(d)) + tail ==>
      HeaderOf(packs, |base|, hex, target, Place(i, |before|)) == OfsDelta(|before| - d, target(Place(i, |before|)))
    ensures packs[i] == before + (PackHeader.EncodeSize(7, v) + base) + tail ==>
      HeaderOf(packs, |base|, hex, target, Place(i, |before|)) == RefDelta(hex(base), target(Place(i, |before|)))
  {
    hide PackHeader.HeaderAt, PackHeader.EncodeSize, Varint.Encode;
    PackHeader.WholeHeaderRoundTrip(before, t, v, tail, |base|);
    PackHeader.OfsHeaderRoundTrip(before, v, d, tail, |base|);
    PackHeader.RefHeaderRoundTrip(before, v, base, tail);
  }

  /** A store over packs of any bytes has descending OFS_DELTAs. */
  lemma BytesDescend(w: World, packs: seq<Bytes.bytes>, hashLen: nat, hex: Bytes.bytes -> Oid,
                     target: Place -> Option<int>)
    requires forall p :: w.header(p) == HeaderOf(packs, hashLen, hex, target, p)
    ensures OfsDescends(w)
  {
    hide PackHeader.HeaderAt;
    forall p | w.header(p).OfsDelta?
      ensures 0 <= w.header(p).base < p.at
    {
      PackHeader.HeaderShape(packs[p.pack], p.at, hashLen);
    }
  }

  /** No REF_DELTA stands on the first n entries of the chain. */
  predicate PureOfs(w: World, p: Place, n: nat)
    decreases n
  {
    n > 0 ==>
      && !w.header(p).RefDelta?
      && (w.header(p).OfsDelta? ==> PureOfs(w, Place(p.pack, w.header(p).base), n - 1))
  }

  /** A chain of OFS_DELTAs cannot run in circles: it ends within as many headers as its offset allows. */
  lemma {:induction false} PureOfsEnds(w: World, p: Place)
    requires OfsDescends(w) && p.at >= 0 && PureOfs(w, p, p.at + 1)
    ensures !Resolve(w, p, p.at + 1).Runs?
    decreases p.at
  {
    hide OfsDescends;
    if w.header(p).OfsDelta? {
      var q := Place(p.pack, w.header(p).base);
      assert 0 <= q.at < p.at by { BaseBelow(w, p); }
      PureOfsShorter(w, q, p.at, q.at + 1);
      PureOfsEnds(w, q);
      ResolveMonotone(w, q, q.at + 1, p.at);
    }
  }

  lemma BaseBelow(w: World, p: Place)
    requires OfsDescends(w) && w.header(p).OfsDelta?
    ensures 0 <= w.header(p).base < p.at
  {
  }

  lemma {:induction false} PureOfsShorter(w: World, p: Place, n: nat, m: nat)
    requires PureOfs(w, p, n) && m <= n
    ensures PureOfs(w, p, m)
    decreases n
  {
    if m > 0 && w.header(p).OfsDelta? {
      PureOfsShorter(w, Place(p.pack, w.header(p).base), n - 1, m - 1);
    }
  }

  /** A REF_DELTA can: an object that is its own base never ends, and only the cap stops the walk. */
  lemma {:induction false} RefCycleRuns(w: World, p: Place, id: Oid, n: nat)
    requires w.header(p) == RefDelta(id, Some(0)) && w.lookup(id) == Some(p)
    ensures Resolve(w, p, n).Runs?
    decreases n
  {
    if n > 0 {
      RefCycleRuns(w, p, id, n - 1);
    }
  }

  // ---------------------------------------------------------------- tags

  const MaxPeelDepth := 16
  const MaxLine := 65535

  datatype TagBody = TagBody(target: Oid, kind: string)

  /** parseTagBody. */
  function ParseTag(body: string, n: nat): Option<TagBody> {
    match ScanLine(body, MaxLine)
    case NoLine => None
    case LineTooLong => None
    case Scanned(first, after) =>
      match CutPrefix(first, "object ")
      case None => None
      case Some(hex) =>
        match Refs.ParseHex(hex, n)
        case None => None
        case Some(target) =>
          match ScanLine(after, MaxLine)
          case NoLine => None
          case LineTooLong => None
          case Scanned(second, _) =>
            match CutPrefix(second, "type ")
            case None => None
            case Some(kind) =>
              if kind in {"commit", "tree", "blob", "tag"} then Some(TagBody(target, kind)) else None
  }

  lemma KindLine(kind: string)
    requires kind in {"commit", "tree", "blob", "tag"}
    ensures '\n' !in "type " + kind && kind[|kind| - 1] != '\r' && 1 <= |kind| < 10
  {
  }

  /** A tag's two leading lines are read back whatever follows them. */
  lemma TagRoundTrip(target: Oid, kind: string, rest: string, n: nat)
    requires Refs.IsOid(target) && |target| == n < 1000 && kind in {"commit", "tree", "blob", "tag"}
    ensures ParseTag("object " + target + "\n" + ("type " + kind + "\n" + rest), n) == Some(TagBody(target, kind))
  {
    hide Refs.ParseHex, ScanLine, CutPrefix;
    var first, second := "object " + target, "type " + kind;
    KindLine(kind);
    Refs.HexParses(target, n);
    HexLine(target, n);
    assert '\n' !in first;
    assert first[|first| - 1] == target[|target| - 1];
    assert second[|second| - 1] == kind[|kind| - 1];
    ScanFirst(first, second + "\n" + rest, MaxLine);
    ScanFirst(second, rest, MaxLine);
    CutConcat("object ", target);
    CutConcat("type ", kind);
  }

  lemma HexLine(target: Oid, n: nat)
    requires Refs.IsOid(target) && |target| == n
    ensures '\n' !in target && target[|target| - 1] != '\r'
  {
  }

  datatype Peel = Peeled(target: Oid) | NotPeelable | Overrun | Failed

  /** The chain of tags from oid, reading at most n of them. */
  function PeelChain(w: World, oid: Oid, n: nat): (r: Peel)
    decreases n
  {
    if n == 0 then Overrun
    else
      match w.loose(oid)
      case ReadFails => Failed
      case NotLoose => NotPeelable
      case NotTag => NotPeelable
      case Tag(body) =>
        match ParseTag(body, w.hexLen)
        case None => Failed
        case Some(tag) => if tag.kind != "tag" then Peeled(tag.target) else PeelChain(w, tag.target, n - 1)
  }

  lemma {:induction false} PeelMonotone(w: World, oid: Oid, n: nat, m: nat)
    requires n <= m && !PeelChain(w, oid, n).Overrun?
    ensures PeelChain(w, oid, m) == PeelChain(w, oid, n)
    decreases n
  {
    hide ParseTag;
    match w.loose(oid)
    case Tag(body) =>
      var tag := ParseTag(body, w.hexLen);
      if tag.Some? && tag.value.kind == "tag" {
        PeelMonotone(w, tag.value.target, n - 1, m - 1);
      }
    case _ =>
  }

  /** Sixteen tags are peeled like any number would be; a seventeenth is an overrun. */
  lemma {:induction false} PeelCapExact(w: World, oid: Oid, n: nat)
    requires n > 0 && !PeelChain(w, oid, n).Overrun? && PeelChain(w, oid, n - 1).Overrun?
    ensures PeelChain(w, oid, 16) == if n <= 16 then PeelChain(w, oid, n) else Overrun
  {
    hide PeelChain;
    if n <= MaxPeelDepth {
      PeelMonotone(w, oid, n, MaxPeelDepth);
    } else if !PeelChain(w, oid, MaxPeelDepth).Overrun? {
      PeelMonotone(w, oid, MaxPeelDepth, n - 1);
    }
  }

  /** oid is a tag of target, an object of this kind. */
  ghost predicate TagOf(w: World, oid: Oid, target: Oid, kind: string) {
    && Refs.IsOid(target) && |target| == w.hexLen < 1000
    && exists rest :: w.loose(oid) == Tag("object " + target + "\n" + ("type " + kind + "\n" + rest))
  }

  /** Each is a tag of the next. */
  ghost predicate TagChain(w: World, ids: seq<Oid>) {
    ids != [] && forall i :: 0 <= i < |ids| - 1 ==> TagOf(w, ids[i], ids[i + 1], "tag")
  }

  lemma TagReads(w: World, oid: Oid, target: Oid, kind: string)
    requires TagOf(w, oid, target, kind) && kind in {"commit", "tree", "blob", "tag"}
    ensures w.loose(oid).Tag? && ParseTag(w.loose(oid).body, w.hexLen) == Some(TagBody(target, kind))
  {
    hide ParseTag;
    var rest :| w.loose(oid) == Tag("object " + target + "\n" + ("type " + kind + "\n" + rest));
    TagRoundTrip(target, kind, rest, w.hexLen);
  }

  lemma {:induction false} ChainPeels(w: World, ids: seq<Oid>, n: nat)
    requires TagChain(w, ids)
    ensures |ids| <= n ==> PeelChain(w, ids[0], n) == PeelChain(w, ids[|ids| - 1], n - (|ids| - 1))
    ensures |ids| > n ==> PeelChain(w, ids[0], n) == Overrun
    decreases |ids|
  {
    hide ParseTag, TagOf;
    if |ids| > 1 && n > 0 {
      assert TagOf(w, ids[0], ids[1], "tag");
      TagReads(w, ids[0], ids[1], "tag");
      ChainPeels(w, ids[1..], n - 1);
    }
  }

  /**
   Of a chain of at most sixteen the last decides: a tag of anything but a tag peels to its target, what is
   not loose or not a tag is not peelable, and what cannot be read or parsed is an error. A longer chain is
   reported as not peelable.
   */
  lemma {:induction false} PeeledChain(w: World, ids: seq<Oid>, target: Oid)
    requires TagChain(w, ids)
    ensures var last, answer := ids[|ids| - 1], Uncached(w, PeelCall(ids[0]));
      && (|ids| > 16 ==> answer == PeelIs(None))
      && (|ids| <= 16 ==>
            && (TagOf(w, last, target, "commit") || TagOf(w, last, target, "tree") || TagOf(w, last, target, "blob") ==>
                  answer == PeelIs(Some(target)))
            && (w.loose(last).NotLoose? || w.loose(last).NotTag? ==> answer == PeelIs(None))
            && (w.loose(last).ReadFails? ==> answer == PeelError)
            && (w.loose(last).Tag? && ParseTag(w.loose(last).body, w.hexLen) == None ==> answer == PeelError))
  {
    hide ParseTag, TagOf;
    ChainPeels(w, ids, 16);
    assert "commit"[0] == 'c' && "tree"[1] == 'r' && "blob"[0] == 'b';
    if TagOf(w, ids[|ids| - 1], target, "commit") {
      TagReads(w, ids[|ids| - 1], target, "commit");
    }
    if TagOf(w, ids[|ids| - 1], target, "tree") {
      TagReads(w, ids[|ids| - 1], target, "tree");
    }
    if TagOf(w, ids[|ids| - 1], target, "blob") {
      TagReads(w, ids[|ids| - 1], target, "blob");
    }
  }

  /** Whole lines: a body is a tag exactly when its first two lines are an id of n digits and one of four kinds. */
  lemma {:induction false} TagLines(first: string, second: string, rest: string, n: nat)
    requires '\n' !in first && '\n' !in second && |first| <= 65535 && |second| <= 65535
    requires (first == "" || first[|first| - 1] != '\r') && (second == "" || second[|second| - 1] != '\r')
    ensures ParseTag(first + "\n" + (second + "\n" + rest), n) ==
      if "object " <= first && Refs.ParseHex(first[7..], n).Some?
         && second in {"type commit", "type tree", "type blob", "type tag"}
      then Some(TagBody(Refs.ParseHex(first[7..], n).value, second[5..])) else None
    ensures ParseTag(first + "\n", n) == None && ParseTag("", n) == None
  {
    hide Refs.ParseHex, ScanLine;
    ScanFirst(first, second + "\n" + rest, MaxLine);
    ScanFirst(second, rest, MaxLine);
    ScanFirst(first, "", MaxLine);
    NoLineLeft();
    assert first + "\n" + "" == first + "\n";
    KindIs(second, "commit", "type commit");
    KindIs(second, "tree", "type tree");
    KindIs(second, "blob", "type blob");
    KindIs(second, "tag", "type tag");
  }

  lemma NoLineLeft()
    ensures ScanLine("", MaxLine) == NoLine
  {
  }

  lemma KindIs(line: string, kind: string, whole: string)
    requires whole == "type " + kind
    ensures line == whole <==> "type " <= line && line[5..] == kind
  {
    if "type " <= line {
      assert line == "type " + line[5..];
    }
    assert whole[5..] == kind;
  }

  // ---------------------------------------------------------------- the store and its caches

  datatype Answer = InfoIs(info: InfoResult) | PeelIs(target: Option<Oid>) | PeelError

  datatype Call = Walk(oid: Oid, p: Place) | PeelCall(oid: Oid)

  /** What a call answers without any cache; an overrun reads as not peelable. */
  function Uncached(w: World, call: Call): Answer {
    match call
    case Walk(oid, p) => InfoIs(ChainInfo(w, oid, p))
    case PeelCall(oid) =>
      match PeelChain(w, oid, MaxPeelDepth)
      case Peeled(target) => PeelIs(Some(target))
      case NotPeelable => PeelIs(None)
      case Overrun => PeelIs(None)
      case Failed => PeelError
  }

  class Store {
    const w: World
    var refDeltaCache: map<Oid, Option<Place>>
    var peelCache: map<Oid, Option<Oid>>

    /** Every cached entry is the answer a fresh look-up gives, and no overrun or error is among them. */
    ghost predicate Valid()
      reads this
    {
      && (forall id :: id in refDeltaCache ==> refDeltaCache[id] == w.lookup(id))
      && (forall oid :: oid in peelCache ==>
            && (PeelChain(w, oid, MaxPeelDepth).Peeled? || PeelChain(w, oid, MaxPeelDepth).NotPeelable?)
            && PeelIs(peelCache[oid]) == Uncached(w, PeelCall(oid)))
    }

    constructor (w: World)
      ensures Valid() && this.w == w
    {
      this.w, refDeltaCache, peelCache := w, map[], map[];
    }

    /** lookupRefDeltaBase: hits and misses are both remembered. */
    method LookupRefDeltaBase(id: Oid) returns (p: Option<Place>)
      requires Valid()
      modifies this
      ensures Valid() && p == w.lookup(id) && peelCache == old(peelCache)
    {
      if id in refDeltaCache {
        return refDeltaCache[id];
      }
      p := w.lookup(id);
      refDeltaCache := refDeltaCache[id := p];
    }

    /** walkPackChain. */
    method WalkPackChain(oid: Oid, p: Place) returns (r: InfoResult)
      requires Valid()
      modifies this
      ensures Valid() && r == ChainInfo(w, oid, p) && peelCache == old(peelCache)
    {
      hide Resolve;
      if !w.intact(oid, p) {
        return Corrupt;
      }
      var cur := p;
      var size: Option<int> := None;
      for i := 0 to MaxChainDepth
        invariant Valid() && peelCache == old(peelCache)
        invariant i == 0 ==> cur == p && size == None
        invariant i > 0 ==> size.Some? && size == HeadSize(w, p)
        invariant Resolve(w, p, MaxChainDepth) == Resolve(w, cur, MaxChainDepth - i)
      {
        var hdr := w.header(cur);
        ResolveStep(w, cur, MaxChainDepth - i);
        if hdr.Unreadable? {
          return Corrupt;
        }
        if size == None {
          size := match hdr
            case Whole(_, s) => Some(s)
            case OfsDelta(_, target) => target
            case RefDelta(_, target) => target
            case _ => Some(0);
          if size == None {
            return Corrupt;
          }
        }
        match hdr {
          case OfsDelta(base, _) => cur := Place(cur.pack, base);
          case RefDelta(id, _) =>
            var base := LookupRefDeltaBase(id);
            if base == None {
              return Corrupt;
            }
            cur := base.value;
          case Whole(kind, _) => return Info(kind, size.value);
          case _ => return Corrupt;
        }
      }
      ResolveStep(w, cur, 0);
      return Corrupt;
    }

    /** peelChain. */
    method PeelTags(oid: Oid) returns (r: Peel)
      ensures r == PeelChain(w, oid, 16)
    {
      hide ParseTag;
      var cur := oid;
      for d := 0 to MaxPeelDepth
        invariant PeelChain(w, oid, MaxPeelDepth) == PeelChain(w, cur, MaxPeelDepth - d)
      {
        match w.loose(cur) {
          case ReadFails => return Failed;
          case NotLoose => return NotPeelable;
          case NotTag => return NotPeelable;
          case Tag(body) =>
            var tag := ParseTag(body, w.hexLen);
            if tag == None {
              return Failed;
            }
            if tag.value.kind != "tag" {
              return Peeled(tag.value.target);
            }
            cur := tag.value.target;
        }
      }
      return Overrun;
    }

    /** Peel: overruns and errors leave the cache as it was. */
    method Peel(oid: Oid) returns (r: Answer)
      requires Valid()
      modifies this
      ensures Valid() && r == Uncached(w, PeelCall(oid)) && refDeltaCache == old(refDeltaCache)
      ensures PeelChain(w, oid, 16).Overrun? || r == PeelError ==> peelCache == old(peelCache)
      ensures forall o :: o != oid ==> (o in peelCache <==> o in old(peelCache))
    {
      hide PeelChain;
      if oid in peelCache {
        return PeelIs(peelCache[oid]);
      }
      var chain := PeelTags(oid);
      match chain {
        case Overrun => return PeelIs(None);
        case Failed => return PeelError;
        case Peeled(target) =>
          peelCache := peelCache[oid := Some(target)];
          return PeelIs(Some(target));
        case NotPeelable =>
          peelCache := peelCache[oid := None];
          return PeelIs(None);
      }
    }

    /** Over any sequence of calls, each answer is the one a store without caches would give. */
    method Replay(calls: seq<Call>) returns (answers: seq<Answer>)
      requires Valid()
      modifies this
      ensures Valid() && |answers| == |calls|
      ensures forall i :: 0 <= i < |calls| ==> answers[i] == Uncached(w, calls[i])
    {
      hide Uncached;
      answers := [];
      for i := 0 to |calls|
        invariant Valid() && |answers| == i
        invariant forall k :: 0 <= k < i ==> answers[k] == Uncached(w, calls[k])
      {
        match calls[i] {
          case Walk(oid, p) =>
            var info := WalkPackChain(oid, p);
            assert Uncached(w, calls[i]) == InfoIs(info) by { WalkUncached(w, oid, p); }
            answers := answers + [InfoIs(info)];
          case PeelCall(oid) =>
            var peel := Peel(oid);
            answers := answers + [peel];
        }
      }
    }
  }

  lemma WalkUncached(w: World, oid: Oid, p: Place)
    ensures Uncached(w, Walk(oid, p)) == InfoIs(ChainInfo(w, oid, p))
  {
  }

  lemma ResolveStep(w: World, p: Place, n: nat)
    ensures n == 0 ==> Resolve(w, p, n).Runs?
    ensures n > 0 ==> match w.header(p)
      case Whole(kind, _) => Resolve(w, p, n) == Ends(kind)
      case OfsDelta(base, _) => Resolve(w, p, n) == Resolve(w, Place(p.pack, base), n - 1)
      case RefDelta(id, _) =>
        if w.lookup(id).Some? then Resolve(w, p, n) == Resolve(w, w.lookup(id).value, n - 1)
        else Resolve(w, p, n).Fails?
      case _ => Resolve(w, p, n).Fails?
  {
  }
}
