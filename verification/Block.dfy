/** Reftable blocks: the header, the restart table at the tail, and the records between. */
module Block {
  import opened Bytes
  import opened RecordKey

  const TypeRef: byte := 0x72
  const TypeIndex: byte := 0x69
  const TypeObj: byte := 0x6f
  const TypeLog: byte := 0x67

  /** bytes runs from the start of the caller's frame to blockLen; restarts are in that frame less firstByteOffset. */
  datatype Block = Block(blockType: byte, blockLen: nat, restartCount: nat, bytes: bytes, firstByteOffset: nat,
                         tableStart: nat)

  datatype BlockResult = Parsed(block: Block) | BlockError(error: Error)

  /** The largest file whose positions, rounded up to any block size, stay inside uint32. */
  const MaxFile := U32 - 0x100_0000

  /** The i-th uint24 of the table that begins at offset table. */
  function Entry(b: bytes, table: nat, i: nat): nat
    requires table + 3 * i + 3 <= |b|
  {
    Be24(b, table + 3 * i)
  }

  predicate RestartsAboveFrame(b: bytes, tableStart: nat, n: nat, firstByteOffset: nat)
    requires tableStart + 3 * n <= |b|
  {
    forall i :: 0 <= i < n ==> Entry(b, tableStart, i) >= firstByteOffset
  }

  function ParseBlock(buf: bytes, firstByteOffset: nat): (r: BlockResult)
    ensures r.Parsed? ==> ValidBlock(r.block) && r.block.blockLen <= |buf| && r.block.bytes == buf[..r.block.blockLen]
    ensures r.Parsed? ==> r.block.firstByteOffset == firstByteOffset && firstByteOffset < |buf|
    ensures r.Parsed? ==> r.block.blockType == buf[firstByteOffset]
    ensures r.Parsed? ==> r.block.blockType in {TypeRef, TypeIndex, TypeObj}
  {
    if |buf| < firstByteOffset + 4 then BlockError(TruncatedBlock)
    else
      var t := buf[firstByteOffset];
      if t == TypeLog then BlockError(LogBlockUnsupported)
      else if t !in {TypeRef, TypeIndex, TypeObj} then BlockError(BadBlockType)
      else
        var blockLen := Be24(buf, firstByteOffset + 1);
        if |buf| < blockLen || blockLen < firstByteOffset + 9 then BlockError(TruncatedBlock)
        else
          var b := buf[..blockLen];
          var count := Be16(b, blockLen - 2);
          if count == 0 || blockLen - 2 - 3 * count < firstByteOffset + 4 then BlockError(TruncatedBlock)
          else
            var tableStart := blockLen - 2 - 3 * count;
            if !RestartsAboveFrame(b, tableStart, count, firstByteOffset) then BlockError(TruncatedBlock)
            else Parsed(Block(t, blockLen, count, b, firstByteOffset, tableStart))
  }

  ghost predicate ValidBlock(b: Block) {
    && |b.bytes| == b.blockLen && b.restartCount >= 1
    && b.tableStart == b.blockLen - 2 - 3 * b.restartCount
    && b.firstByteOffset + 4 <= b.tableStart
    && forall i :: 0 <= i < b.restartCount ==> Entry(b.bytes, b.tableStart, i) >= b.firstByteOffset
  }

  /** Records occupy bytes[RecordsStart..RecordsEnd). */
  function RecordsStart(b: Block): nat {
    b.firstByteOffset + 4
  }

  function RecordsEnd(b: Block): (e: int) {
    b.blockLen - 2 - 3 * b.restartCount
  }

  function Restart(b: Block, i: nat): nat
    requires ValidBlock(b) && i < b.restartCount
  {
    Entry(b.bytes, b.tableStart, i) - b.firstByteOffset
  }

  /** A block's bytes parse to the block again once the rest of the file is cut off. */
  lemma ReparsesAlone(buf: bytes, firstByteOffset: nat)
    requires ParseBlock(buf, firstByteOffset).Parsed?
    ensures var b := ParseBlock(buf, firstByteOffset).block; ParseBlock(b.bytes, firstByteOffset) == Parsed(b)
  {
    var b := ParseBlock(buf, firstByteOffset).block;
    assert b.bytes[..b.blockLen] == b.bytes;
  }

  /** parseBlock, whose last loop reads the restart table entry by entry. */
  method ParseBlockBytes(buf: bytes, firstByteOffset: nat) returns (r: BlockResult)
    ensures r == ParseBlock(buf, firstByteOffset)
  {
    if |buf| < firstByteOffset + 4 {
      return BlockError(TruncatedBlock);
    }
    var blockType := buf[firstByteOffset];
    if blockType == TypeLog {
      return BlockError(LogBlockUnsupported);
    }
    if blockType != TypeRef && blockType != TypeIndex && blockType != TypeObj {
      return BlockError(BadBlockType);
    }
    var blockLen := Be24(buf, firstByteOffset + 1);
    if |buf| < blockLen {
      return BlockError(TruncatedBlock);
    }
    if blockLen < firstByteOffset + 9 {
      return BlockError(TruncatedBlock);
    }
    var b := buf[..blockLen];
    var count := Be16(b, blockLen - 2);
    if count == 0 {
      return BlockError(TruncatedBlock);
    }
    if blockLen - 2 - 3 * count < firstByteOffset + 4 {
      return BlockError(TruncatedBlock);
    }
    var tableStart := blockLen - 2 - 3 * count;
    for i := 0 to count
      invariant RestartsAboveFrame(b, tableStart, i, firstByteOffset)
    {
      if Entry(b, tableStart, i) < firstByteOffset {
        return BlockError(TruncatedBlock);
      }
    }
    return Parsed(Block(blockType, blockLen, count, b, firstByteOffset, tableStart));
  }

  // ---------------------------------------------------------------- encoding

  function EncodeTable(restarts: seq<nat>): (b: bytes)
    requires forall i :: 0 <= i < |restarts| ==> restarts[i] < 0x100_0000
    ensures |b| == 3 * |restarts|
  {
    if restarts == [] then [] else EncodeTable(restarts[..|restarts| - 1]) + PutBe24(restarts[|restarts| - 1])
  }

  /** A block as written: the frame's preamble (the file header, or nothing), then the block proper. */
  function EncodeBlock(preamble: bytes, blockType: byte, records: bytes, restarts: seq<nat>): (b: bytes)
    requires Encodable(preamble, records, restarts)
    ensures |b| == EncodedLen(preamble, records, restarts)
  {
    preamble + [blockType] + PutBe24(EncodedLen(preamble, records, restarts)) + records
      + EncodeTable(restarts) + PutBe16(|restarts|)
  }

  function EncodedLen(preamble: bytes, records: bytes, restarts: seq<nat>): nat {
    |preamble| + 4 + |records| + 3 * |restarts| + 2
  }

  predicate Encodable(preamble: bytes, records: bytes, restarts: seq<nat>) {
    && EncodedLen(preamble, records, restarts) < 0x100_0000
    && 1 <= |restarts| < 0x1_0000
    && forall i :: 0 <= i < |restarts| ==> |preamble| <= restarts[i] < 0x100_0000
  }

  lemma {:induction false} TableEntry(restarts: seq<nat>, i: nat)
    requires forall k :: 0 <= k < |restarts| ==> restarts[k] < 0x100_0000
    requires i < |restarts|
    ensures Entry(EncodeTable(restarts), 0, i) == restarts[i]
  {
    var n := |restarts| - 1;
    var table, last := EncodeTable(restarts[..n]), PutBe24(restarts[n]);
    assert EncodeTable(restarts) == table + last;
    if i < n {
      TableEntry(restarts[..n], i);
    } else {
      assert EncodeTable(restarts)[3 * i] == last[0];
    }
  }

  lemma Be24Within(b: bytes, from: nat, part: bytes, at: nat)
    requires from + |part| <= |b| && b[from..from + |part|] == part && at + 3 <= |part|
    ensures Be24(b, from + at) == Be24(part, at)
  {
    var w := b[from..from + |part|];
    assert b[from + at] == w[at] && b[from + at + 1] == w[at + 1] && b[from + at + 2] == w[at + 2];
  }

  lemma Be16Within(b: bytes, at: nat, part: bytes)
    requires at + 2 <= |b| && |part| == 2 && b[at..at + 2] == part
    ensures Be16(b, at) == Be16(part, 0)
  {
    assert b[at] == b[at..at + 2][0] && b[at + 1] == b[at..at + 2][1];
  }

  lemma {:induction false} TableWithin(b: bytes, from: nat, restarts: seq<nat>)
    requires forall k :: 0 <= k < |restarts| ==> restarts[k] < 0x100_0000
    requires from + 3 * |restarts| <= |b| && b[from..from + 3 * |restarts|] == EncodeTable(restarts)
    ensures forall i :: 0 <= i < |restarts| ==> Entry(b, from, i) == restarts[i]
  {
    forall i | 0 <= i < |restarts|
      ensures Entry(b, from, i) == restarts[i]
    {
      TableEntry(restarts, i);
      Be24Within(b, from, EncodeTable(restarts), 3 * i);
    }
  }

  /** Where six concatenated pieces land. */
  lemma Pieces(p: bytes, t: bytes, len: bytes, records: bytes, table: bytes, count: bytes)
    requires |t| == 1 && |len| == 3 && |count| == 2
    ensures var code := p + t + len + records + table + count;
      && code[|p|] == t[0]
      && code[|p| + 1..|p| + 4] == len
      && code[|p| + 4..|p| + 4 + |records|] == records
      && code[|p| + 4 + |records|..|code| - 2] == table
      && code[|code| - 2..|code|] == count
  {
  }

  lemma PiecesBeforeTail(p: bytes, t: bytes, len: bytes, code: bytes, tail: bytes)
    requires p + t + len <= code && |t| == 1 && |len| == 3
    ensures var buf := code + tail;
      buf[..|code|] == code && buf[|p|] == t[0] && buf[|p| + 1..|p| + 4] == len
  {
    assert code[..|p| + 4] == p + t + len;
    assert (code + tail)[|p| + 1..|p| + 4] == code[..|p| + 4][|p| + 1..];
    assert (code + tail)[|p|] == code[..|p| + 4][|p|];
  }

  /** What parseBlock makes of a buffer whose fields are already known. */
  lemma BlockFromFields(buf: bytes, p: nat, t: byte, n: nat, count: nat)
    requires p + 9 <= n <= |buf| && buf[p] == t && t in {TypeRef, TypeIndex, TypeObj}
    requires Be24(buf, p + 1) == n && Be16(buf[..n], n - 2) == count && count >= 1
    requires n - 2 - 3 * count >= p + 4
    requires RestartsAboveFrame(buf[..n], n - 2 - 3 * count, count, p)
    ensures ParseBlock(buf, p) == Parsed(Block(t, n, count, buf[..n], p, n - 2 - 3 * count))
  {
  }

  /** The parsed form of an encoded block. */
  function Written(preamble: bytes, blockType: byte, records: bytes, restarts: seq<nat>): Block
    requires Encodable(preamble, records, restarts)
  {
    var n := EncodedLen(preamble, records, restarts);
    var code := EncodeBlock(preamble, blockType, records, restarts);
    Block(blockType, n, |restarts|, code, |preamble|, n - 2 - 3 * |restarts|)
  }

  /** What was written: the record region byte for byte, and each restart as given. */
  lemma WrittenFields(preamble: bytes, blockType: byte, records: bytes, restarts: seq<nat>)
    requires Encodable(preamble, records, restarts)
    ensures var b := Written(preamble, blockType, records, restarts);
      && b.bytes[RecordsStart(b)..RecordsEnd(b)] == records
      && Be16(b.bytes, b.blockLen - 2) == |restarts|
      && RestartsAboveFrame(b.bytes, b.tableStart, |restarts|, |preamble|)
      && (forall i :: 0 <= i < |restarts| ==> Entry(b.bytes, b.tableStart, i) == restarts[i])
  {
    var n := EncodedLen(preamble, records, restarts);
    var b := Written(preamble, blockType, records, restarts);
    Pieces(preamble, [blockType], PutBe24(n), records, EncodeTable(restarts), PutBe16(|restarts|));
    Be16Within(b.bytes, n - 2, PutBe16(|restarts|));
    assert b.tableStart == |preamble| + 4 + |records|;
    TableWithin(b.bytes, b.tableStart, restarts);
  }

  /** parseBlock reads an encoded block back, whatever follows it. */
  lemma BlockRoundTrip(preamble: bytes, blockType: byte, records: bytes, restarts: seq<nat>, tail: bytes)
    requires Encodable(preamble, records, restarts) && blockType in {TypeRef, TypeIndex, TypeObj}
    ensures ParseBlock(EncodeBlock(preamble, blockType, records, restarts) + tail, |preamble|)
         == Parsed(Written(preamble, blockType, records, restarts))
  {
    var n, p := EncodedLen(preamble, records, restarts), |preamble|;
    var code := EncodeBlock(preamble, blockType, records, restarts);
    var buf := code + tail;
    assert buf[..n] == code;
    WrittenFields(preamble, blockType, records, restarts);
    PiecesBeforeTail(preamble, [blockType], PutBe24(n), buf[..n], tail);
    Be24Within(buf, p + 1, PutBe24(n), 0);
    BlockFromFields(buf, p, blockType, n, |restarts|);
  }

  // ---------------------------------------------------------------- exactly the written blocks

  lemma Put24(b: bytes, at: nat)
    requires at + 3 <= |b|
    ensures PutBe24(Be24(b, at)) == b[at..at + 3]
  {
  }

  lemma Put16(b: bytes, at: nat)
    requires at + 2 <= |b|
    ensures PutBe16(Be16(b, at)) == b[at..at + 2]
  {
  }

  /** The n entries of the table at offset at. */
  ghost function TableEntries(b: bytes, at: nat, n: nat): (restarts: seq<nat>)
    requires at + 3 * n <= |b|
    ensures |restarts| == n && forall i :: 0 <= i < n ==> restarts[i] == Entry(b, at, i) < 0x100_0000
  {
    seq(n, i requires 0 <= i < n => Entry(b, at, i))
  }

  lemma {:induction false} TableIsEntries(b: bytes, at: nat, n: nat)
    requires at + 3 * n <= |b|
    ensures EncodeTable(TableEntries(b, at, n)) == b[at..at + 3 * n]
  {
    hide Be24, PutBe24;
    if n > 0 {
      TableIsEntries(b, at, n - 1);
      Put24(b, at + 3 * (n - 1));
      assert TableEntries(b, at, n)[..n - 1] == TableEntries(b, at, n - 1);
    }
  }

  /** The pieces of a parsed block, put together again. */
  lemma ParsedPieces(buf: bytes, p: nat, b: Block)
    requires ParseBlock(buf, p) == Parsed(b)
    ensures p + 4 <= b.tableStart && b.tableStart + 3 * b.restartCount + 2 == b.blockLen == |b.bytes| <= |buf|
    ensures b.bytes == buf[..b.blockLen] && 1 <= b.restartCount < 0x1_0000 && b.blockLen < 0x100_0000
    ensures buf[p + 1..p + 4] == PutBe24(b.blockLen) && b.bytes[b.blockLen - 2..] == PutBe16(b.restartCount)
    ensures b.bytes == buf[..p] + [b.blockType] + buf[p + 1..p + 4] + buf[p + 4..b.tableStart]
                       + b.bytes[b.tableStart..b.blockLen - 2] + b.bytes[b.blockLen - 2..]
  {
    hide Be24, Be16, PutBe24, PutBe16, Entry;
    Put24(buf, p + 1);
    Put16(b.bytes, b.blockLen - 2);
  }

  /** Whatever parses is some block as written, followed by anything. */
  lemma {:induction false} ParsedIsWritten(buf: bytes, firstByteOffset: nat)
    returns (records: bytes, restarts: seq<nat>)
    requires ParseBlock(buf, firstByteOffset).Parsed?
    ensures Encodable(buf[..firstByteOffset], records, restarts)
    ensures var b := ParseBlock(buf, firstByteOffset).block;
      && EncodeBlock(buf[..firstByteOffset], b.blockType, records, restarts) <= buf
      && b == Written(buf[..firstByteOffset], b.blockType, records, restarts)
  {
    var b := ParseBlock(buf, firstByteOffset).block;
    hide ParseBlock, Entry, PutBe24, PutBe16, EncodeTable, EncodeBlock;
    var p, n, at := firstByteOffset, b.blockLen, b.tableStart;
    ParsedPieces(buf, p, b);
    records, restarts := buf[p + 4..at], TableEntries(b.bytes, at, b.restartCount);
    TableIsEntries(b.bytes, at, b.restartCount);
    assert EncodedLen(buf[..p], records, restarts) == n;
    EncodedPieces(buf[..p], b.blockType, records, restarts);
  }

  lemma EncodedPieces(preamble: bytes, blockType: byte, records: bytes, restarts: seq<nat>)
    requires Encodable(preamble, records, restarts)
    ensures EncodeBlock(preamble, blockType, records, restarts) ==
      preamble + [blockType] + PutBe24(EncodedLen(preamble, records, restarts)) + records
      + EncodeTable(restarts) + PutBe16(|restarts|)
  {
  }

  /** The three block types, and what is refused: a log block, any other type, and all that does not fit. */
  lemma BlockRefuses(buf: bytes, firstByteOffset: nat)
    ensures |buf| < firstByteOffset + 4 ==> ParseBlock(buf, firstByteOffset) == BlockError(TruncatedBlock)
    ensures |buf| >= firstByteOffset + 4 && buf[firstByteOffset] == 0x67 ==>
      ParseBlock(buf, firstByteOffset) == BlockError(LogBlockUnsupported)
    ensures |buf| >= firstByteOffset + 4 && buf[firstByteOffset] !in {0x67, 0x69, 0x6f, 0x72} ==>
      ParseBlock(buf, firstByteOffset) == BlockError(BadBlockType)
    ensures |buf| >= firstByteOffset + 4 && buf[firstByteOffset] in {0x69, 0x6f, 0x72} ==>
      ParseBlock(buf, firstByteOffset).Parsed? || ParseBlock(buf, firstByteOffset) == BlockError(TruncatedBlock)
  {
  }

  /** A ref block of no records and an index block, to the letter. */
  lemma BlockLetters()
    ensures EncodeBlock([], TypeRef, [1, 2], [4]) == [0x72, 0, 0, 11, 1, 2, 0, 0, 4, 0, 1]
    ensures TypeRef == 0x72 && TypeIndex == 0x69 && TypeObj == 0x6f
  {
    assert EncodeTable([4]) == [0, 0, 4] by { assert [4][..0] == []; }
  }
}
