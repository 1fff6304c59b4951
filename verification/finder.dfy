/**
 * `find_block`: walks a `blk*.dat` file record by record, numbering the
 * records 0, 1, 2, ... as it goes, and stops at the record whose number is
 * the requested height.
 *
 * A record is the 8-byte framing unit (magic bytes, little-endian size)
 * followed by a block of `size` bytes. The scan reverses the file once and
 * then pops each record off the tail of the vector.
 */
module Finder {
  import opened Errors
  import opened Hex
  import opened Cursor
  import opened Constants
  import opened Types

  /** What `find_block` hands to `log` when it finds the block. */
  datatype Found = Found(info: BlockInfo, block: Block)

  /**
   * The body of the scan loop on a byte stack, numbering the record
   * `blockHeight`: decode the framing unit, reject a non-mainnet magic, then
   * decode the block of the announced size. The block is decoded whatever
   * the record's number, so the stack is left at the next record.
   */
  function DecodeRecord(stack: seq<Byte>, blockHeight: nat): (d: Decoded<Found>)
    ensures d.result.Ok? ==> d.result.value.info.height == blockHeight
    ensures d.result.Ok? ==> d.result.value.info.magicBytes == MAINNET_MAGIC
    ensures d.result.Ok? ==>
              var size := SizeAsU32(d.result.value.info);
              && BLOCK_HEADER + TX_COUNT <= size
              && MAGIC_BYTES + BLOCK_SIZE + size <= |stack|
              && d.rest == stack[..|stack| - (MAGIC_BYTES + BLOCK_SIZE + size)]
    ensures |stack| < MAGIC_BYTES + BLOCK_SIZE ==> d.result.Err? && d.result.error.InsufficientData?
  {
    var blockInfo := DecodeBlockInfo(stack, blockHeight);
    if blockInfo.result.Err? then Propagate(blockInfo) else
    var info := blockInfo.result.value;
    var valid := ValidateNetwork(info);
    if valid.Err? then Decoded(Err(valid.error), blockInfo.rest) else
    var block := DecodeBlock(blockInfo.rest, SizeAsU32(info));
    if block.result.Err? then Propagate(block) else
    assert block.rest == stack[..|stack| - (MAGIC_BYTES + BLOCK_SIZE + SizeAsU32(info))] by {
      SliceOfPrefix(stack, |stack| - (MAGIC_BYTES + BLOCK_SIZE + SizeAsU32(info)), |stack| - 8);
    }
    Decoded(Ok(Found(info, block.result.value)), block.rest)
  }

  /**
   * The scan on a byte stack, numbering the next record `blockHeight`: the
   * outcome and the stack left behind. An empty stack ends the scan with
   * "failed to find block"; a record that does not decode, or carries
   * non-mainnet magic, ends it with that error; a record whose number is
   * not `height` is passed over and the next one is numbered one higher.
   */
  function Scan(stack: seq<Byte>, height: nat, blockHeight: nat): (d: Decoded<Found>)
    ensures d.result.Ok? ==> d.result.value.info.height == height && blockHeight <= height
    ensures d.result.Ok? ==> d.result.value.info.magicBytes == MAINNET_MAGIC
    ensures d.result.Ok? ==> |d.rest| < |stack|
    ensures stack == [] ==> d == Decoded(Err(BlockNotFound), [])
    decreases |stack|
  {
    if stack == [] then Decoded(Err(BlockNotFound), [])
    else
      var record := DecodeRecord(stack, blockHeight);
      if record.result.Err? then record
      else if record.result.value.info.height == height then record
      else Scan(record.rest, height, blockHeight + 1)
  }

  /** `find_block`, leaving in `rawBytes` what it has not popped. */
  method FindBlock(rawBytes: ByteVec, height: nat) returns (r: Result<Found>)
    modifies rawBytes
    ensures Decoded(r, rawBytes.bytes) == Scan(Reversed(old(rawBytes.bytes)), height, 0)
  {
    rawBytes.Reverse();
    var blockHeight: nat := 0;
    while !rawBytes.IsEmpty()
      invariant Scan(rawBytes.bytes, height, blockHeight) == Scan(Reversed(old(rawBytes.bytes)), height, 0)
      decreases |rawBytes.bytes|
    {
      ghost var stack := rawBytes.bytes;
      var blockInfo :- BlockInfoFromRawBytes(rawBytes, blockHeight);
      var valid := ValidateNetwork(blockInfo);
      if valid.Err? {
        return Err(valid.error);
      }
      var block :- BlockFromRawBytes(rawBytes, SizeAsU32(blockInfo));
      assert DecodeRecord(stack, blockHeight) == Decoded(Ok(Found(blockInfo, block)), rawBytes.bytes);
      if blockInfo.height == height {
        return Ok(Found(blockInfo, block));
      }
      blockHeight := blockHeight + 1;
    }
    return Err(BlockNotFound);
  }

  // ---------------------------------------------------------------------
  // Files made of well-formed mainnet records
  // ---------------------------------------------------------------------

  /** A block as stored: 80 header bytes, the tx-count bytes and the transactions. */
  datatype Record = Record(header: seq<Byte>, txCount: Bytes4, txData: seq<Byte>)

  /** The header is 80 bytes and the block size fits the `u32` size field. */
  predicate WellFormed(rec: Record)
  {
    |rec.header| == BLOCK_HEADER && BLOCK_HEADER + TX_COUNT + |rec.txData| < U32_LIMIT
  }

  predicate AllWellFormed(recs: seq<Record>)
  {
    forall i :: 0 <= i < |recs| ==> WellFormed(recs[i])
  }

  /** The number of bytes the size field announces. */
  function RecordSize(rec: Record): (n: U32)
    requires WellFormed(rec)
    ensures n == BLOCK_HEADER + TX_COUNT + |rec.txData|
  {
    BLOCK_HEADER + TX_COUNT + |rec.txData|
  }

  /** A record on disk: mainnet magic, the size little-endian, then the block. */
  function RecordBytes(rec: Record): (bs: seq<Byte>)
    requires WellFormed(rec)
    ensures |bs| == MAGIC_BYTES + BLOCK_SIZE + RecordSize(rec)
  {
    MAINNET_MAGIC + LeBytes(RecordSize(rec)) + rec.header + rec.txCount + rec.txData
  }

  /** A file holding `recs` back to back. */
  function FileOf(recs: seq<Record>): seq<Byte>
    requires AllWellFormed(recs)
  {
    if recs == [] then [] else RecordBytes(recs[0]) + FileOf(recs[1..])
  }

  /** What the scan reports for record `rec` numbered `h`. */
  function ExpectedFound(rec: Record, h: nat): Found
    requires WellFormed(rec)
  {
    Found(BlockInfo(h, MAINNET_MAGIC, LeBytes(RecordSize(rec))),
          Block(HeaderAsWritten(rec.header), rec.txCount, rec.txData))
  }

  /** The framing unit of a record decodes to mainnet magic and the record's size. */
  lemma RecordInfo(rec: Record, tail: seq<Byte>, b: nat)
    requires WellFormed(rec)
    ensures var file := RecordBytes(rec) + tail;
            DecodeBlockInfo(Reversed(file), b)
            == Decoded(Ok(BlockInfo(b, MAINNET_MAGIC, LeBytes(RecordSize(rec)))), Reversed(file[8..]))
  {
    var file := RecordBytes(rec) + tail;
    BlockInfoFromFile(file, b);
    assert file[..4] == MAINNET_MAGIC;
    assert file[4..8] == LeBytes(RecordSize(rec));
  }

  /** The block of a record decodes to its header (as written), tx count and tx data. */
  lemma RecordBlock(rec: Record, tail: seq<Byte>)
    requires WellFormed(rec)
    ensures var body := (RecordBytes(rec) + tail)[8..];
            DecodeBlock(Reversed(body), RecordSize(rec))
            == Decoded(Ok(Block(HeaderAsWritten(rec.header), rec.txCount, rec.txData)), Reversed(tail))
  {
    var body := (RecordBytes(rec) + tail)[8..];
    var size := RecordSize(rec);
    assert body[..80] == rec.header && body[80..84] == rec.txCount
        && body[84..size] == rec.txData && body[size..] == tail by {
      assert body == rec.header + rec.txCount + rec.txData + tail;
    }
    BlockFromFile(body, size);
  }

  /** A well-formed record at the head of a file decodes to what it holds, numbered `b`. */
  lemma RecordDecodes(rec: Record, tail: seq<Byte>, b: nat)
    requires WellFormed(rec)
    ensures DecodeRecord(Reversed(RecordBytes(rec) + tail), b) == Decoded(Ok(ExpectedFound(rec, b)), Reversed(tail))
  {
    RecordBlock(rec, tail);
    RecordInfo(rec, tail, b);
    var info := BlockInfo(b, MAINNET_MAGIC, LeBytes(RecordSize(rec)));
    assert SizeAsU32(info) == RecordSize(rec);
  }

  /** One step of the scan over a well-formed record. */
  lemma ScanStep(rec: Record, tail: seq<Byte>, h: nat, b: nat)
    requires WellFormed(rec)
    ensures Scan(Reversed(RecordBytes(rec) + tail), h, b)
         == if b == h then Decoded(Ok(ExpectedFound(rec, h)), Reversed(tail)) else Scan(Reversed(tail), h, b + 1)
  {
    var stack := Reversed(RecordBytes(rec) + tail);
    assert stack != [] by {
      assert |stack| == |RecordBytes(rec) + tail| > 0;
    }
    var record := DecodeRecord(stack, b);
    assert Scan(stack, h, b) == if b == h then record else Scan(record.rest, h, b + 1) by {
      RecordDecodes(rec, tail, b);
    }
    RecordDecodes(rec, tail, b);
  }

  /**
   * Scanning records numbered from `b` and then `tail`, for a height that is
   * not among them: the scan passes every record and goes on into `tail`,
   * numbering its first record `end`.
   */
  lemma {:induction false} ScanPastRecords(recs: seq<Record>, tail: seq<Byte>, h: nat, b: nat, end: nat)
    requires AllWellFormed(recs)
    requires end == b + |recs| && !(b <= h < end)
    ensures Scan(Reversed(FileOf(recs) + tail), h, b) == Scan(Reversed(tail), h, end)
  {
    if recs == [] {
      assert FileOf(recs) + tail == tail;
    } else {
      WellFormedTail(recs);
      ScanPastRecords(recs[1..], tail, h, b + 1, end);
      ScanPastFirst(recs, tail, h, b);
    }
  }

  /** The first record of a file, when it is not the one sought. */
  lemma ScanPastFirst(recs: seq<Record>, tail: seq<Byte>, h: nat, b: nat)
    requires AllWellFormed(recs) && recs != [] && h != b
    ensures Scan(Reversed(FileOf(recs) + tail), h, b) == Scan(Reversed(FileOf(recs[1..]) + tail), h, b + 1)
  {
    FileOfCons(recs, tail);
    ScanStep(recs[0], FileOf(recs[1..]) + tail, h, b);
  }

  /**
   * Scanning records numbered from `b` and then `tail`, for a height among
   * them: the scan reports record `h - b` and stops right after it.
   */
  lemma {:induction false} ScanFindsRecord(recs: seq<Record>, tail: seq<Byte>, h: nat, b: nat)
    requires AllWellFormed(recs)
    requires b <= h < b + |recs|
    ensures Scan(Reversed(FileOf(recs) + tail), h, b)
         == Decoded(Ok(ExpectedFound(recs[h - b], h)), Reversed(FileOf(recs[h - b + 1..]) + tail))
  {
    var rest := FileOf(recs[1..]) + tail;
    assert Scan(Reversed(FileOf(recs) + tail), h, b)
        == if b == h then Decoded(Ok(ExpectedFound(recs[0], h)), Reversed(rest)) else Scan(Reversed(rest), h, b + 1) by {
      FileOfCons(recs, tail);
      ScanStep(recs[0], rest, h, b);
    }
    if b == h {
      assert recs[1..] == recs[h - b + 1..];
    } else {
      WellFormedTail(recs);
      ScanFindsRecord(recs[1..], tail, h, b + 1);
      assert recs[1..][h - (b + 1)] == recs[h - b];
      assert recs[1..][h - (b + 1) + 1..] == recs[h - b + 1..];
    }
  }

  lemma FileOfCons(recs: seq<Record>, tail: seq<Byte>)
    requires AllWellFormed(recs) && recs != []
    ensures FileOf(recs) + tail == RecordBytes(recs[0]) + (FileOf(recs[1..]) + tail)
  {
  }

  lemma WellFormedTail(recs: seq<Record>)
    requires AllWellFormed(recs) && recs != []
    ensures AllWellFormed(recs[1..])
  {
    forall i | 0 <= i < |recs[1..]|
      ensures WellFormed(recs[1..][i])
    {
      assert recs[1..][i] == recs[i + 1];
    }
  }

  /**
   * `find_block` on a file of well-formed mainnet records: height `h` is the
   * `h`-th record (counting from 0), and a height past the last record is
   * "failed to find block".
   */
  lemma FindBlockInFile(recs: seq<Record>, h: nat)
    requires AllWellFormed(recs)
    ensures h < |recs| ==> Scan(Reversed(FileOf(recs)), h, 0).result == Ok(ExpectedFound(recs[h], h))
    ensures h >= |recs| ==> Scan(Reversed(FileOf(recs)), h, 0) == Decoded(Err(BlockNotFound), [])
  {
    assert FileOf(recs) + [] == FileOf(recs);
    if h < |recs| {
      ScanFindsRecord(recs, [], h, 0);
    } else {
      ScanPastRecords(recs, [], h, 0, |recs|);
    }
  }

  /** A record whose magic is not mainnet's stops the scan, whatever height is sought. */
  lemma NetworkMismatchAborts(file: seq<Byte>, h: nat, b: nat)
    requires |file| >= MAGIC_BYTES + BLOCK_SIZE && file[..4] != MAINNET_MAGIC
    ensures Scan(Reversed(file), h, b) == Decoded(Err(NetworkValidationFailed), Reversed(file[8..]))
  {
    BlockInfoFromFile(file, b);
    assert Reversed(file) != [] by {
      assert |Reversed(file)| == |file| > 0;
    }
  }

  /**
   * Well-formed records followed by a cut-off framing unit: a height among
   * the records is still found, any other fails on the missing bytes
   * instead of reporting "failed to find block".
   */
  lemma TruncatedTail(recs: seq<Record>, tail: seq<Byte>, h: nat)
    requires AllWellFormed(recs) && 0 < |tail| < MAGIC_BYTES + BLOCK_SIZE
    ensures h < |recs| ==> Scan(Reversed(FileOf(recs) + tail), h, 0).result == Ok(ExpectedFound(recs[h], h))
    ensures h >= |recs| ==>
              Scan(Reversed(FileOf(recs) + tail), h, 0)
              == Decoded(Err(InsufficientData(if |tail| < MAGIC_BYTES then "magic_bytes" else "size")), [])
  {
    if h < |recs| {
      ScanFindsRecord(recs, tail, h, 0);
    } else {
      ScanPastRecords(recs, tail, h, 0, |recs|);
    }
  }

  /** The field whose bytes run out first in a block cut off after `left` bytes. */
  function ShortBlockField(left: nat): string
  {
    if left < BLOCK_HEADER then "block_header" else if left < BLOCK_HEADER + TX_COUNT then "tx_count" else "tx_data"
  }

  /**
   * A mainnet framing unit announcing at least 84 bytes, followed by fewer
   * bytes than it announces: the scan fails on the first field of the block
   * that runs short, whatever height is sought.
   */
  lemma ShortBlockAborts(file: seq<Byte>, h: nat, b: nat)
    requires MAGIC_BYTES + BLOCK_SIZE <= |file| && file[..4] == MAINNET_MAGIC
    requires BLOCK_HEADER + TX_COUNT <= Le32(file[4..8]) && |file| - 8 < Le32(file[4..8])
    ensures Scan(Reversed(file), h, b) == Decoded(Err(InsufficientData(ShortBlockField(|file| - 8))), [])
  {
    BlockInfoFromFile(file, b);
    assert |Reversed(file[8..])| < Le32(file[4..8]);
    assert Reversed(file) != [] by {
      assert |Reversed(file)| == |file| > 0;
    }
  }

  /**
   * Well-formed records followed by a record whose block is cut off inside
   * its header, its tx count or its tx data: a height among the records is
   * still found, any other fails on the field that runs short instead of
   * reporting "failed to find block".
   */
  lemma TruncatedBlock(recs: seq<Record>, tail: seq<Byte>, h: nat)
    requires AllWellFormed(recs)
    requires MAGIC_BYTES + BLOCK_SIZE <= |tail| && tail[..4] == MAINNET_MAGIC
    requires BLOCK_HEADER + TX_COUNT <= Le32(tail[4..8]) && |tail| - 8 < Le32(tail[4..8])
    ensures h < |recs| ==> Scan(Reversed(FileOf(recs) + tail), h, 0).result == Ok(ExpectedFound(recs[h], h))
    ensures h >= |recs| ==>
              Scan(Reversed(FileOf(recs) + tail), h, 0)
              == Decoded(Err(InsufficientData(ShortBlockField(|tail| - 8))), [])
  {
    if h < |recs| {
      ScanFindsRecord(recs, tail, h, 0);
    } else {
      ShortBlockAborts(tail, h, |recs|);
      ScanPastRecords(recs, tail, h, 0, |recs|);
    }
  }
}
