/**
 * The three record decoders of a `blk*.dat` reader and the accessors that
 * turn their raw bytes into numbers and hex text.
 *
 * Each decoder exists twice: as a function over the byte stack (the
 * `Vec<u8>` contents, next byte last) that gives the decoded value and the
 * stack left behind, and as a method that pops a `ByteVec` exactly as the
 * source does and is proved to agree with that function.
 */
module Types {
  import opened Errors
  import opened Hex
  import opened Cursor
  import opened Constants

  type Hash32 = s: seq<Byte> | |s| == 32 witness seq(32, i => 0)

  /** The framing unit before a block, with the ordinal the scanner gave it. */
  datatype BlockInfo = BlockInfo(height: nat, magicBytes: Bytes4, size: Bytes4)

  /** The six header fields, each holding its bytes in the order they were popped. */
  datatype BlockHeader = BlockHeader(
    version: Bytes4,
    previousBlockHeaderHash: Hash32,
    merkleRootHash: Hash32,
    unixEpochTime: Bytes4,
    target: Bytes4,
    nonce: Bytes4)

  datatype Block = Block(blockHeader: BlockHeader, txCount: Bytes4, txData: seq<Byte>)

  /** The bytes whose hex text is `MAINNET_HEX`. */
  const MAINNET_MAGIC: Bytes4 := [0xF9, 0xBE, 0xB4, 0xD9]

  // ---------------------------------------------------------------------
  // BlockInfo
  // ---------------------------------------------------------------------

  /** `BlockInfo::size_as_u32`: reverse the four size bytes, hex-encode, parse. */
  function SizeAsU32(info: BlockInfo): (n: U32)
    ensures n == Le32(info.size)
  {
    BigEndianOfReversed(info.size);
    ParseU32Hex(Reversed(info.size))
  }

  /** The size field round-trips: re-encoding the decoded size little-endian gives back its bytes. */
  lemma SizeRoundTrip(info: BlockInfo)
    ensures LeBytes(SizeAsU32(info)) == info.size
  {
    LeBytesOfLe32(info.size);
  }

  /** `BlockInfo::network_hex`: the magic bytes as hex, in stored order. */
  function NetworkHex(info: BlockInfo): (s: string)
    ensures |s| == 2 * MAGIC_BYTES
    ensures IsHexOf(s, info.magicBytes)
  {
    EncodeHexIsHexOf(info.magicBytes);
    EncodeHex(info.magicBytes)
  }

  lemma MainnetHexIsMagic()
    ensures IsHexOf(MAINNET_HEX, MAINNET_MAGIC)
  {
    assert MAINNET_HEX[0] == HexChar(0xF9 / 16) && MAINNET_HEX[1] == HexChar(0xF9 % 16);
    assert MAINNET_HEX[2] == HexChar(0xBE / 16) && MAINNET_HEX[3] == HexChar(0xBE % 16);
    assert MAINNET_HEX[4] == HexChar(0xB4 / 16) && MAINNET_HEX[5] == HexChar(0xB4 % 16);
    assert MAINNET_HEX[6] == HexChar(0xD9 / 16) && MAINNET_HEX[7] == HexChar(0xD9 % 16);
  }

  /** The hex text of four bytes is `"f9beb4d9"` exactly when they are `F9 BE B4 D9`. */
  lemma NetworkHexIsMainnet(m: Bytes4)
    ensures EncodeHex(m) == MAINNET_HEX <==> m == MAINNET_MAGIC
  {
    EncodeHexIsHexOf(m);
    MainnetHexIsMagic();
    if EncodeHex(m) == MAINNET_HEX {
      HexOfDeterminesBytes(MAINNET_HEX, m, MAINNET_MAGIC);
    }
    if m == MAINNET_MAGIC {
      HexOfDeterminesText(EncodeHex(m), MAINNET_HEX, m);
    }
  }

  /** `BlockInfo::validate_network`. */
  function ValidateNetwork(info: BlockInfo): (r: Result<()>)
    ensures r.Ok? <==> info.magicBytes == MAINNET_MAGIC
    ensures r.Err? ==> r.error == NetworkValidationFailed
  {
    NetworkHexIsMainnet(info.magicBytes);
    if NetworkHex(info) != MAINNET_HEX then Err(NetworkValidationFailed) else Ok(())
  }

  /** `BlockInfo::from_raw_bytes` on a stack: pops 4 magic bytes, then 4 size bytes. */
  function DecodeBlockInfo(stack: seq<Byte>, height: nat): (d: Decoded<BlockInfo>)
    ensures d.result.Ok? <==> |stack| >= MAGIC_BYTES + BLOCK_SIZE
    ensures d.result.Ok? ==> d.result.value.height == height && d.rest == stack[..|stack| - (MAGIC_BYTES + BLOCK_SIZE)]
    ensures d.result.Err? ==> d.rest == []
    ensures d.result.Err? ==> d.result.error == InsufficientData(if |stack| < MAGIC_BYTES then "magic_bytes" else "size")
  {
    var magicBytes := PopBytes(stack, MAGIC_BYTES, "magic_bytes");
    if magicBytes.result.Err? then Propagate(magicBytes) else
    var size := PopBytes(magicBytes.rest, BLOCK_SIZE, "size");
    if size.result.Err? then Propagate(size) else
    Decoded(Ok(BlockInfo(height, magicBytes.result.value, size.result.value)), size.rest)
  }

  /** On a reversed file: the magic bytes are `file[0..4]`, the size bytes `file[4..8]`, in file order. */
  lemma BlockInfoFromFile(file: seq<Byte>, height: nat)
    requires |file| >= MAGIC_BYTES + BLOCK_SIZE
    ensures DecodeBlockInfo(Reversed(file), height)
         == Decoded(Ok(BlockInfo(height, file[..4], file[4..8])), Reversed(file[8..]))
  {
    var magicBytes := PopBytes(Reversed(file), MAGIC_BYTES, "magic_bytes");
    assert magicBytes == Decoded(Ok(file[..4]), Reversed(file[4..])) by {
      PopFile(file, MAGIC_BYTES, "magic_bytes");
    }
    var size := PopBytes(magicBytes.rest, BLOCK_SIZE, "size");
    assert size == Decoded(Ok(file[4..8]), Reversed(file[8..])) by {
      PopFile(file[4..], BLOCK_SIZE, "size");
      SliceOfSuffix(file, 4, 8);
    }
  }

  /** `BlockInfo::from_raw_bytes`. */
  method BlockInfoFromRawBytes(rawBytes: ByteVec, height: nat) returns (r: Result<BlockInfo>)
    modifies rawBytes
    ensures Decoded(r, rawBytes.bytes) == DecodeBlockInfo(old(rawBytes.bytes), height)
  {
    var magicBytes :- rawBytes.PopN(MAGIC_BYTES, "magic_bytes");
    var size :- rawBytes.PopN(BLOCK_SIZE, "size");
    return Ok(BlockInfo(height, magicBytes, size));
  }

  // ---------------------------------------------------------------------
  // BlockHeader
  // ---------------------------------------------------------------------

  /**
   * `BlockHeader::from_raw_bytes` on a stack: pops 4, 32, 32, 4, 4 and 4
   * bytes into version, previous hash, merkle root, time, target and nonce.
   */
  function DecodeBlockHeader(raw: seq<Byte>): (d: Decoded<BlockHeader>)
    ensures d.result.Ok? <==> |raw| >= BLOCK_HEADER
    ensures d.result.Ok? ==> d.rest == raw[..|raw| - BLOCK_HEADER]
    ensures d.result.Err? ==> d.rest == [] && d.result.error.InsufficientData?
  {
    var version := PopBytes(raw, BLOCK_HEADER_VERSION, "version");
    if version.result.Err? then Propagate(version) else
    var previous := PopBytes(version.rest, PREVIOUS_BLOCK_HEADER_HASH, "previous hash");
    if previous.result.Err? then Propagate(previous) else
    var merkle := PopBytes(previous.rest, MERKLE_ROOT_HASH, "merkle hash");
    if merkle.result.Err? then Propagate(merkle) else
    var time := PopBytes(merkle.rest, UNIX_EPOCH_TIME, "unix epoch time");
    if time.result.Err? then Propagate(time) else
    var target := PopBytes(time.rest, TARGET, "target");
    if target.result.Err? then Propagate(target) else
    var nonce := PopBytes(target.rest, NONCE, "nonce");
    if nonce.result.Err? then Propagate(nonce) else
    assert nonce.rest == raw[..|raw| - BLOCK_HEADER] by {
      var n := |raw|;
      SliceOfPrefix(raw, n - 36, n - 4);
      SliceOfPrefix(raw, n - 68, n - 36);
      SliceOfPrefix(raw, n - 72, n - 68);
      SliceOfPrefix(raw, n - 76, n - 72);
      SliceOfPrefix(raw, n - 80, n - 76);
    }
    Decoded(Ok(BlockHeader(version.result.value, previous.result.value, merkle.result.value,
                           time.result.value, target.result.value, nonce.result.value)), nonce.rest)
  }

  /**
   * The fields `BlockHeader::from_raw_bytes` assigns when handed the 80
   * header bytes in stored order: it pops from the tail, so `version` holds
   * the LAST four bytes reversed and `nonce` the first four reversed.
   */
  function HeaderAsWritten(raw: seq<Byte>): BlockHeader
    requires |raw| == BLOCK_HEADER
  {
    BlockHeader(Reversed(raw[76..80]), Reversed(raw[44..76]), Reversed(raw[12..44]),
                Reversed(raw[8..12]), Reversed(raw[4..8]), Reversed(raw[..4]))
  }

  lemma DecodeHeaderAsWritten(raw: seq<Byte>)
    requires |raw| == BLOCK_HEADER
    ensures DecodeBlockHeader(raw) == Decoded(Ok(HeaderAsWritten(raw)), [])
  {
    var version := PopBytes(raw, 4, "version");
    assert version == Decoded(Ok(Reversed(raw[76..80])), raw[..76]) by {
      assert raw[76..] == raw[76..80];
    }
    var previous := PopBytes(version.rest, 32, "previous hash");
    assert previous == Decoded(Ok(Reversed(raw[44..76])), raw[..44]) by {
      SliceOfPrefix(raw, 44, 76);
    }
    var merkle := PopBytes(previous.rest, 32, "merkle hash");
    assert merkle == Decoded(Ok(Reversed(raw[12..44])), raw[..12]) by {
      SliceOfPrefix(raw, 12, 44);
    }
    var time := PopBytes(merkle.rest, 4, "unix epoch time");
    assert time == Decoded(Ok(Reversed(raw[8..12])), raw[..8]) by {
      SliceOfPrefix(raw, 8, 12);
    }
    var target := PopBytes(time.rest, 4, "target");
    assert target == Decoded(Ok(Reversed(raw[4..8])), raw[..4]) by {
      SliceOfPrefix(raw, 4, 8);
    }
    var nonce := PopBytes(target.rest, 4, "nonce");
    assert nonce == Decoded(Ok(Reversed(raw[..4])), []) by {
      SliceOfPrefix(raw, 0, 4);
    }
  }

  /**
   * `BlockHeader::from_raw_bytes`, run on the 80-byte vector its only caller
   * builds; every pop finds a byte.
   */
  method BlockHeaderFromRawBytes(rawBlockHeader: ByteVec) returns (header: BlockHeader)
    requires |rawBlockHeader.bytes| == BLOCK_HEADER
    modifies rawBlockHeader
    ensures Decoded(Ok(header), rawBlockHeader.bytes) == DecodeBlockHeader(old(rawBlockHeader.bytes))
  {
    var version := rawBlockHeader.PopN(BLOCK_HEADER_VERSION, "version");
    var previousBlockHeaderHash := rawBlockHeader.PopN(PREVIOUS_BLOCK_HEADER_HASH, "previous hash");
    var merkleRootHash := rawBlockHeader.PopN(MERKLE_ROOT_HASH, "merkle hash");
    var unixEpochTime := rawBlockHeader.PopN(UNIX_EPOCH_TIME, "unix epoch time");
    var target := rawBlockHeader.PopN(TARGET, "target");
    var nonce := rawBlockHeader.PopN(NONCE, "nonce");
    header := BlockHeader(version.value, previousBlockHeaderHash.value, merkleRootHash.value,
                          unixEpochTime.value, target.value, nonce.value);
  }

  /** `BlockHeader::version`: the four stored bytes read big-endian, no reversal. */
  function Version(header: BlockHeader): (n: U32)
    ensures n == Be32(header.version)
  {
    ParseU32Hex(header.version)
  }

  /** `BlockHeader::previous_block_header_hash`: 64 lowercase hex digits, stored order. */
  function PreviousBlockHeaderHash(header: BlockHeader): (s: string)
    ensures |s| == 64 && IsHexOf(s, header.previousBlockHeaderHash)
  {
    EncodeHexIsHexOf(header.previousBlockHeaderHash);
    EncodeHex(header.previousBlockHeaderHash)
  }

  /** `BlockHeader::merkle_root_hash`: 64 lowercase hex digits, stored order. */
  function MerkleRootHash(header: BlockHeader): (s: string)
    ensures |s| == 64 && IsHexOf(s, header.merkleRootHash)
  {
    EncodeHexIsHexOf(header.merkleRootHash);
    EncodeHex(header.merkleRootHash)
  }

  /** `BlockHeader::unix_epoch_time`: the four stored bytes read big-endian. */
  function UnixEpochTime(header: BlockHeader): (n: U32)
    ensures n == Be32(header.unixEpochTime)
  {
    ParseU32Hex(header.unixEpochTime)
  }

  /** `BlockHeader::target`: the four stored bytes read big-endian. */
  function Target(header: BlockHeader): (n: U32)
    ensures n == Be32(header.target)
  {
    ParseU32Hex(header.target)
  }

  /** `BlockHeader::nonce`: the four stored bytes read big-endian. */
  function Nonce(header: BlockHeader): (n: U32)
    ensures n == Be32(header.nonce)
  {
    ParseU32Hex(header.nonce)
  }

  /**
   * What the numeric accessors report for a header whose 80 bytes are `raw`
   * in file order: each reads a four-byte group of the file little-endian,
   * `version` the last group and `nonce` the first.
   */
  lemma HeaderValuesAsWritten(raw: seq<Byte>)
    requires |raw| == BLOCK_HEADER
    ensures Version(HeaderAsWritten(raw)) == Le32(raw[76..80])
    ensures UnixEpochTime(HeaderAsWritten(raw)) == Le32(raw[8..12])
    ensures Target(HeaderAsWritten(raw)) == Le32(raw[4..8])
    ensures Nonce(HeaderAsWritten(raw)) == Le32(raw[..4])
  {
    BigEndianOfReversed(raw[76..80]);
    BigEndianOfReversed(raw[8..12]);
    BigEndianOfReversed(raw[4..8]);
    BigEndianOfReversed(raw[..4]);
  }

  // ---------------------------------------------------------------------
  // Block
  // ---------------------------------------------------------------------

  /** `Block::tx_count`: the four stored bytes read big-endian, no reversal. */
  function TxCount(block: Block): (n: U32)
    ensures n == Be32(block.txCount)
  {
    ParseU32Hex(block.txCount)
  }

  /**
   * `Block::from_raw_bytes` on a stack: 80 header bytes (decoded as a header
   * of their own), 4 tx-count bytes, then `block_size - 84` tx-data bytes;
   * the subtraction is on `u32` and is checked only after the tx count.
   */
  function DecodeBlock(stack: seq<Byte>, blockSize: U32): (d: Decoded<Block>)
    ensures d.result.Ok? <==> BLOCK_HEADER + TX_COUNT <= blockSize <= |stack|
    ensures d.result.Ok? ==> d.rest == stack[..|stack| - blockSize]
    ensures d.result.Ok? ==> |d.result.value.txData| == blockSize - (BLOCK_HEADER + TX_COUNT)
    ensures |stack| < BLOCK_HEADER ==> d == Decoded(Err(InsufficientData("block_header")), [])
    ensures BLOCK_HEADER <= |stack| < BLOCK_HEADER + TX_COUNT ==> d == Decoded(Err(InsufficientData("tx_count")), [])
    ensures BLOCK_HEADER + TX_COUNT <= |stack| && blockSize < BLOCK_HEADER + TX_COUNT
            ==> d == Decoded(Err(SizeUnderflow), stack[..|stack| - (BLOCK_HEADER + TX_COUNT)])
    ensures BLOCK_HEADER + TX_COUNT <= blockSize && BLOCK_HEADER + TX_COUNT <= |stack| < blockSize
            ==> d == Decoded(Err(InsufficientData("tx_data")), [])
  {
    var rawBlockHeader := PopBytes(stack, BLOCK_HEADER, "block_header");
    if rawBlockHeader.result.Err? then Propagate(rawBlockHeader) else
    var blockHeader := DecodeBlockHeader(rawBlockHeader.result.value);
    match blockHeader.result
    case Err(e) => Decoded(Err(e), rawBlockHeader.rest)
    case Ok(header) =>
      var txCount := PopBytes(rawBlockHeader.rest, TX_COUNT, "tx_count");
      if txCount.result.Err? then Propagate(txCount) else
      if blockSize < BLOCK_HEADER + TX_COUNT then Decoded(Err(SizeUnderflow), txCount.rest) else
      var txData := PopBytes(txCount.rest, blockSize - (BLOCK_HEADER + TX_COUNT), "tx_data");
      if txData.result.Err? then Propagate(txData) else
      Decoded(Ok(Block(header, txCount.result.value, txData.result.value)), txData.rest)
  }

  /**
   * On a reversed file holding at least one block of `blockSize` bytes: the
   * header is the first 80 bytes (assigned as written), the tx count the
   * next 4, the tx data the rest of the block, all in file order.
   */
  lemma BlockFromFile(file: seq<Byte>, blockSize: U32)
    requires BLOCK_HEADER + TX_COUNT <= blockSize <= |file|
    ensures DecodeBlock(Reversed(file), blockSize)
         == Decoded(Ok(Block(HeaderAsWritten(file[..80]), file[80..84], file[84..blockSize])),
                    Reversed(file[blockSize..]))
  {
    TxFieldsFromFile(file, blockSize);
    DecodeHeaderAsWritten(file[..80]);
    PopFile(file, BLOCK_HEADER, "block_header");
  }

  lemma TxFieldsFromFile(file: seq<Byte>, blockSize: U32)
    requires BLOCK_HEADER + TX_COUNT <= blockSize <= |file|
    ensures PopBytes(Reversed(file[80..]), TX_COUNT, "tx_count") == Decoded(Ok(file[80..84]), Reversed(file[84..]))
    ensures PopBytes(Reversed(file[84..]), blockSize - 84, "tx_data")
         == Decoded(Ok(file[84..blockSize]), Reversed(file[blockSize..]))
  {
    PopFile(file[80..], TX_COUNT, "tx_count");
    SliceOfSuffix(file, 80, 84);
    PopFile(file[84..], blockSize - 84, "tx_data");
    SliceOfSuffix(file, 84, blockSize);
  }

  /** `Block::from_raw_bytes`. */
  method BlockFromRawBytes(rawBytes: ByteVec, blockSize: U32) returns (r: Result<Block>)
    modifies rawBytes
    ensures Decoded(r, rawBytes.bytes) == DecodeBlock(old(rawBytes.bytes), blockSize)
  {
    var rawBlockHeader :- rawBytes.PopN(BLOCK_HEADER, "block_header");
    var headerBytes := new ByteVec(rawBlockHeader);
    var blockHeader := BlockHeaderFromRawBytes(headerBytes);
    var txCount :- rawBytes.PopN(TX_COUNT, "tx_count");
    if blockSize < BLOCK_HEADER + TX_COUNT {
      return Err(SizeUnderflow);
    }
    var txData :- rawBytes.PopN(blockSize - (BLOCK_HEADER + TX_COUNT), "tx_data");
    return Ok(Block(blockHeader, txCount, txData));
  }

  /** The source's unit test: the first 8 bytes of `blk00000.dat`, reversed, give mainnet and size 285. */
  lemma FirstBlockInfo()
    ensures var d := DecodeBlockInfo(Reversed([249, 190, 180, 217, 29, 1, 0, 0]), 0);
            && d.result.Ok?
            && ValidateNetwork(d.result.value).Ok?
            && SizeAsU32(d.result.value) == 285
  {
    var file: seq<Byte> := [249, 190, 180, 217, 29, 1, 0, 0];
    BlockInfoFromFile(file, 0);
  }
}
