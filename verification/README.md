# bitcoin-block-finder in Dafny

A model of the decoding and scanning engine of `bitcoin-block-finder`, a
reader for Bitcoin Core's `blk*.dat` files. Such a file is a run of
records. Each record has:

- 4 magic bytes (`F9 BE B4 D9` on mainnet);
- a 4-byte little-endian size `N`;
- `N` bytes of block. The code reads these as an 80-byte header, 4 tx-count
  bytes, then `N - 84` bytes of transaction data. In real blocks the tx
  count is a variable-length CompactSize, not a fixed 4 bytes.

`find_block` reads such a file to find the block at a given height. It
reverses the file in place, so that `Vec::pop` hands out the bytes in file
order. It then decodes one record after another, numbering them 0, 1, 2, …,
and stops at the record whose number is the requested height.

## Modules

- `errors.dfy` (`Errors`): the failure values and the `Result`/`Option`
  wrappers.
  - `InsufficientData(field)` stands for an `expect` on an empty `Vec::pop`.
  - `SizeUnderflow` stands for `block_size - 84` on a `u32` below 84.
  - `NetworkValidationFailed` and `BlockNotFound` are the two `anyhow`
    errors.
- `hex.dfy` (`Hex`): bytes, `u32`, and byte order. It also gives the meaning
  of the two text conversions the decoders use.
  - `encode_hex` writes two lowercase digits per byte, high nibble first.
  - `u32::from_str_radix(_, 16)` takes an optional `+` and then one or more
    hex digits of either case, and the value must fit in 32 bits.
- `cursor.dfy` (`Cursor`): the `Vec<u8>` as class `ByteVec`, with `pop`,
  `reverse`, `is_empty`, and the `(0..n).map(|_| pop().expect(..))` loop.
  - The loop is a method (`PopN`) proved equal to the function `PopBytes`.
  - `PopBytes` works on the vector's contents viewed as a stack, with the
    next byte last.
- `constants.dfy` (`Constants`): `MAINNET_HEX` and the field widths.
- `types.dfy` (`Types`): the three `from_raw_bytes` decoders and the
  accessors.
  - Each decoder is a function on the stack that returns the value and the
    stack left behind (`Decoded`).
  - Each decoder is also a method on a `ByteVec` that pops exactly as the
    source does, and is proved to agree with the function.
- `finder.dfy` (`Finder`): `find_block`.
  - `FindBlock` is the method with the in-place reverse and the `while` loop.
  - It is proved equal to the function `Scan`.
  - The lemmas about `Scan` describe a file made of well-formed mainnet
    records.

### The header is modelled as written

`BlockHeader::from_raw_bytes` pops from the tail of an 80-byte vector that
was filled in file order. So the field called `version` receives header
bytes 76..80 reversed, and `nonce` receives header bytes 0..4 reversed
(`Types.HeaderAsWritten`). The accessors then read each stored group
big-endian. Taken together, `version()` reports the little-endian value of
the last four header bytes, which is the real nonce (`Types.HeaderValuesAsWritten`).

The two hash fields hold reversed 32-byte windows that do not line up with
the real header layout. `tx_count()` reads its four bytes big-endian.

In the real Bitcoin header, `version` is header bytes 0..4, `nonce` is header
bytes 76..80, and the numeric fields are little-endian. The code takes the
six fields in reverse order. Each numeric accessor still gives the
little-endian value of a four-byte group, but of the wrong group: `version()`
reports the real nonce and `nonce()` the real version. This model follows the
code.

## Model

| member | source | states |
|---|---|---|
| Cursor.PopBytes | src/util/types.rs:51-53 | popping `n` bytes succeeds exactly when `n` are left, yields the top `n` in pop order and leaves the rest untouched below; otherwise it is `InsufficientData` for that field with the vector drained |
| Cursor.ByteVec.PopN | src/util/types.rs:51-53 | the pop loop on the vector produces exactly `PopBytes`'s field and leaves exactly its remaining stack |
| Cursor.ByteVec.Pop | src/util/types.rs:52 | `Vec::pop`: `None` on an empty vector, otherwise the last byte, removed |
| Cursor.ByteVec.Reverse | src/main.rs:23 | the contents become their reversal |
| Cursor.ByteVec.IsEmpty | src/main.rs:29 | true exactly when no byte is left |
| Cursor.PopFile | src/main.rs:23 | after the reversal, popping `n` bytes gives the first `n` bytes of the file in file order and leaves the stack of the rest of the file; a file shorter than `n` gives `InsufficientData` |
| Hex.EncodeHexIsHexOf | src/util/types.rs:41-43 | `encode_hex` gives two lowercase hex digits per byte, high nibble first, in stored order |
| Hex.HexOfDeterminesBytes | src/util/types.rs:44-49 | hex text determines its bytes, so comparing hex strings compares bytes |
| Hex.HexDigitsOfEncoding | src/util/types.rs:204-207 | the digits of `encode_hex(bs)` read in base 16 are the big-endian value of `bs` |
| Hex.ParseEncodedHex | src/util/types.rs:204-207 | `from_str_radix(encode_hex(bs), 16)` never fails for one to four bytes, because 8 hex digits fit in a `u32`, and yields their big-endian value |
| Hex.ParseU32Hex | src/util/types.rs:204-207 | the parse-the-hex idiom on four bytes is b0·2^24 + b1·2^16 + b2·2^8 + b3 |
| Hex.BigEndianOfReversed | src/util/types.rs:29-36 | reading four reversed bytes big-endian is reading them little-endian |
| Hex.LeBytes | src/util/types.rs:28-40 | the little-endian encoding of a `u32` decodes back to it |
| Hex.LeBytesOfLe32 | src/util/types.rs:28-40 | decoding four bytes little-endian and re-encoding gives the same bytes |
| Constants.WidthsAgree | src/util/constant.rs:1-13 | the header sub-widths sum to 80, the framing unit is 8 bytes, `MAINNET_HEX` is the hex length of 4 bytes, and header plus tx count is 84 |
| Types.SizeAsU32 | src/util/types.rs:28-40 | `size_as_u32` is the little-endian value of the four size bytes and never fails |
| Types.SizeRoundTrip | src/util/types.rs:28-40 | re-encoding the decoded size little-endian gives back the stored size bytes |
| Types.NetworkHex | src/util/types.rs:41-43 | `network_hex` is the 8-character lowercase hex of the magic bytes in stored order, with no reversal |
| Types.MainnetHexIsMagic | src/util/constant.rs:1 | `"f9beb4d9"` is the hex text of `F9 BE B4 D9` |
| Types.NetworkHexIsMainnet | src/util/types.rs:44-49 | the hex of four bytes equals `"f9beb4d9"` exactly when the bytes are `F9 BE B4 D9` |
| Types.ValidateNetwork | src/util/types.rs:44-49 | Ok exactly when the magic bytes are `F9 BE B4 D9`, otherwise "network validation failed" |
| Types.DecodeBlockInfo | src/util/types.rs:50-59 | succeeds exactly when 8 bytes are left and removes exactly 8 from the top, keeping the rest and the given height; otherwise it fails on `magic_bytes` or on `size` |
| Types.BlockInfoFromFile | src/util/types.rs:50-59 | on a reversed file, the magic bytes are file bytes 0..4 and the size is bytes 4..8, both in file order |
| Types.BlockInfoFromRawBytes | src/util/types.rs:50-59 | the popping decoder leaves exactly the result and vector that `DecodeBlockInfo` describes |
| Types.DecodeBlockHeader | src/util/types.rs:159-203 | succeeds exactly when 80 bytes are left and removes exactly the top 80, leaving the bytes below untouched; a short input is `InsufficientData` |
| Types.DecodeHeaderAsWritten | src/util/types.rs:159-203 | on 80 header bytes in file order it empties the input, with `version` = bytes 76..80 reversed, the previous hash = 44..76 reversed, the merkle root = 12..44 reversed, the time = 8..12 reversed, the target = 4..8 reversed and the nonce = 0..4 reversed |
| Types.BlockHeaderFromRawBytes | src/util/types.rs:159-203 | the popping decoder on the 80-byte vector empties it and returns the header `DecodeBlockHeader` gives |
| Types.Version | src/util/types.rs:204-207 | the stored version bytes read big-endian, with no reversal |
| Types.PreviousBlockHeaderHash | src/util/types.rs:208-212 | 64 lowercase hex digits of the stored bytes, in stored order |
| Types.MerkleRootHash | src/util/types.rs:213-215 | 64 lowercase hex digits of the stored bytes, in stored order |
| Types.UnixEpochTime | src/util/types.rs:216-222 | the stored time bytes read big-endian |
| Types.Target | src/util/types.rs:223-226 | the stored target bytes read big-endian |
| Types.Nonce | src/util/types.rs:227-230 | the stored nonce bytes read big-endian |
| Types.HeaderValuesAsWritten | src/util/types.rs:204-230 | for a header decoded from its 80 bytes in file order, `version`, `unix_epoch_time`, `target` and `nonce` report the little-endian values of header bytes 76..80, 8..12, 4..8 and 0..4 |
| Types.TxCount | src/util/types.rs:105-108 | the stored tx-count bytes read big-endian |
| Types.DecodeBlock | src/util/types.rs:91-104 | succeeds exactly when 84 <= size <= bytes left, removes exactly `size` bytes and holds `size - 84` bytes of tx data; each failure is stated: short header, short tx count, underflow after the tx count is popped, or short tx data |
| Types.TxFieldsFromFile | src/util/types.rs:96-101 | after the header, the tx count is the next 4 file bytes and the tx data runs up to the block size, in file order |
| Types.BlockFromFile | src/util/types.rs:91-104 | on a reversed file holding a block of `size` bytes, the header is the first 80 bytes as written, the tx count bytes 80..84 and the tx data bytes 84..size, and the rest of the file is left |
| Types.BlockFromRawBytes | src/util/types.rs:91-104 | the popping decoder leaves exactly the result and vector that `DecodeBlock` describes |
| Types.FirstBlockInfo | src/util/types.rs:236-246 | the first 8 bytes of `blk00000.dat`, reversed and decoded at height 0, validate as mainnet and give size 285 |
| Finder.DecodeRecord | src/main.rs:30-32 | one loop body: on success the record is mainnet, carries the running number, has size >= 84, and takes exactly `8 + size` bytes off the stack; fewer than 8 bytes is `InsufficientData` |
| Finder.Scan | src/main.rs:28-39 | a found record carries the requested height, which is at least the starting number, is mainnet, and shrinks the stack; an empty stack is "failed to find block" |
| Finder.FindBlock | src/main.rs:22-40 | the reverse-then-loop method returns exactly the outcome of `Scan` on the reversed file, and leaves what `Scan` leaves |
| Finder.RecordInfo | src/main.rs:30-31 | the framing unit of a well-formed record decodes to mainnet magic and the record's size |
| Finder.RecordBlock | src/main.rs:32 | the block of a well-formed record decodes to its header as written, its tx count and its tx data, and leaves the following bytes |
| Finder.RecordDecodes | src/main.rs:30-32 | a loop body on a well-formed record yields that record numbered as given and leaves the rest of the file |
| Finder.ScanStep | src/main.rs:29-36 | over one well-formed record the scan either stops there, when its number is the height, or goes on with the next record numbered one higher |
| Finder.ScanPastFirst | src/main.rs:33-36 | a non-matching first record is decoded completely and passed over |
| Finder.ScanPastRecords | src/main.rs:29-37 | a height not among a run of well-formed records passes all of them and continues after them with the number increased by their count |
| Finder.ScanFindsRecord | src/main.rs:28-35 | a height among a run of well-formed records numbered from `b` finds record `h - b` and stops right after it |
| Finder.FindBlockInFile | src/main.rs:22-40 | on a file of `k` well-formed mainnet records, a height `h < k` finds the `h`-th record and a height `h >= k` is "failed to find block" |
| Finder.NetworkMismatchAborts | src/main.rs:31 | a record with non-mainnet magic ends the scan with "network validation failed" before its block is popped |
| Finder.TruncatedTail | src/main.rs:29-39 | after well-formed records, a cut-off framing unit does not hide earlier records, but any later height fails with `InsufficientData` instead of "failed to find block" |
| Finder.ShortBlockAborts | src/util/types.rs:91-104 | a record with mainnet magic whose size field announces at least 84 bytes, followed by fewer bytes than announced, ends the scan with `InsufficientData` on the header, the tx count or the tx data, whichever runs short first, whatever height is sought |
| Finder.TruncatedBlock | src/main.rs:29-39 | after well-formed records, a block cut off inside its header, tx count or tx data does not hide earlier records, but any later height fails with `InsufficientData` on that field instead of "failed to find block" |

## Left out

- `main` is not modelled: the `clap` argument parsing and the `read("blk00000.dat")` file read are I/O, and `find_block` receives the file contents and the height as parameters.
- `src/cli.rs` is an argument struct with no logic and is not part of this model.
- The `log` function, the `log` methods and the `Display` impls are presentation only (`println!`, `colored`). `FindBlock` returns the found `BlockInfo` and `Block` instead of printing them.
- The `hex` crate and `u32::from_str_radix` are modelled by their meaning, not by their code.
  - `Hex.EncodeHex` gives two lowercase digits per byte.
  - `Hex.FromStrRadix16` takes an optional `+`, then one or more digits of either case, with overflow checks.
  - Parse errors other than those are not distinguished.
- Panics are modelled as errors. Each `expect` on an empty `pop` becomes `InsufficientData(field)`, with the vector left empty, because the map loop has already drained it. No panic unwinding is modelled.
- `block_size - 84` below 84 becomes `SizeUnderflow`, which is the debug-build overflow panic. In a release build the subtraction wraps around instead, and the tx-data loop then fails on an empty vector. That variant is not modelled.
- Heights are `nat`, not `u64`. `block_height += 1` could only overflow after 2^64 records, which is unreachable.
- The width constants are `nat`, not `u32`. All of them are small.
- Types.BlockHeaderFromRawBytes: requires the exactly 80 bytes that its only caller passes. On a shorter vector the source panics; `Types.DecodeBlockHeader` models that case as `InsufficientData`.
- `BlockInfo::new`, `Block::new` and `BlockHeader::new` are the datatype constructors.
