/** The network constant and the byte widths of every field of a `blk*.dat` record. */
module Constants {

  /** Mainnet's magic bytes as lowercase hex. */
  const MAINNET_HEX: string := "f9beb4d9"

  // Framing unit before each block.
  const MAGIC_BYTES: nat := 4
  const BLOCK_SIZE: nat := 4

  // Block body.
  const BLOCK_HEADER: nat := 80
  const TX_COUNT: nat := 4

  // Sub-fields of the block header.
  const BLOCK_HEADER_VERSION: nat := 4
  const PREVIOUS_BLOCK_HEADER_HASH: nat := 32
  const MERKLE_ROOT_HASH: nat := 32
  const UNIX_EPOCH_TIME: nat := 4
  const TARGET: nat := 4
  const NONCE: nat := 4

  /** The widths fit together. */
  lemma WidthsAgree()
    ensures BLOCK_HEADER_VERSION + PREVIOUS_BLOCK_HEADER_HASH + MERKLE_ROOT_HASH
            + UNIX_EPOCH_TIME + TARGET + NONCE == BLOCK_HEADER
    ensures MAGIC_BYTES + BLOCK_SIZE == 8
    ensures |MAINNET_HEX| == 2 * MAGIC_BYTES
    ensures BLOCK_HEADER + TX_COUNT == 84
  {
  }
}
