/** The rows kept by the account state store: per-block snapshots of accounts,
    contracts and contract code, and the indexed state blocks. Only the columns
    the store's queries look at are modelled; every other column is an opaque
    payload. */
module Rows {

  /** "Not found" for a query: gorm reports a record-not-found error when
      `Find` into a single struct matches no row. */
  datatype Option<+T> = None | Some(value: T)

  const MinInt64: int := -0x8000_0000_0000_0000
  const MaxInt64: int := 0x7fff_ffff_ffff_ffff

  /** Go's `int64`, the type of every block number the store handles. The
      store only compares block numbers, so no wrap-around arises. */
  type Int64 = x: int | MinInt64 <= x <= MaxInt64

  /** An Ethereum address: exactly 20 bytes, compared byte for byte
      (the queries use `BINARY address = ?`). */
  type Address = a: seq<bv8> | |a| == 20 witness seq(20, _ => 0)

  /** Columns of a row that no query of the store reads. */
  type Payload = seq<bv8>

  /** One row of the `accounts`, `contracts` or `contract_code` table: the
      owning address, the block the row belongs to, and the rest of the row. */
  datatype Snapshot = Snapshot(address: Address, blockNumber: Int64, payload: Payload)

  type Account = Snapshot
  type Contract = Snapshot
  type ContractCode = Snapshot

  /** One row of the `state_blocks` table. */
  datatype StateBlock = StateBlock(number: Int64, payload: Payload)

  /** The version column of a snapshot table (`block_number`). */
  function BlockNumberOf(s: Snapshot): (n: int) { s.blockNumber }

  /** The version column of the state block table (`number`). */
  function NumberOf(b: StateBlock): (n: int) { b.number }
}
