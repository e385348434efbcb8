# Versioned account state store

This project models the account state store of an Ethereum indexer
(`store/account/account.go`). The store keeps four tables behind one database handle:

- `accounts` and `contracts` hold per-block snapshots. Each row has an address, a `block_number` and the rest of the row.
- `contract_code` holds code rows. These also carry a `block_number`.
- `state_blocks` holds the indexed blocks. Its highest `number` is the last indexed block.

The store does four kinds of thing:

- It appends a row to one table (`Insert*`).
- It answers point-in-time lookups: among an address's rows with `block_number <= B`, the one with the largest
  `block_number`, or the latest row when no B is given (`Find*`).
- It deletes every row from a block on, for a reorg rollback (`Delete*`).
- It reports the highest indexed block (`LastStateBlock`).

Files and modules:

- `rows.dfy` (`Rows`): the row types. An address is exactly 20 bytes and is compared byte for byte. A block
  number is a Go `int64`. Columns that no query reads form an opaque payload. Accounts, contracts and
  contract code share one `Snapshot` shape.
- `sql.dfy` (`Sql`): the meaning of the three SQL shapes the store issues, over a table held as a sequence:
  - `Where` is a selection.
  - `DeleteFrom` is `DELETE ... WHERE version >= from`.
  - `Top` is `ORDER BY version DESC LIMIT 1`.
  The file also proves how these three compose.
- `versioned.dfy` (`Versioned`): the point-in-time lookup and the state-block lookup. Each is specified by a
  predicate (`SnapshotAsOf`, `BlockAsOf`) that says what a correct answer is, independently of how it is
  computed. The file also proves what range deletes and appends do to lookups.
- `account_store.dfy` (`AccountStore`): the class `Store`, with one `seq` field per table.
  - `Insert*` and `Delete*` are methods that modify those fields. Each states the new contents of its own
    table, that the other three tables are unchanged, and what lookups see afterwards.
  - `Find*` and `LastStateBlock` are functions that read the fields, so they cannot change any table. Two
    calls with no write in between return the same answer.
- `scenarios.dfy` (`Scenarios`): concrete histories of one address. They show the lookups before and after a
  rollback.

What the code does not do, and the model therefore does not do either:

- Inserts are plain appends. Nothing rejects a second row with the same (address, block number), and nothing
  rejects a second code row for an address. Uniqueness is a predicate, `UniqueVersions`. The lemmas that need
  it assume it, and the insert and delete methods state when they preserve it.
- Contract code rows carry a block number and are range-deleted like snapshots. They are not immutable.
- There is no separate chain marker. The last indexed block is the maximum of `state_blocks`. Rewinding it is
  `DeleteStateBlocks(F)`, after which the last indexed block is the one that was highest at or below `F - 1`.
- Each delete is its own statement. No rollback transaction spans the tables.

## Model

| member | source | states |
|---|---|---|
| `Sql.Where` | store/account/account.go:98-100 | a selection keeps exactly the rows meeting the condition, each with its original multiplicity |
| `Sql.DeleteFrom` | store/account/account.go:79-93 | a range delete removes exactly the rows whose version is at least `from`; every other row keeps its multiplicity |
| `Sql.Top` | store/account/account.go:75 | `ORDER BY ... DESC LIMIT 1` yields None exactly for an empty table, otherwise a row of the table whose version no other row exceeds |
| `Sql.WhereConcat` | store/account/account.go:65-67 | selecting from an appended table is selecting from each part |
| `Sql.DeleteFromIsWhere` | store/account/account.go:87-88 | a range delete leaves the table a selection of the rows below the range would give |
| `Sql.WhereOfWhere` | store/account/account.go:98-100 | a selection applied after another equals one selection by both conditions |
| `Sql.WhereAfterDelete` | store/account/account.go:87-100 | a selection that only keeps rows below `from` returns the same rows before and after deleting from `from` |
| `Versioned.Lookup` | store/account/account.go:97-101 | the point-in-time lookup returns a row of the address, at or below the bound if one is given, with no such row of a later block; it returns None exactly when the address has no such row |
| `Versioned.LookupIsTheAnswer` | store/account/account.go:100 | when (address, block) pairs are unique, every correct point-in-time answer is the one the lookup returns |
| `Versioned.LookupBelowDeleteUnchanged` | store/account/account.go:87-100 | with the model's tie rule, a lookup bounded below `F` returns the same row before and after deleting rows from block `F` on |
| `Versioned.LatestAfterDelete` | store/account/account.go:87-98 | with the model's tie rule, after deleting from block `F` an address's latest row is the row it had as of block `F - 1` |
| `Versioned.AnswerBelowDeleteStillCorrect` | store/account/account.go:87-100 | for a bound below `F`, the old answer is still a correct answer after deleting from `F`, whichever row is picked among ties |
| `Versioned.AnswerAsOfIsLatestAfterDelete` | store/account/account.go:87-98 | the old answer as of `F - 1` is a correct latest row after deleting from `F`, whichever row is picked among ties |
| `Versioned.AnswerSurvivesUnrelatedAppend` | store/account/account.go:65-100 | the old answer stays a correct answer after appending a row the lookup cannot see, whichever row is picked among ties |
| `Versioned.LookupAfterUnrelatedAppend` | store/account/account.go:65-100 | with the model's tie rule, appending a row that a lookup cannot see leaves that lookup's answer unchanged |
| `Versioned.LookupAfterAppend` | store/account/account.go:65-100 | after appending row `x`, the lookup of `x.address` as of `x.blockNumber` returns a row of that block, and returns `x` itself when versions stay unique |
| `Versioned.AppendKeepsUnique` | store/account/account.go:65-67 | appending keeps (address, block) pairs unique exactly when the table has no row for that pair yet |
| `Versioned.DeleteKeepsUnique` | store/account/account.go:87-89 | a range delete keeps (address, block) pairs unique |
| `Versioned.LatestBlock` | store/account/account.go:121-124 | the state-block lookup returns a block of greatest number, at or below the bound if one is given, or None exactly when no block qualifies |
| `Versioned.LatestBlockIsTheAnswer` | store/account/account.go:121-124 | when block numbers are unique, every correct state-block answer is the one the lookup returns |
| `Versioned.LatestBlockAfterDelete` | store/account/account.go:73-92 | after deleting state blocks from `F`, the old highest block at or below `F - 1` is a correct last indexed block, and with the model's tie rule it is the one returned |
| `Versioned.BlockBelowDeleteUnchanged` | store/account/account.go:91-123 | for a bound below `F`, the old state-block answer is still correct after deleting blocks from `F` on, and with the model's tie rule it is the one returned |
| `AccountStore.Store.NewWithDB` | store/account/account.go:51-55 | the store starts over the tables the database already holds |
| `AccountStore.Store.InsertContractCode` | store/account/account.go:57-59 | appends the code row to `contract_code` only; afterwards the address has code |
| `AccountStore.Store.InsertContract` | store/account/account.go:61-63 | appends the row to `contracts` only; the lookup at the row's own block returns a row of that block, and returns the row itself when versions were unique and the pair was new (uniqueness is then kept); for lookups that cannot see the row the old answer stays correct, and is the answer returned |
| `AccountStore.Store.InsertAccount` | store/account/account.go:65-67 | the same as InsertContract, for `accounts` |
| `AccountStore.Store.InsertStateBlock` | store/account/account.go:69-71 | appends the block to `state_blocks` only; the last indexed block is then at least its number, and is this block when it is higher than every earlier one; the last indexed block never goes down |
| `AccountStore.Store.LastStateBlock` | store/account/account.go:73-77 | None exactly when no block is indexed, otherwise an indexed block of greatest number |
| `AccountStore.Store.DeleteContractCodes` | store/account/account.go:79-81 | removes exactly the code rows with block number at least `fromBlock`; the other tables are unchanged |
| `AccountStore.Store.DeleteContracts` | store/account/account.go:83-85 | removes exactly the contract rows from `fromBlock` on, other tables unchanged; afterwards no lookup returns a row at or above `fromBlock`, the old answers to lookups bounded below `fromBlock` are still correct, the old answer as of `fromBlock - 1` is a correct latest row, and each of these is the answer returned; uniqueness is kept |
| `AccountStore.Store.DeleteAccounts` | store/account/account.go:87-89 | the same as DeleteContracts, for `accounts` |
| `AccountStore.Store.DeleteStateBlocks` | store/account/account.go:91-93 | removes exactly the blocks numbered `fromBlock` or more, other tables unchanged; afterwards the last indexed block is None or below `fromBlock`; the old highest block at or below `fromBlock - 1` is a correct last block, the old answers of bounded lookups below `fromBlock` stay correct, and each is the answer returned |
| `AccountStore.Store.FindAccount` | store/account/account.go:95-103 | the snapshot of the address (byte-exact) with greatest block number, at or below `blockNr` when given; None exactly when there is none |
| `AccountStore.Store.FindContract` | store/account/account.go:105-113 | the same as FindAccount, over `contracts` |
| `AccountStore.Store.FindContractCode` | store/account/account.go:115-119 | some code row whose address equals the given one byte for byte; None exactly when the address has no code row |
| `AccountStore.Store.FindStateBlock` | store/account/account.go:121-125 | the indexed block of greatest number at or below `blockNr`; None exactly when every block is above it |
| `Scenarios.PointInTimeExample` | store/account/account.go:100 | with snapshots at blocks 10 and 20, the state as of 15 is the block-10 row, as of 25 the block-20 row, and as of 5 there is none |
| `Scenarios.RollbackSnapshotExample` | store/account/account.go:87-100 | with snapshots at 10, 20 and 30 rolled back from 20, the state as of 30 is the block-10 row |
| `Scenarios.RollbackMarkerExample` | store/account/account.go:73-92 | with blocks 10, 20 and 30 rolled back from 20, the last indexed block is block 10 |

## Left out

- Storage failures are not modelled. These are the errors gorm returns for I/O, driver or connection faults from
  every insert, delete and find. Inserts and deletes always succeed in the model. The only error the finders
  report is "record not found", as None. The source returns a zeroed row beside that error; the model does not.
- Transactions, atomicity and concurrency are not modelled. The source runs each statement on its own, and the
  model runs each method to completion.
- Duplicate-version rejection and code immutability are not modelled, because the source has no such check. A
  schema constraint would live in the database, and the schema is not part of this model. `UniqueVersions` is
  an assumption, not something inserts enforce.
- Ties in `ORDER BY ... DESC LIMIT 1` are not modelled exactly. SQL leaves open which of several rows with
  equal block numbers comes first. `Top` takes the earliest in table order. The finders' contracts promise
  only a row of greatest block number. The members below also state that a lookup returns the same row as
  before, and that equality rests on the model's tie rule. In the source it holds when (address, block
  number) pairs, or state block numbers, are unique (`LookupIsTheAnswer`, `LatestBlockIsTheAnswer`). Each of
  them also states the tie-free fact: the old answer is still a correct answer.
- AccountStore.Store.InsertAccount, AccountStore.Store.InsertContract: the same-row equality for lookups that
  cannot see the new row relies on the tie rule. The tie-free form is `AnswerSurvivesUnrelatedAppend`.
- AccountStore.Store.DeleteAccounts, AccountStore.Store.DeleteContracts: the same-row equalities after the
  delete rely on the tie rule. The tie-free forms are `AnswerBelowDeleteStillCorrect` and
  `AnswerAsOfIsLatestAfterDelete`.
- AccountStore.Store.DeleteStateBlocks: the same-block equalities after the delete rely on the tie rule. The
  tie-free form is stated with `BlockAsOf`.
- Versioned.LookupBelowDeleteUnchanged, Versioned.LatestAfterDelete, Versioned.LookupAfterUnrelatedAppend:
  the same-row equality relies on the tie rule. The tie-free forms are the three `Answer*` lemmas.
- Versioned.LatestBlockAfterDelete, Versioned.BlockBelowDeleteUnchanged: the same-block equality relies on
  the tie rule. Each lemma also states the tie-free form with `BlockAsOf`.
- `FindContractCode` has no `ORDER BY`, so SQL may return any matching row. The model takes the first in table
  order, and its contract promises only some matching row.
- The variadic `blockNr ...int64` is modelled as an optional block number. The source reads only the first
  argument and ignores any others.
- Row columns other than address and block number are an opaque payload. The definitions of the row types are
  not part of this model. Deletes are modelled as hard deletes; if the row types enabled gorm's soft delete,
  rows would be marked rather than removed.
- The database handle (`gorm.DB`) is modelled as the contents of the four tables it reaches.
  `cmd/service/rpc/main.go` is not part of this model. It covers CLI flags, gRPC serving, the Ethereum client
  connection and the database connection lifecycle.
