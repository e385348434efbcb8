/** Point-in-time queries over the versioned tables and what range deletes and
    appends do to them. A snapshot table answers "the row of address A as of
    block B"; the state block table answers "the highest indexed block (at or
    below B)". */
module Versioned {
  import opened Rows
  import opened Sql

  /** Row `x` is a candidate for a lookup of `address` bounded by `bound`
      (no bound: every block). */
  ghost predicate Visible(x: Snapshot, address: Address, bound: Option<int>) {
    x.address == address && (bound.None? || x.blockNumber <= bound.value)
  }

  /** `r` is a correct answer to "state of `address` as of `bound`": a row of
      the table, visible, with no visible row of a later block; or None when
      no row is visible. */
  ghost predicate SnapshotAsOf(rows: seq<Snapshot>, address: Address, bound: Option<int>, r: Option<Snapshot>) {
    match r
    case None => forall x :: x in rows ==> !Visible(x, address, bound)
    case Some(y) =>
      && y in rows
      && Visible(y, address, bound)
      && forall x :: x in rows && Visible(x, address, bound) ==> x.blockNumber <= y.blockNumber
  }

  /** The table holds at most one row per (address, block number), and no
      row twice. The store does not enforce this; lemmas that need it say so. */
  ghost predicate UniqueVersions(rows: seq<Snapshot>) {
    && (forall x :: multiset(rows)[x] <= 1)
    && forall x, y :: x in rows && y in rows && x.address == y.address && x.blockNumber == y.blockNumber ==> x == y
  }

  /** Some row of the table belongs to `address` and block `blockNumber`. */
  ghost predicate HasVersion(rows: seq<Snapshot>, address: Address, blockNumber: int) {
    exists x :: x in rows && x.address == address && x.blockNumber == blockNumber
  }

  /** `WHERE BINARY address = ?` */
  function AddressIs(address: Address): (cond: Snapshot -> bool) {
    (x: Snapshot) => x.address == address
  }

  /** `WHERE BINARY address = ? AND block_number <= ?` */
  function AddressAtOrBelow(address: Address, bound: int): (cond: Snapshot -> bool) {
    (x: Snapshot) => x.address == address && x.blockNumber <= bound
  }

  /** `WHERE number <= ?` */
  function NumberAtOrBelow(bound: int): (cond: StateBlock -> bool) {
    (b: StateBlock) => b.number <= bound
  }

  /** The point-in-time lookup on a snapshot table: with no block number the
      latest row of `address`, otherwise its latest row at or below the block. */
  function Lookup(rows: seq<Snapshot>, address: Address, blockNr: Option<int>): (r: Option<Snapshot>)
    ensures SnapshotAsOf(rows, address, blockNr, r)
  {
    if blockNr.None? then Top(Where(rows, AddressIs(address)), BlockNumberOf)
    else Top(Where(rows, AddressAtOrBelow(address, blockNr.value)), BlockNumberOf)
  }

  /** When versions are unique, the lookup's answer is the only correct one:
      any answer meeting SnapshotAsOf is the row Lookup returns. */
  lemma LookupIsTheAnswer(rows: seq<Snapshot>, address: Address, bound: Option<int>, r: Option<Snapshot>)
    requires UniqueVersions(rows)
    requires SnapshotAsOf(rows, address, bound, r)
    ensures Lookup(rows, address, bound) == r
  {
  }

  /** A lookup bounded below `from` sees the same rows before and after the
      rows from block `from` on are deleted. */
  lemma LookupBelowDeleteUnchanged(rows: seq<Snapshot>, address: Address, bound: int, from: int)
    requires bound < from
    ensures Lookup(DeleteFrom(rows, BlockNumberOf, from), address, Some(bound)) == Lookup(rows, address, Some(bound))
  {
    WhereAfterDelete(rows, BlockNumberOf, from, AddressAtOrBelow(address, bound));
  }

  /** After deleting from block `from`, the latest row of an address is the
      row it had as of block `from - 1`. */
  lemma LatestAfterDelete(rows: seq<Snapshot>, address: Address, from: int)
    ensures Lookup(DeleteFrom(rows, BlockNumberOf, from), address, None) == Lookup(rows, address, Some(from - 1))
  {
    var below := (x: Snapshot) => x.blockNumber < from;
    DeleteFromIsWhere(rows, BlockNumberOf, from, below);
    WhereOfWhere(rows, AddressIs(address), below, AddressAtOrBelow(address, from - 1));
  }

  /** Appending a row that a lookup cannot see leaves the lookup's answer as it was. */
  lemma LookupAfterUnrelatedAppend(rows: seq<Snapshot>, x: Snapshot, address: Address, bound: Option<int>)
    requires !Visible(x, address, bound)
    ensures Lookup(rows + [x], address, bound) == Lookup(rows, address, bound)
  {
    var cond := if bound.None? then AddressIs(address) else AddressAtOrBelow(address, bound.value);
    assert !cond(x);
    assert Where([x], cond) == [];
    WhereConcat(rows, [x], cond);
    assert Where(rows + [x], cond) == Where(rows, cond);
  }

  /** Whichever row of greatest block a lookup bounded below `from` returned
      is still a correct answer after deleting from `from`, whatever row an
      `ORDER BY ... LIMIT 1` picks among ties. */
  lemma AnswerBelowDeleteStillCorrect(rows: seq<Snapshot>, address: Address, bound: int, from: int)
    requires bound < from
    ensures SnapshotAsOf(DeleteFrom(rows, BlockNumberOf, from), address, Some(bound), Lookup(rows, address, Some(bound)))
  {
  }

  /** The old answer as of block `from - 1` is a correct latest row after
      deleting from `from`, whatever row is picked among ties. */
  lemma AnswerAsOfIsLatestAfterDelete(rows: seq<Snapshot>, address: Address, from: int)
    ensures SnapshotAsOf(DeleteFrom(rows, BlockNumberOf, from), address, None, Lookup(rows, address, Some(from - 1)))
  {
  }

  /** The old answer stays a correct answer after appending a row the lookup
      cannot see, whatever row is picked among ties. */
  lemma AnswerSurvivesUnrelatedAppend(rows: seq<Snapshot>, x: Snapshot, address: Address, bound: Option<int>)
    requires !Visible(x, address, bound)
    ensures SnapshotAsOf(rows + [x], address, bound, Lookup(rows, address, bound))
  {
  }

  /** After appending `x`, the lookup of its own address at its own block
      finds a row of that block; if versions stay unique, it finds `x`. */
  lemma LookupAfterAppend(rows: seq<Snapshot>, x: Snapshot)
    ensures Lookup(rows + [x], x.address, Some(x.blockNumber)).Some?
    ensures Lookup(rows + [x], x.address, Some(x.blockNumber)).value.blockNumber == x.blockNumber
    ensures UniqueVersions(rows + [x]) ==> Lookup(rows + [x], x.address, Some(x.blockNumber)) == Some(x)
  {
  }

  /** Appending a row keeps versions unique exactly when the table has no row
      for the same address and block. */
  lemma AppendKeepsUnique(rows: seq<Snapshot>, x: Snapshot)
    requires UniqueVersions(rows)
    ensures UniqueVersions(rows + [x]) <==> !HasVersion(rows, x.address, x.blockNumber)
  {
    var t := rows + [x];
    if HasVersion(rows, x.address, x.blockNumber) {
      var y :| y in rows && y.address == x.address && y.blockNumber == x.blockNumber;
      assert y in t && x in t;
      if y == x {
        assert multiset(t)[x] == multiset(rows)[x] + 1;
      }
    } else {
      assert forall y :: multiset(t)[y] == multiset(rows)[y] + multiset([x])[y];
    }
  }

  /** Deleting a range keeps versions unique. */
  lemma DeleteKeepsUnique(rows: seq<Snapshot>, from: int)
    requires UniqueVersions(rows)
    ensures UniqueVersions(DeleteFrom(rows, BlockNumberOf, from))
  {
  }

  /** `r` is a correct answer to "highest indexed block (at or below `bound`)". */
  ghost predicate BlockAsOf(blocks: seq<StateBlock>, bound: Option<int>, r: Option<StateBlock>) {
    match r
    case None => forall b :: b in blocks ==> bound.Some? && b.number > bound.value
    case Some(y) =>
      && y in blocks
      && (bound.None? || y.number <= bound.value)
      && forall b :: b in blocks && (bound.None? || b.number <= bound.value) ==> b.number <= y.number
  }

  /** The table holds at most one block per number, and no block twice. */
  ghost predicate UniqueNumbers(blocks: seq<StateBlock>) {
    && (forall b :: multiset(blocks)[b] <= 1)
    && forall b, c :: b in blocks && c in blocks && b.number == c.number ==> b == c
  }

  /** The state block lookup: with no bound the block of greatest number,
      otherwise the block of greatest number at or below the bound. */
  function LatestBlock(blocks: seq<StateBlock>, bound: Option<int>): (r: Option<StateBlock>)
    ensures BlockAsOf(blocks, bound, r)
  {
    if bound.None? then Top(blocks, NumberOf)
    else Top(Where(blocks, NumberAtOrBelow(bound.value)), NumberOf)
  }

  /** When block numbers are unique, the block lookup's answer is the only
      correct one. */
  lemma LatestBlockIsTheAnswer(blocks: seq<StateBlock>, bound: Option<int>, r: Option<StateBlock>)
    requires UniqueNumbers(blocks)
    requires BlockAsOf(blocks, bound, r)
    ensures LatestBlock(blocks, bound) == r
  {
  }

  /** After deleting the state blocks from `from` on, the highest block is
      the one that was highest at or below `from - 1`. */
  lemma LatestBlockAfterDelete(blocks: seq<StateBlock>, from: int)
    ensures BlockAsOf(DeleteFrom(blocks, NumberOf, from), None, LatestBlock(blocks, Some(from - 1)))
    ensures LatestBlock(DeleteFrom(blocks, NumberOf, from), None) == LatestBlock(blocks, Some(from - 1))
  {
    DeleteFromIsWhere(blocks, NumberOf, from, NumberAtOrBelow(from - 1));
  }

  /** A bounded block lookup below `from` is unaffected by deleting from `from`. */
  lemma BlockBelowDeleteUnchanged(blocks: seq<StateBlock>, bound: int, from: int)
    requires bound < from
    ensures BlockAsOf(DeleteFrom(blocks, NumberOf, from), Some(bound), LatestBlock(blocks, Some(bound)))
    ensures LatestBlock(DeleteFrom(blocks, NumberOf, from), Some(bound)) == LatestBlock(blocks, Some(bound))
  {
    WhereAfterDelete(blocks, NumberOf, from, NumberAtOrBelow(bound));
  }
}
