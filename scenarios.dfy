/** Worked histories of one address: the lookups that point-in-time queries
    must answer, and what a rollback leaves behind. */
module Scenarios {
  import opened Rows
  import opened Sql
  import opened Versioned

  /** Snapshots at blocks 10 and 20: as of block 15 the block-10 row is the
      state, as of block 25 the block-20 row, and before block 10 there is none. */
  lemma PointInTimeExample(a: Address)
    ensures Lookup([Snapshot(a, 10, [5]), Snapshot(a, 20, [9])], a, Some(15)) == Some(Snapshot(a, 10, [5]))
    ensures Lookup([Snapshot(a, 10, [5]), Snapshot(a, 20, [9])], a, Some(25)) == Some(Snapshot(a, 20, [9]))
    ensures Lookup([Snapshot(a, 10, [5]), Snapshot(a, 20, [9])], a, Some(5)) == None
  {
  }

  /** Snapshots at 10, 20 and 30, rolled back from block 20: the block-10
      snapshot is the state even as of block 30. */
  lemma RollbackSnapshotExample(a: Address)
    ensures Lookup(DeleteFrom([Snapshot(a, 10, [5]), Snapshot(a, 20, [9]), Snapshot(a, 30, [7])], BlockNumberOf, 20), a, Some(30))
            == Some(Snapshot(a, 10, [5]))
  {
  }

  /** State blocks 10, 20 and 30, rolled back from block 20: block 10 is the
      last indexed block. */
  lemma RollbackMarkerExample()
    ensures LatestBlock(DeleteFrom([StateBlock(10, []), StateBlock(20, []), StateBlock(30, [])], NumberOf, 20), None)
            == Some(StateBlock(10, []))
  {
  }
}
