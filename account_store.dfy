/** The account state store: four tables behind one database handle.
    `accounts` and `contracts` hold per-block snapshots keyed by address and
    block number, `contractCode` holds code rows (also tagged with a block
    number), and `stateBlocks` holds the indexed blocks, whose highest number
    is the last indexed block. Inserts append a row to one table, deletes
    remove a block range from one table, and the finders are read-only
    queries. */
module AccountStore {
  import opened Rows
  import opened Sql
  import opened Versioned

  class Store {
    var accounts: seq<Account>
    var contracts: seq<Contract>
    var contractCode: seq<ContractCode>
    var stateBlocks: seq<StateBlock>

    /** A store over a database whose tables already hold the given rows. */
    constructor NewWithDB(accounts: seq<Account>, contracts: seq<Contract>,
                          contractCode: seq<ContractCode>, stateBlocks: seq<StateBlock>)
      ensures this.accounts == accounts && this.contracts == contracts
      ensures this.contractCode == contractCode && this.stateBlocks == stateBlocks
    {
      this.accounts := accounts;
      this.contracts := contracts;
      this.contractCode := contractCode;
      this.stateBlocks := stateBlocks;
    }

    method InsertContractCode(code: ContractCode)
      modifies this
      ensures contractCode == old(contractCode) + [code]
      ensures accounts == old(accounts) && contracts == old(contracts) && stateBlocks == old(stateBlocks)
      ensures FindContractCode(code.address).Some?
    {
      contractCode := contractCode + [code];
      assert code in contractCode;
    }

    method InsertContract(contract: Contract)
      modifies this
      ensures contracts == old(contracts) + [contract]
      ensures accounts == old(accounts) && contractCode == old(contractCode) && stateBlocks == old(stateBlocks)
      ensures FindContract(contract.address, Some(contract.blockNumber)).Some?
      ensures FindContract(contract.address, Some(contract.blockNumber)).value.blockNumber == contract.blockNumber
      ensures UniqueVersions(old(contracts)) && !HasVersion(old(contracts), contract.address, contract.blockNumber) ==>
                UniqueVersions(contracts) && FindContract(contract.address, Some(contract.blockNumber)) == Some(contract)
      ensures forall a: Address, bound: Option<Int64> :: !Visible(contract, a, bound) ==>
                SnapshotAsOf(contracts, a, bound, Lookup(old(contracts), a, bound))
      ensures forall a: Address, bound: Option<Int64> :: !Visible(contract, a, bound) ==>
                FindContract(a, bound) == Lookup(old(contracts), a, bound)
    {
      ghost var before := contracts;
      contracts := contracts + [contract];
      LookupAfterAppend(before, contract);
      if UniqueVersions(before) {
        AppendKeepsUnique(before, contract);
      }
      forall a: Address, bound: Option<Int64> | !Visible(contract, a, bound)
        ensures FindContract(a, bound) == Lookup(old(contracts), a, bound)
      {
        LookupAfterUnrelatedAppend(before, contract, a, bound);
      }
      forall a: Address, bound: Option<Int64> | !Visible(contract, a, bound)
        ensures SnapshotAsOf(contracts, a, bound, Lookup(before, a, bound))
      {
        AnswerSurvivesUnrelatedAppend(before, contract, a, bound);
      }
    }

    method InsertAccount(account: Account)
      modifies this
      ensures accounts == old(accounts) + [account]
      ensures contracts == old(contracts) && contractCode == old(contractCode) && stateBlocks == old(stateBlocks)
      ensures FindAccount(account.address, Some(account.blockNumber)).Some?
      ensures FindAccount(account.address, Some(account.blockNumber)).value.blockNumber == account.blockNumber
      ensures UniqueVersions(old(accounts)) && !HasVersion(old(accounts), account.address, account.blockNumber) ==>
                UniqueVersions(accounts) && FindAccount(account.address, Some(account.blockNumber)) == Some(account)
      ensures forall a: Address, bound: Option<Int64> :: !Visible(account, a, bound) ==>
                SnapshotAsOf(accounts, a, bound, Lookup(old(accounts), a, bound))
      ensures forall a: Address, bound: Option<Int64> :: !Visible(account, a, bound) ==>
                FindAccount(a, bound) == Lookup(old(accounts), a, bound)
    {
      ghost var before := accounts;
      accounts := accounts + [account];
      LookupAfterAppend(before, account);
      if UniqueVersions(before) {
        AppendKeepsUnique(before, account);
      }
      forall a: Address, bound: Option<Int64> | !Visible(account, a, bound)
        ensures FindAccount(a, bound) == Lookup(old(accounts), a, bound)
      {
        LookupAfterUnrelatedAppend(before, account, a, bound);
      }
      forall a: Address, bound: Option<Int64> | !Visible(account, a, bound)
        ensures SnapshotAsOf(accounts, a, bound, Lookup(before, a, bound))
      {
        AnswerSurvivesUnrelatedAppend(before, account, a, bound);
      }
    }

    method InsertStateBlock(block: StateBlock)
      modifies this
      ensures stateBlocks == old(stateBlocks) + [block]
      ensures accounts == old(accounts) && contracts == old(contracts) && contractCode == old(contractCode)
      ensures LastStateBlock().Some? && LastStateBlock().value.number >= block.number
      ensures (forall b :: b in old(stateBlocks) ==> b.number < block.number) ==> LastStateBlock() == Some(block)
      ensures old(LastStateBlock()).Some? ==> LastStateBlock().value.number >= old(LastStateBlock()).value.number
    {
      stateBlocks := stateBlocks + [block];
      assert block in stateBlocks;
    }

    /** The highest indexed block, or None when no block is indexed. */
    function LastStateBlock(): (r: Option<StateBlock>)
      reads this
      ensures r.None? <==> stateBlocks == []
      ensures r.Some? ==> r.value in stateBlocks && forall b :: b in stateBlocks ==> b.number <= r.value.number
    {
      LatestBlock(stateBlocks, None)
    }

    method DeleteContractCodes(fromBlock: Int64)
      modifies this
      ensures contractCode == DeleteFrom(old(contractCode), BlockNumberOf, fromBlock)
      ensures accounts == old(accounts) && contracts == old(contracts) && stateBlocks == old(stateBlocks)
      ensures forall c :: c in contractCode <==> c in old(contractCode) && c.blockNumber < fromBlock
    {
      contractCode := DeleteFrom(contractCode, BlockNumberOf, fromBlock);
    }

    method DeleteContracts(fromBlock: Int64)
      modifies this
      ensures contracts == DeleteFrom(old(contracts), BlockNumberOf, fromBlock)
      ensures accounts == old(accounts) && contractCode == old(contractCode) && stateBlocks == old(stateBlocks)
      ensures forall a: Address, bound: Option<Int64> :: FindContract(a, bound).Some? ==>
                FindContract(a, bound).value.blockNumber < fromBlock
      ensures forall a: Address, b: Int64 :: b < fromBlock ==>
                SnapshotAsOf(contracts, a, Some(b), Lookup(old(contracts), a, Some(b)))
      ensures forall a: Address, b: Int64 :: b < fromBlock ==>
                FindContract(a, Some(b)) == Lookup(old(contracts), a, Some(b))
      ensures forall a: Address :: FindContract(a, None) == Lookup(old(contracts), a, Some(fromBlock - 1)) &&
                SnapshotAsOf(contracts, a, None, Lookup(old(contracts), a, Some(fromBlock - 1)))
      ensures UniqueVersions(old(contracts)) ==> UniqueVersions(contracts)
    {
      ghost var before := contracts;
      contracts := DeleteFrom(contracts, BlockNumberOf, fromBlock);
      forall a: Address, b: Int64 | b < fromBlock
        ensures Lookup(contracts, a, Some(b)) == Lookup(before, a, Some(b))
      {
        LookupBelowDeleteUnchanged(before, a, b, fromBlock);
      }
      forall a: Address
        ensures Lookup(contracts, a, None) == Lookup(before, a, Some(fromBlock - 1))
        ensures SnapshotAsOf(contracts, a, None, Lookup(before, a, Some(fromBlock - 1)))
      {
        LatestAfterDelete(before, a, fromBlock);
        AnswerAsOfIsLatestAfterDelete(before, a, fromBlock);
      }
      forall a: Address, b: Int64 | b < fromBlock
        ensures SnapshotAsOf(contracts, a, Some(b), Lookup(before, a, Some(b)))
      {
        AnswerBelowDeleteStillCorrect(before, a, b, fromBlock);
      }
      if UniqueVersions(before) {
        DeleteKeepsUnique(before, fromBlock);
      }
    }

    method DeleteAccounts(fromBlock: Int64)
      modifies this
      ensures accounts == DeleteFrom(old(accounts), BlockNumberOf, fromBlock)
      ensures contracts == old(contracts) && contractCode == old(contractCode) && stateBlocks == old(stateBlocks)
      ensures forall a: Address, bound: Option<Int64> :: FindAccount(a, bound).Some? ==>
                FindAccount(a, bound).value.blockNumber < fromBlock
      ensures forall a: Address, b: Int64 :: b < fromBlock ==>
                SnapshotAsOf(accounts, a, Some(b), Lookup(old(accounts), a, Some(b)))
      ensures forall a: Address, b: Int64 :: b < fromBlock ==>
                FindAccount(a, Some(b)) == Lookup(old(accounts), a, Some(b))
      ensures forall a: Address :: FindAccount(a, None) == Lookup(old(accounts), a, Some(fromBlock - 1)) &&
                SnapshotAsOf(accounts, a, None, Lookup(old(accounts), a, Some(fromBlock - 1)))
      ensures UniqueVersions(old(accounts)) ==> UniqueVersions(accounts)
    {
      ghost var before := accounts;
      accounts := DeleteFrom(accounts, BlockNumberOf, fromBlock);
      forall a: Address, b: Int64 | b < fromBlock
        ensures Lookup(accounts, a, Some(b)) == Lookup(before, a, Some(b))
      {
        LookupBelowDeleteUnchanged(before, a, b, fromBlock);
      }
      forall a: Address
        ensures Lookup(accounts, a, None) == Lookup(before, a, Some(fromBlock - 1))
        ensures SnapshotAsOf(accounts, a, None, Lookup(before, a, Some(fromBlock - 1)))
      {
        LatestAfterDelete(before, a, fromBlock);
        AnswerAsOfIsLatestAfterDelete(before, a, fromBlock);
      }
      forall a: Address, b: Int64 | b < fromBlock
        ensures SnapshotAsOf(accounts, a, Some(b), Lookup(before, a, Some(b)))
      {
        AnswerBelowDeleteStillCorrect(before, a, b, fromBlock);
      }
      if UniqueVersions(before) {
        DeleteKeepsUnique(before, fromBlock);
      }
    }

    method DeleteStateBlocks(fromBlock: Int64)
      modifies this
      ensures stateBlocks == DeleteFrom(old(stateBlocks), NumberOf, fromBlock)
      ensures accounts == old(accounts) && contracts == old(contracts) && contractCode == old(contractCode)
      ensures LastStateBlock().None? || LastStateBlock().value.number < fromBlock
      ensures BlockAsOf(stateBlocks, None, LatestBlock(old(stateBlocks), Some(fromBlock - 1)))
      ensures LastStateBlock() == LatestBlock(old(stateBlocks), Some(fromBlock - 1))
      ensures forall b: Int64 :: b < fromBlock ==> BlockAsOf(stateBlocks, Some(b), LatestBlock(old(stateBlocks), Some(b)))
      ensures forall b: Int64 :: b < fromBlock ==> FindStateBlock(b) == LatestBlock(old(stateBlocks), Some(b))
    {
      ghost var before := stateBlocks;
      stateBlocks := DeleteFrom(stateBlocks, NumberOf, fromBlock);
      LatestBlockAfterDelete(before, fromBlock);
      forall b: Int64 | b < fromBlock
        ensures LatestBlock(stateBlocks, Some(b)) == LatestBlock(before, Some(b))
      {
        BlockBelowDeleteUnchanged(before, b, fromBlock);
      }
    }

    /** The snapshot of `address` as of block `blockNr` (its latest snapshot
        when no block number is given), or None when it has none. */
    function FindAccount(address: Address, blockNr: Option<Int64>): (r: Option<Account>)
      reads this
      ensures SnapshotAsOf(accounts, address, blockNr, r)
    {
      Lookup(accounts, address, blockNr)
    }

    /** The contract snapshot of `address` as of block `blockNr` (its latest
        when no block number is given), or None when it has none. */
    function FindContract(address: Address, blockNr: Option<Int64>): (r: Option<Contract>)
      reads this
      ensures SnapshotAsOf(contracts, address, blockNr, r)
    {
      Lookup(contracts, address, blockNr)
    }

    /** Some code row of `address` (the query has no ORDER BY; the first in
        table order is taken), or None when the address has no code row. */
    function FindContractCode(address: Address): (r: Option<ContractCode>)
      reads this
      ensures r.Some? ==> r.value in contractCode && r.value.address == address
      ensures r.None? <==> forall c :: c in contractCode ==> c.address != address
    {
      var found := Where(contractCode, AddressIs(address));
      if found == [] then None else Some(found[0])
    }

    /** The indexed block of greatest number at or below `blockNr`, or None. */
    function FindStateBlock(blockNr: Int64): (r: Option<StateBlock>)
      reads this
      ensures r.Some? ==> r.value in stateBlocks && r.value.number <= blockNr
      ensures r.Some? ==> forall b :: b in stateBlocks && b.number <= blockNr ==> b.number <= r.value.number
      ensures r.None? <==> forall b :: b in stateBlocks ==> b.number > blockNr
    {
      LatestBlock(stateBlocks, Some(blockNr))
    }
  }
}
