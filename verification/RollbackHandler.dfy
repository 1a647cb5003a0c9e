/** The rollback handler: operations that overwrite the ledger file and the snapshot files. */
module RollbackHandler {
  import opened Wrappers
  import opened Sequences
  import opened BlockValidator
  import opened LedgerRuns

  class Handler {
    var ledger: Option<Ledger>
    var backups: map<string, Ledger>

    constructor (ledger: Option<Ledger>)
      ensures View() == Files(ledger, map[])
    {
      this.ledger, backups := ledger, map[];
    }

    function View(): Files
      reads this
    {
      Files(ledger, backups)
    }

    method CreateBackupSnapshot(snapshotId: string) returns (r: Result<(), string>)
      modifies this
      ensures r.Failure? <==> Fails(old(View()), CreateSnapshot(snapshotId))
      ensures View() == Step(old(View()), CreateSnapshot(snapshotId))
      ensures r.Failure? <==> old(ledger).None?
      ensures ledger == old(ledger)
      ensures backups == if r.Success? then old(backups)[snapshotId := old(ledger).value] else old(backups)
    {
      if ledger.None? {
        return Failure("Failed to create ledger snapshot.");
      }
      backups := backups[snapshotId := ledger.value];
      r := Success(());
    }

    method RestoreFromSnapshot(snapshotId: string) returns (r: Result<(), string>)
      modifies this
      ensures r.Failure? <==> Fails(old(View()), Restore(snapshotId))
      ensures View() == Step(old(View()), Restore(snapshotId))
      ensures r.Failure? <==> snapshotId !in old(backups)
      ensures ledger == if r.Success? then Some(old(backups)[snapshotId]) else old(ledger)
      ensures backups == old(backups)
    {
      if snapshotId !in backups {
        return Failure("Rollback failed for snapshot " + snapshotId + ".");
      }
      ledger := Some(backups[snapshotId]);
      r := Success(());
    }

    method RollbackTransaction(transactionId: string) returns (r: Result<(), string>)
      modifies this
      ensures r.Failure? <==> Fails(old(View()), Operation.RollbackTransaction(transactionId))
      ensures View() == Step(old(View()), Operation.RollbackTransaction(transactionId))
      ensures r.Failure? <==> old(ledger).None?
      ensures r.Failure? ==> ledger == old(ledger)
      ensures r.Success? ==>
                && ledger.Some? && ledger.value.blocks == old(ledger).value.blocks
                && ledger.value.transactions == Filter(old(ledger).value.transactions, Lacks(transactionId))
      ensures backups == old(backups)
    {
      if ledger.None? {
        return Failure("Rollback failed for transaction " + transactionId + ".");
      }
      OthersLackId(ledger.value.transactions, transactionId);
      var kept := Filter(ledger.value.transactions, OtherThan(transactionId));
      ledger := Some(ledger.value.(transactions := kept));
      r := Success(());
    }

    method RollbackBlock() returns (r: Result<Block, string>)
      modifies this
      ensures r.Failure? <==> Fails(old(View()), Operation.RollbackBlock)
      ensures View() == Step(old(View()), Operation.RollbackBlock)
      ensures r.Failure? <==> old(ledger).None? || old(ledger).value.blocks == []
      ensures r.Failure? ==> ledger == old(ledger)
      ensures r.Success? ==>
                && ledger.Some? && ledger.value.transactions == old(ledger).value.transactions
                && old(ledger).value.blocks == ledger.value.blocks + [r.value]
      ensures backups == old(backups)
    {
      if ledger.None? || |ledger.value.blocks| == 0 {
        return Failure("Block rollback failed.");
      }
      var blocks := ledger.value.blocks;
      var removedBlock := blocks[|blocks| - 1];
      ledger := Some(ledger.value.(blocks := blocks[..|blocks| - 1]));
      r := Success(removedBlock);
    }
  }
}
