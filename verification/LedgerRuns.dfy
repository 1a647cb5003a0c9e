/** Snapshots and rollbacks of the ledger, on values, and runs of them. */
module LedgerRuns {
  import opened Wrappers
  import opened Sequences
  import opened Json
  import opened BlockValidator

  datatype Ledger = Ledger(transactions: seq<Transaction>, blocks: seq<Block>)

  /** The ledger file, which may be missing, and the snapshot files. */
  datatype Files = Files(ledger: Option<Ledger>, backups: map<string, Ledger>)

  datatype Operation =
    | CreateSnapshot(snapshotId: string)
    | Restore(snapshotId: string)
    | RollbackTransaction(transactionId: string)
    | RollbackBlock

  /** `tx.id`: undefined when the transaction has no such key. */
  function IdOf(tx: Transaction): Option<Value> {
    var k := FirstIndex(tx.fields, (f: Field) => f.key == "id");
    if k < |tx.fields| then Some(tx.fields[k].value) else None
  }

  function OtherThan(id: string): Transaction -> bool {
    (tx: Transaction) => IdOf(tx) != Some(Str(id))
  }

  /** The first key "id" of the transaction has this value. */
  predicate HasId(tx: Transaction, id: string) {
    exists k | 0 <= k < |tx.fields| ::
      tx.fields[k] == Field("id", Str(id)) && forall j | 0 <= j < k :: tx.fields[j].key != "id"
  }

  function Lacks(id: string): Transaction -> bool {
    (tx: Transaction) => !HasId(tx, id)
  }

  lemma OthersLackId(txs: seq<Transaction>, id: string)
    ensures Filter(txs, OtherThan(id)) == Filter(txs, Lacks(id))
  {
    forall tx: Transaction
      ensures OtherThan(id)(tx) == Lacks(id)(tx)
    {
      var k := FirstIndex(tx.fields, (f: Field) => f.key == "id");
      assert HasId(tx, id) ==> k < |tx.fields|;
      if k < |tx.fields| && tx.fields[k].value == Str(id) {
        assert tx.fields[k] == Field("id", Str(id));
      }
    }
    FilterAgrees(txs, OtherThan(id), Lacks(id));
  }

  /** The operation throws: there is no ledger to read, no such snapshot, or no block to undo. */
  predicate Fails(f: Files, op: Operation) {
    match op
    case CreateSnapshot(_) => f.ledger.None?
    case Restore(id) => id !in f.backups
    case RollbackTransaction(_) => f.ledger.None?
    case RollbackBlock => f.ledger.None? || f.ledger.value.blocks == []
  }

  /** The files after an operation; one that throws leaves them as they were. */
  function Step(f: Files, op: Operation): Files {
    if Fails(f, op) then f
    else
      match op
      case CreateSnapshot(id) => f.(backups := f.backups[id := f.ledger.value])
      case Restore(id) => f.(ledger := Some(f.backups[id]))
      case RollbackTransaction(id) =>
        f.(ledger := Some(f.ledger.value.(transactions := Filter(f.ledger.value.transactions, OtherThan(id)))))
      case RollbackBlock =>
        var blocks := f.ledger.value.blocks;
        f.(ledger := Some(f.ledger.value.(blocks := blocks[..|blocks| - 1])))
  }

  function Run(f: Files, ops: seq<Operation>): Files {
    if ops == [] then f else Step(Run(f, ops[..|ops| - 1]), ops[|ops| - 1])
  }

  // ----- what rollbacks do to a ledger -----

  predicate IsRollback(op: Operation) {
    op.RollbackTransaction? || op.RollbackBlock?
  }

  /** No operation of the list is a rollback of transaction `id`. */
  predicate NotRolledBack(ops: seq<Operation>, id: string) {
    forall i | 0 <= i < |ops| :: ops[i] != RollbackTransaction(id)
  }

  /** The transaction was not rolled back; one without a string for its id cannot be. */
  function Survives(ops: seq<Operation>): Transaction -> bool {
    (tx: Transaction) =>
      match IdOf(tx)
      case Some(Str(id)) => NotRolledBack(ops, id)
      case _ => true
  }

  function BlockRollbacks(ops: seq<Operation>): nat {
    if ops == [] then 0
    else BlockRollbacks(ops[..|ops| - 1]) + if ops[|ops| - 1].RollbackBlock? then 1 else 0
  }

  /** All but the last `gone` blocks. */
  function WithoutLast(blocks: seq<Block>, gone: nat): seq<Block> {
    if gone <= |blocks| then blocks[..|blocks| - gone] else []
  }

  /** The ledger that a list of rollbacks leaves, in closed form. */
  function RolledBack(l: Ledger, ops: seq<Operation>): Ledger {
    Ledger(Filter(l.transactions, Survives(ops)), WithoutLast(l.blocks, BlockRollbacks(ops)))
  }

  lemma BlocksAfter(blocks: seq<Block>, gone: nat)
    ensures var left := WithoutLast(blocks, gone);
            WithoutLast(blocks, gone + 1) == if left == [] then [] else left[..|left| - 1]
  {
  }

  lemma NotRolledBackLonger(ops: seq<Operation>, id: string)
    requires ops != []
    ensures NotRolledBack(ops, id) <==> NotRolledBack(ops[..|ops| - 1], id) && ops[|ops| - 1] != RollbackTransaction(id)
  {
    var n := |ops| - 1;
    assert ops == ops[..n] + [ops[n]];
    assert NotRolledBack(ops, id) ==> NotRolledBack(ops[..n], id) by {
      assert forall i | 0 <= i < n :: ops[..n][i] == ops[i];
    }
  }

  predicate Spares(op: Operation, tx: Transaction) {
    op.RollbackTransaction? ==> OtherThan(op.transactionId)(tx)
  }

  lemma SurvivesLonger(ops: seq<Operation>, tx: Transaction)
    requires ops != []
    ensures Survives(ops)(tx) <==> Survives(ops[..|ops| - 1])(tx) && Spares(ops[|ops| - 1], tx)
  {
    match IdOf(tx)
    case Some(Str(id)) => NotRolledBackLonger(ops, id);
    case _ =>
  }

  lemma TransactionsAfter(txs: seq<Transaction>, ops: seq<Operation>)
    requires ops != []
    ensures var n := |ops| - 1;
            var before := Filter(txs, Survives(ops[..n]));
            Filter(txs, Survives(ops))
            == if ops[n].RollbackTransaction? then Filter(before, OtherThan(ops[n].transactionId)) else before
  {
    var n := |ops| - 1;
    forall tx: Transaction
      ensures Survives(ops)(tx) <==> Survives(ops[..n])(tx) && Spares(ops[n], tx)
    {
      SurvivesLonger(ops, tx);
    }
    if ops[n].RollbackTransaction? {
      var id := ops[n].transactionId;
      FilterTwice(txs, Survives(ops[..n]), OtherThan(id));
      FilterAgrees(txs, Survives(ops), Both(Survives(ops[..n]), OtherThan(id)));
    } else {
      FilterAgrees(txs, Survives(ops), Survives(ops[..n]));
    }
  }

  lemma OneMoreRollback(f: Files, l: Ledger, ops: seq<Operation>)
    requires ops != [] && IsRollback(ops[|ops| - 1]) && f.ledger == Some(RolledBack(l, ops[..|ops| - 1]))
    ensures Step(f, ops[|ops| - 1]) == f.(ledger := Some(RolledBack(l, ops)))
  {
    var n := |ops| - 1;
    var before, after := RolledBack(l, ops[..n]), RolledBack(l, ops);
    match ops[n]
    case RollbackTransaction(id) =>
      TransactionsAfter(l.transactions, ops);
      assert after.transactions == Filter(before.transactions, OtherThan(id)) && after.blocks == before.blocks;
    case RollbackBlock =>
      TransactionsAfter(l.transactions, ops);
      BlocksAfter(l.blocks, BlockRollbacks(ops[..n]));
      assert after.transactions == before.transactions;
  }

  /**
   * From a ledger any list of rollbacks, failing ones included, leaves the transactions that were not
   * rolled back, in order, and the blocks but for as many of the last ones as there were block rollbacks.
   */
  lemma {:induction false} RollbacksInClosedForm(f: Files, ops: seq<Operation>)
    requires f.ledger.Some? && forall i | 0 <= i < |ops| :: IsRollback(ops[i])
    ensures Run(f, ops) == f.(ledger := Some(RolledBack(f.ledger.value, ops)))
  {
    var l := f.ledger.value;
    if ops == [] {
      FilterAll(l.transactions, Survives([]));
      assert l.blocks[..|l.blocks|] == l.blocks;
    } else {
      var n := |ops| - 1;
      assert IsRollback(ops[n]);
      RollbacksInClosedForm(f, ops[..n]);
      OneMoreRollback(Run(f, ops[..n]), l, ops);
    }
  }

  /** Snapshots taken anywhere among the rollbacks do not change what these leave of the ledger. */
  lemma {:induction false} RollbacksAmongSnapshots(f: Files, ops: seq<Operation>)
    requires f.ledger.Some? && forall i | 0 <= i < |ops| :: IsRollback(ops[i]) || ops[i].CreateSnapshot?
    ensures Run(f, ops).ledger == Some(RolledBack(f.ledger.value, ops))
  {
    var l := f.ledger.value;
    if ops == [] {
      RollbacksInClosedForm(f, []);
    } else {
      var n := |ops| - 1;
      RollbacksAmongSnapshots(f, ops[..n]);
      if IsRollback(ops[n]) {
        OneMoreRollback(Run(f, ops[..n]), l, ops);
      } else {
        assert ops[n].CreateSnapshot?;
        TransactionsAfter(l.transactions, ops);
      }
    }
  }

  /** What the rollbacks of a list come to, their order forgotten. */
  ghost predicate SameRollbacks(ops: seq<Operation>, others: seq<Operation>) {
    BlockRollbacks(ops) == BlockRollbacks(others) && forall id :: NotRolledBack(ops, id) <==> NotRolledBack(others, id)
  }

  lemma SameSurvivors(txs: seq<Transaction>, ops: seq<Operation>, others: seq<Operation>)
    requires forall id :: NotRolledBack(ops, id) <==> NotRolledBack(others, id)
    ensures Filter(txs, Survives(ops)) == Filter(txs, Survives(others))
  {
    forall tx | tx in txs
      ensures Survives(ops)(tx) == Survives(others)(tx)
    {
      match IdOf(tx)
      case Some(Str(id)) => assert NotRolledBack(ops, id) <==> NotRolledBack(others, id);
      case _ =>
    }
    FilterAgrees(txs, Survives(ops), Survives(others));
  }

  /** The order of rollbacks does not matter, nor how often one transaction is rolled back. */
  lemma {:induction false} RollbacksCommute(f: Files, ops: seq<Operation>, others: seq<Operation>)
    requires f.ledger.Some? && SameRollbacks(ops, others)
    requires forall i | 0 <= i < |ops| :: IsRollback(ops[i])
    requires forall i | 0 <= i < |others| :: IsRollback(others[i])
    ensures Run(f, ops) == Run(f, others)
  {
    RollbacksInClosedForm(f, ops);
    RollbacksInClosedForm(f, others);
    SameSurvivors(f.ledger.value.transactions, ops, others);
  }

  /** Two adjacent rollbacks of different kinds can be exchanged, and a repeated one dropped. */
  lemma KindsCommute(f: Files, id: string)
    requires f.ledger.Some?
    ensures Step(Step(f, RollbackTransaction(id)), RollbackBlock)
         == Step(Step(f, RollbackBlock), RollbackTransaction(id))
    ensures Step(Step(f, RollbackTransaction(id)), RollbackTransaction(id)) == Step(f, RollbackTransaction(id))
  {
    FilterTwice(f.ledger.value.transactions, OtherThan(id), OtherThan(id));
    FilterAgrees(f.ledger.value.transactions, OtherThan(id), Both(OtherThan(id), OtherThan(id)));
  }

  /** Rollbacks keep an accepted chain accepted, and what is left is a prefix of it. */
  lemma RollbacksKeepChain(f: Files, ops: seq<Operation>, genesis: string, checks: Checks)
    requires f.ledger.Some? && forall i | 0 <= i < |ops| :: IsRollback(ops[i])
    requires Accepted(f.ledger.value.blocks, genesis, checks)
    ensures Run(f, ops).ledger.Some?
    ensures Run(f, ops).ledger.value.blocks <= f.ledger.value.blocks
    ensures Accepted(Run(f, ops).ledger.value.blocks, genesis, checks)
  {
    RollbacksInClosedForm(f, ops);
    var blocks := f.ledger.value.blocks;
    PrefixAccepted(blocks, genesis, checks, |RolledBack(f.ledger.value, ops).blocks|);
  }

  // ----- snapshots -----

  lemma {:induction false} RunAppend(f: Files, ops: seq<Operation>, more: seq<Operation>)
    ensures Run(f, ops + more) == Run(Run(f, ops), more)
  {
    if more == [] {
      assert ops + more == ops;
    } else {
      var n := |more| - 1;
      RunAppend(f, ops, more[..n]);
      assert (ops + more)[..|ops| + n] == ops + more[..n];
    }
  }

  /** The same ledger, and the same snapshots but for one. */
  ghost predicate AgreeBut(f: Files, g: Files, id: string) {
    && f.ledger == g.ledger
    && forall other | other != id ::
         (other in f.backups <==> other in g.backups)
         && (other in f.backups ==> f.backups[other] == g.backups[other])
  }

  lemma {:induction false} RunsAgree(f: Files, g: Files, ops: seq<Operation>, id: string)
    requires AgreeBut(f, g, id) && forall i | 0 <= i < |ops| :: ops[i] != Restore(id)
    ensures AgreeBut(Run(f, ops), Run(g, ops), id)
  {
    if ops != [] {
      RunsAgree(f, g, ops[..|ops| - 1], id);
    }
  }

  /** A snapshot taken anywhere in a run has no effect on the ledger, unless it is restored later. */
  lemma SnapshotChangesNoLedger(f: Files, before: seq<Operation>, id: string, after: seq<Operation>)
    requires forall i | 0 <= i < |after| :: after[i] != Restore(id)
    ensures Run(f, before + [CreateSnapshot(id)] + after).ledger == Run(f, before + after).ledger
  {
    var g := Run(f, before);
    RunAppend(f, before + [CreateSnapshot(id)], after);
    RunAppend(f, before, [CreateSnapshot(id)]);
    RunAppend(f, before, after);
    assert [CreateSnapshot(id)][..0] == [];
    assert Run(g, [CreateSnapshot(id)]) == Step(g, CreateSnapshot(id));
    RunsAgree(Step(g, CreateSnapshot(id)), g, after, id);
  }

  lemma {:induction false} SnapshotKept(f: Files, ops: seq<Operation>, id: string)
    requires id in f.backups && forall i | 0 <= i < |ops| :: ops[i] != CreateSnapshot(id)
    ensures id in Run(f, ops).backups && Run(f, ops).backups[id] == f.backups[id]
  {
    if ops != [] {
      SnapshotKept(f, ops[..|ops| - 1], id);
    }
  }

  /**
   * Restoring brings back the ledger of the snapshot exactly, after any operations in between, other
   * snapshots and restores included, as long as the snapshot is not taken again.
   */
  lemma {:induction false} RestoreReturnsSnapshot(f: Files, ops: seq<Operation>, id: string)
    requires f.ledger.Some? && forall i | 0 <= i < |ops| :: ops[i] != CreateSnapshot(id)
    ensures var after := Run(Step(f, CreateSnapshot(id)), ops);
            !Fails(after, Restore(id)) && Step(after, Restore(id)).ledger == f.ledger
  {
    SnapshotKept(Step(f, CreateSnapshot(id)), ops, id);
  }

  /** Over any run of snapshots, restores and rollbacks the ledger and every snapshot stay accepted chains. */
  lemma {:induction false} RunsKeepChains(f: Files, ops: seq<Operation>, genesis: string, checks: Checks)
    requires f.ledger.Some? ==> Accepted(f.ledger.value.blocks, genesis, checks)
    requires forall id | id in f.backups :: Accepted(f.backups[id].blocks, genesis, checks)
    ensures Run(f, ops).ledger.Some? ==> Accepted(Run(f, ops).ledger.value.blocks, genesis, checks)
    ensures forall id | id in Run(f, ops).backups :: Accepted(Run(f, ops).backups[id].blocks, genesis, checks)
  {
    if ops != [] {
      var n := |ops| - 1;
      RunsKeepChains(f, ops[..n], genesis, checks);
      var q := Run(f, ops[..n]);
      if ops[n].RollbackBlock? && !Fails(q, RollbackBlock) {
        PrefixAccepted(q.ledger.value.blocks, genesis, checks, |q.ledger.value.blocks| - 1);
      }
    }
  }
}
