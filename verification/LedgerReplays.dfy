/**
 Replay: which transfers can occur twice, what the ledger remembers, and what that memory
 does to blocks from peers.
 */
module LedgerReplays {
  import opened Hex
  import opened Ledger
  import opened LedgerRuns

  // ---------- Across blocks ----------

  /** No hash of a non-system transaction occurs in two different blocks. */
  ghost predicate ReplayFree(chain: seq<BlockData>, f: Functions) {
    forall i, j, k, l :: 0 <= i < j < |chain| && 0 <= k < |chain[i].transactions| && 0 <= l < |chain[j].transactions|
      ==> NotReplayed(chain[i].transactions[k], chain[j].transactions[l], f)
  }

  predicate NotReplayed(t: Transaction, u: Transaction, f: Functions) {
    t.sender != SYSTEM && u.sender != SYSTEM ==> f.transactionHash(t) != f.transactionHash(u)
  }

  lemma {:induction false} InHistory(chain: seq<BlockData>, i: nat, k: nat, f: Functions)
    requires i < |chain| && k < |chain[i].transactions|
    ensures HashAmong(f.transactionHash(chain[i].transactions[k]), History(chain), f)
    decreases |chain|
  {
    var n := |chain| - 1;
    HashesConcat(History(chain[..n]), chain[n].transactions, f);
    if i < n {
      InHistory(chain[..n], i, k, f);
    } else {
      assert Hashes(chain[n].transactions, f)[k] == f.transactionHash(chain[i].transactions[k]);
    }
  }

  lemma AppendReplayFree(chain: seq<BlockData>, b: BlockData, f: Functions)
    requires ReplayFree(chain, f)
    requires forall l :: 0 <= l < |b.transactions| ==>
      b.transactions[l].sender == SYSTEM || !HashAmong(f.transactionHash(b.transactions[l]), History(chain), f)
    ensures ReplayFree(chain + [b], f)
  {
    hide HashAmong, History;
    var grown := chain + [b];
    forall i, j, k, l |
      0 <= i < j < |grown| && 0 <= k < |grown[i].transactions| && 0 <= l < |grown[j].transactions|
      ensures NotReplayed(grown[i].transactions[k], grown[j].transactions[l], f)
    {
      assert grown[i] == chain[i];
      if j < |chain| {
        assert grown[j] == chain[j];
      } else {
        InHistory(chain, i, k, f);
      }
    }
  }

  lemma MinedReplayFree(s: State, reward: Transaction, now: int, nonce: int, f: Functions)
    requires Sound(s, f) && ReplayFree(s.chain, f) && Positioned(s.chain) && reward.sender == SYSTEM
    ensures ReplayFree(Mined(s, reward, now, nonce, f).chain, f) && Positioned(Mined(s, reward, now, nonce, f).chain)
  {
    hide ReplayFree, HashAmong, History, ValidTransaction, RequiredDifficulty, MerkleRoot, BlockHash, Distinct;
    AppendReplayFree(s.chain, Sealed(Template(s, reward, now, f), nonce, f), f);
  }

  lemma StepKeepsReplayFree(s: State, op: Operation, f: Functions)
    requires Sound(s, f) && ReplayFree(s.chain, f) && Positioned(s.chain) && !op.Load?
    ensures ReplayFree(Next(s, op, f).chain, f) && Positioned(Next(s, op, f).chain)
  {
    hide ReplayFree, HashAmong, History, Template, Sealed, Mined, ValidWithDifficulty, RequiredDifficulty, OneReward;
    match op
    case Submit(_) =>
    case Mine(address, time, salt, now, nonce) =>
      var reward := RewardTransaction(s, address, time, salt);
      MinedReplayFree(s, reward, now, nonce, f);
    case SetReward(_) =>
    case Receive(b) =>
      if Admissible(s, b, f) {
        AppendReplayFree(s.chain, b, f);
      }
  }

  lemma {:induction false} RunKeepsReplayFree(s: State, ops: seq<Operation>, f: Functions)
    requires Sound(s, f) && ReplayFree(s.chain, f) && Positioned(s.chain)
    requires forall i :: 0 <= i < |ops| ==> !ops[i].Load?
    ensures
      var end := After(s, ops, f);
      Sound(end, f) && ReplayFree(end.chain, f) && Positioned(end.chain)
    decreases |ops|
  {
    hide Next, Fresh, Replayed, History, ReplayFree, Positioned;
    if ops != [] {
      StepKeepsSound(s, ops[0], f);
      StepKeepsReplayFree(s, ops[0], f);
      RunKeepsReplayFree(Next(s, ops[0], f), ops[1..], f);
    }
  }


  // ---------- Anywhere in the history ----------

  /** No hash of a non-system transaction occurs twice, in two blocks or in one. */
  ghost predicate RepeatFree(history: seq<Transaction>, f: Functions) {
    forall i, j :: 0 <= i < j < |history| ==> NotReplayed(history[i], history[j], f)
  }

  ghost predicate Unseen(history: seq<Transaction>, transactions: seq<Transaction>, f: Functions) {
    forall i :: 0 <= i < |transactions| ==>
      transactions[i].sender == SYSTEM || !HashAmong(f.transactionHash(transactions[i]), history, f)
  }

  lemma IsAmong(history: seq<Transaction>, i: nat, f: Functions)
    requires i < |history|
    ensures HashAmong(f.transactionHash(history[i]), history, f)
  {
    assert Hashes(history, f)[i] == f.transactionHash(history[i]);
  }

  lemma PartsRepeatFree(history: seq<Transaction>, more: seq<Transaction>, f: Functions)
    requires RepeatFree(history + more, f)
    ensures RepeatFree(history, f) && RepeatFree(more, f)
  {
    var all := history + more;
    forall i, j | 0 <= i < j < |history|
      ensures NotReplayed(history[i], history[j], f)
    {
      assert NotReplayed(all[i], all[j], f);
    }
    forall i, j | 0 <= i < j < |more|
      ensures NotReplayed(more[i], more[j], f)
    {
      assert NotReplayed(all[|history| + i], all[|history| + j], f);
    }
  }

  lemma AppendRepeatFreeExactly(history: seq<Transaction>, more: seq<Transaction>, f: Functions)
    requires RepeatFree(history, f) && Unseen(history, more, f)
    ensures RepeatFree(history + more, f) <==> RepeatFree(more, f)
  {
    hide HashAmong;
    var all := history + more;
    if RepeatFree(all, f) {
      PartsRepeatFree(history, more, f);
    }
    if RepeatFree(more, f) {
      forall i, j | 0 <= i < j < |all|
        ensures NotReplayed(all[i], all[j], f)
      {
        if j < |history| {
          assert NotReplayed(history[i], history[j], f);
        } else if i < |history| {
          IsAmong(history, i, f);
        } else {
          assert NotReplayed(more[i - |history|], more[j - |history|], f);
        }
      }
    }
  }

  /** Accepting a block keeps the history free of repeats exactly when the block is free of them itself. */
  lemma ReceivedRepeatFreeExactly(s: State, b: BlockData, f: Functions)
    requires s.chain != [] && RepeatFree(History(s.chain), f) && Admissible(s, b, f)
    ensures RepeatFree(History(Received(s, b, f).chain), f) <==> RepeatFree(b.transactions, f)
  {
    hide HashAmong, History, Extends, OneReward, RepeatFree;
    HistoryAppend(s.chain, b);
    AppendRepeatFreeExactly(History(s.chain), b.transactions, f);
  }

  /** A pool whose hashes are distinct makes, with a mint, a block free of repeats. */
  lemma PoolRepeatFree(pool: seq<Transaction>, mint: Transaction, f: Functions)
    requires Distinct(Hashes(pool, f)) && mint.sender == SYSTEM
    ensures RepeatFree(pool + [mint], f)
  {
    var all := pool + [mint];
    forall i, j | 0 <= i < j < |all|
      ensures NotReplayed(all[i], all[j], f)
    {
      if j < |pool| {
        assert Hashes(pool, f)[i] != Hashes(pool, f)[j];
      }
    }
  }

  /** Local mining always keeps it. */
  lemma MinedRepeatFree(s: State, reward: Transaction, now: int, nonce: int, f: Functions)
    requires Sound(s, f) && RepeatFree(History(s.chain), f) && reward.sender == SYSTEM
    ensures RepeatFree(History(Mined(s, reward, now, nonce, f).chain), f)
  {
    hide HashAmong, History, Hashes, ValidTransaction, RepeatFree, Distinct, RequiredDifficulty, MerkleRoot, BlockHash, Replayed;
    if ValidTransaction(reward, f) {
      HistoryAppend(s.chain, Sealed(Template(s, reward, now, f), nonce, f));
      PoolRepeatFree(s.pool, reward, f);
      AppendRepeatFreeExactly(History(s.chain), s.pool + [reward], f);
    }
  }

  /** What only the sender of a block can see to: an accepted block does not repeat itself. */
  ghost predicate CleanStep(s: State, op: Operation, f: Functions)
    requires s.chain != []
  {
    op.Receive? && Admissible(s, op.block, f) ==> RepeatFree(op.block.transactions, f)
  }

  ghost predicate CleanRun(s: State, ops: seq<Operation>, f: Functions)
    requires s.chain != []
    decreases |ops|
  {
    ops == [] || (CleanStep(s, ops[0], f) && CleanRun(Next(s, ops[0], f), ops[1..], f))
  }

  lemma StepRepeatFreeExactly(s: State, op: Operation, f: Functions)
    requires Sound(s, f) && RepeatFree(History(s.chain), f) && !op.Load?
    ensures RepeatFree(History(Next(s, op, f).chain), f) <==> CleanStep(s, op, f)
  {
    hide RepeatFree, History, Fresh, Replayed, Admissible, Mined, Acceptable;
    match op
    case Submit(_) =>
    case Mine(address, time, salt, now, nonce) =>
      MinedRepeatFree(s, RewardTransaction(s, address, time, salt), now, nonce, f);
    case SetReward(_) =>
    case Receive(b) =>
      if Admissible(s, b, f) {
        ReceivedRepeatFreeExactly(s, b, f);
      }
  }

  /** Without loads the history only grows at its end. */
  lemma StepExtends(s: State, op: Operation, f: Functions) returns (more: seq<Transaction>)
    requires s.chain != [] && !op.Load?
    ensures History(Next(s, op, f).chain) == History(s.chain) + more
  {
    hide History, Replayed, Admissible, Template, Sealed, ValidTransaction, Acceptable;
    var after := Next(s, op, f);
    if after.chain == s.chain {
      more := [];
      assert History(s.chain) + [] == History(s.chain);
    } else {
      var b := after.chain[|s.chain|];
      assert after.chain == s.chain + [b];
      HistoryAppend(s.chain, b);
      more := b.transactions;
    }
  }

  lemma {:induction false} RunKeepsRepeats(s: State, ops: seq<Operation>, f: Functions)
    requires s.chain != [] && (forall i :: 0 <= i < |ops| ==> !ops[i].Load?)
    requires RepeatFree(History(After(s, ops, f).chain), f)
    ensures RepeatFree(History(s.chain), f)
    decreases |ops|
  {
    hide RepeatFree, History, Next;
    if ops != [] {
      RunKeepsRepeats(Next(s, ops[0], f), ops[1..], f);
      var more := StepExtends(s, ops[0], f);
      PartsRepeatFree(History(s.chain), more, f);
    }
  }

  lemma {:induction false} RunRepeatFreeExactly(s: State, ops: seq<Operation>, f: Functions)
    requires Sound(s, f) && RepeatFree(History(s.chain), f) && forall i :: 0 <= i < |ops| ==> !ops[i].Load?
    ensures RepeatFree(History(After(s, ops, f).chain), f) <==> CleanRun(s, ops, f)
    decreases |ops|
  {
    hide RepeatFree, History, Next, Fresh, Replayed, CleanStep;
    if ops != [] {
      var next := Next(s, ops[0], f);
      StepKeepsSound(s, ops[0], f);
      StepRepeatFreeExactly(s, ops[0], f);
      if CleanStep(s, ops[0], f) {
        RunRepeatFreeExactly(next, ops[1..], f);
      } else if RepeatFree(History(After(s, ops, f).chain), f) {
        RunKeepsRepeats(next, ops[1..], f);
      }
    }
  }

  /**
   In every run without loads from a fresh ledger: no non-system transaction hash is in two
   different blocks, no pooled hash is in the chain or twice in the pool, and every block
   stands at its own index. And no such hash is in the history twice, exactly when no accepted
   block repeats itself.
   */
  lemma NoReplayWithoutLoad(s: State, ops: seq<Operation>, difficulty: int, reward: int, now: int, nonce: int, f: Functions)
    requires Initial(s, difficulty, reward, now, nonce, f) && Run(s, ops, f)
    requires forall i :: 0 <= i < |ops| ==> !ops[i].Load?
    ensures
      var end := After(s, ops, f);
      && ReplayFree(end.chain, f) && Fresh(end.pool, History(end.chain), f) && Positioned(end.chain)
      && (RepeatFree(History(end.chain), f) <==> CleanRun(s, ops, f))
  {
    GenesisSound(s, difficulty, reward, now, nonce, f);
    assert ReplayFree(s.chain, f);
    assert RepeatFree(History(s.chain), f);
    hide Initial, Run, ReplayFree, RepeatFree, Positioned, History, CleanRun;
    RunKeepsReplayFree(s, ops, f);
    RunRepeatFreeExactly(s, ops, f);
  }

  /** So a run of submitting, mining and changing the reward never repeats a transfer. */
  lemma {:induction false} LocalRunsAreClean(s: State, ops: seq<Operation>, f: Functions)
    requires s.chain != [] && forall i :: 0 <= i < |ops| ==> Local(ops[i])
    ensures CleanRun(s, ops, f)
    decreases |ops|
  {
    hide Next, Admissible, RepeatFree;
    if ops != [] {
      assert Local(ops[0]);
      LocalRunsAreClean(Next(s, ops[0], f), ops[1..], f);
    }
  }

  lemma LocalIsNotLoad(ops: seq<Operation>)
    requires forall i :: 0 <= i < |ops| ==> Local(ops[i])
    ensures forall i :: 0 <= i < |ops| ==> !ops[i].Load?
  {
    assert forall i :: 0 <= i < |ops| ==> Local(ops[i]);
  }

  lemma LocalRunsNeverRepeat(s: State, ops: seq<Operation>, difficulty: int, reward: int, now: int, nonce: int, f: Functions)
    requires Initial(s, difficulty, reward, now, nonce, f) && Run(s, ops, f)
    requires forall i :: 0 <= i < |ops| ==> Local(ops[i])
    ensures RepeatFree(History(After(s, ops, f).chain), f)
  {
    GenesisSound(s, difficulty, reward, now, nonce, f);
    LocalIsNotLoad(ops);
    hide *;
    NoReplayWithoutLoad(s, ops, difficulty, reward, now, nonce, f);
    LocalRunsAreClean(s, ops, f);
  }

  // ---------- The pool and peer blocks ----------

  /** What the pool adds to the test of a block: none of the block's transfers may be pending here. */
  predicate PoolMisses(s: State, b: BlockData, f: Functions) {
    forall i :: 0 <= i < |b.transactions| ==>
      b.transactions[i].sender == SYSTEM || !HashAmong(f.transactionHash(b.transactions[i]), s.pool, f)
  }

  /**
   A node refuses an otherwise admissible block exactly when a transfer of the block is
   pending in its own pool; clearing the pool is all it takes to have it accepted.
   */
  lemma PoolVetoesBlocks(s: State, b: BlockData, f: Functions)
    requires s.chain != []
    ensures Admissible(s, b, f) <==> Admissible(s.(pool := []), b, f) && PoolMisses(s, b, f)
  {
    hide ValidWithDifficulty, RequiredDifficulty, OneReward, History;
    forall t
      ensures !HashAmong(f.transactionHash(t), [], f)
    {
    }
    hide HashAmong;
  }

  /**
   So the sweep of the pool after a block is accepted never removes a transfer the block
   carries: whatever it removes shares its hash with the block's mint.
   */
  lemma SweepDropsOnlyMintHashes(s: State, b: BlockData, t: Transaction, f: Functions)
    requires s.chain != [] && Admissible(s, b, f) && t in s.pool
    ensures t in Received(s, b, f).pool
         || exists i :: 0 <= i < |b.transactions| && b.transactions[i].sender == SYSTEM
                        && f.transactionHash(b.transactions[i]) == f.transactionHash(t)
  {
    hide Extends, OneReward, History;
    if HashAmong(f.transactionHash(t), b.transactions, f) {
      var i :| 0 <= i < |b.transactions| && Hashes(b.transactions, f)[i] == f.transactionHash(t);
      var j :| 0 <= j < |s.pool| && s.pool[j] == t;
      assert Hashes(s.pool, f)[j] == f.transactionHash(b.transactions[i]);
      assert HashAmong(f.transactionHash(b.transactions[i]), s.pool, f);
    } else {
      KeptBySweep(s.pool, b.transactions, t, f);
    }
  }

  lemma {:induction false} KeptBySweep(pool: seq<Transaction>, included: seq<Transaction>, t: Transaction, f: Functions)
    requires t in pool
    ensures t in Without(pool, included, f) <==> !HashAmong(f.transactionHash(t), included, f)
  {
    hide HashAmong;
    var n := |pool| - 1;
    if t in pool[..n] {
      KeptBySweep(pool[..n], included, t, f);
    } else if t in Without(pool[..n], included, f) {
      assert false;
    }
  }

  // ---------- What the ledger remembers ----------

  /** A hash that leaves the pool is found in the chain afterwards. */
  lemma SweptIsIncluded(hash: seq<byte>, pool: seq<Transaction>, included: seq<Transaction>, f: Functions)
    requires HashAmong(hash, pool, f)
    ensures HashAmong(hash, Without(pool, included, f), f) || HashAmong(hash, included, f)
  {
    var i :| 0 <= i < |pool| && Hashes(pool, f)[i] == hash;
    KeptBySweep(pool, included, pool[i], f);
    var kept := Without(pool, included, f);
    if pool[i] in kept {
      var j :| 0 <= j < |kept| && kept[j] == pool[i];
      IsAmong(kept, j, f);
    }
  }

  lemma AmongConcat(hash: seq<byte>, a: seq<Transaction>, b: seq<Transaction>, f: Functions)
    ensures HashAmong(hash, a + b, f) <==> HashAmong(hash, a, f) || HashAmong(hash, b, f)
  {
    HashesConcat(a, b, f);
    hide Hashes;
  }

  lemma StepRemembers(s: State, op: Operation, t: Transaction, f: Functions)
    requires Sound(s, f) && Exists(s, t, f) && !op.Load?
    ensures Exists(Next(s, op, f), t, f)
  {
    hide HashAmong, History, Replayed, Distinct, ValidTransaction, Without, RequiredDifficulty, MerkleRoot, BlockHash, Admissible;
    var hash := f.transactionHash(t);
    match op
    case Submit(u) =>
      AmongConcat(hash, s.pool, [u], f);
    case Mine(address, time, salt, now, nonce) =>
      var reward := RewardTransaction(s, address, time, salt);
      HistoryAppend(s.chain, Sealed(Template(s, reward, now, f), nonce, f));
      AmongConcat(hash, History(s.chain), s.pool + [reward], f);
      AmongConcat(hash, s.pool, [reward], f);
    case SetReward(_) =>
    case Receive(b) =>
      HistoryAppend(s.chain, b);
      AmongConcat(hash, History(s.chain), b.transactions, f);
      if HashAmong(hash, s.pool, f) {
        SweptIsIncluded(hash, s.pool, b.transactions, f);
      }
  }

  /** Without loads nothing is forgotten: what was once pending or mined is pending or mined ever after. */
  lemma {:induction false} NeverForgotten(s: State, ops: seq<Operation>, t: Transaction, f: Functions)
    requires Sound(s, f) && Exists(s, t, f) && forall i :: 0 <= i < |ops| ==> !ops[i].Load?
    ensures Exists(After(s, ops, f), t, f)
    decreases |ops|
  {
    hide Fresh, Replayed, History, Next, Exists;
    if ops != [] {
      StepKeepsSound(s, ops[0], f);
      StepRemembers(s, ops[0], t, f);
      NeverForgotten(Next(s, ops[0], f), ops[1..], t, f);
    }
  }

  /**
   So the veto is not a delay. A node that has a transfer of a block pending refuses that
   block after every run without loads, whatever it mines, submits or receives meanwhile.
   */
  lemma VetoIsPermanent(s: State, ops: seq<Operation>, b: BlockData, f: Functions)
    requires Sound(s, f) && !PoolMisses(s, b, f) && forall i :: 0 <= i < |ops| ==> !ops[i].Load?
    ensures !Admissible(After(s, ops, f), b, f)
  {
    hide Fresh, Replayed, History, HashAmong, Extends, OneReward, Next;
    var i :| 0 <= i < |b.transactions| && b.transactions[i].sender != SYSTEM
             && HashAmong(f.transactionHash(b.transactions[i]), s.pool, f);
    NeverForgotten(s, ops, b.transactions[i], f);
  }
}
