/**
 Solvency: submitting and mining keep every address able to pay; a block from a peer does so
 exactly when it meets a condition that the node does not check.
 */
module LedgerSolvency {
  import opened Ledger
  import opened LedgerSums
  import opened LedgerRuns

  // ---------- Submitting and mining ----------

  /** The history has never been overdrawn and each sender can pay for everything it has pending. */
  ghost predicate Solvent(s: State) {
    NeverOverdrawn(History(s.chain)) && Covered(History(s.chain), s.pool)
  }

  lemma SubmittedCovered(s: State, t: Transaction, f: Functions)
    requires Sound(s, f) && Covered(History(s.chain), s.pool) && Acceptable(s, t, f)
    ensures Covered(History(s.chain), s.pool + [t])
  {
    var history := History(s.chain);
    CacheIsNet(history, t.sender);
    forall address | address != SYSTEM
      ensures Outflow(s.pool + [t], address) <= Net(history, address)
    {
      assert (s.pool + [t])[..|s.pool|] == s.pool;
    }
  }

  /** Neither the chain nor the pool holds a transaction with this hash. */
  ghost predicate Unknown(s: State, t: Transaction, f: Functions) {
    && (forall i :: 0 <= i < |History(s.chain)| ==> f.transactionHash(History(s.chain)[i]) != f.transactionHash(t))
    && forall i :: 0 <= i < |s.pool| ==> f.transactionHash(s.pool[i]) != f.transactionHash(t)
  }

  lemma UnknownExactly(s: State, t: Transaction, f: Functions)
    ensures Exists(s, t, f) <==> !Unknown(s, t, f)
  {
    hide History;
    var history := History(s.chain);
    forall i | 0 <= i < |history|
      ensures Hashes(history, f)[i] == f.transactionHash(history[i])
    {
    }
    forall i | 0 <= i < |s.pool|
      ensures Hashes(s.pool, f)[i] == f.transactionHash(s.pool[i])
    {
    }
  }

  /**
   Submission keeps as much as it can: while all that is pending is covered by the history, a
   transaction enters the pool exactly when it is valid, unknown, and leaves everything
   pending covered.
   */
  lemma PoolGrowsExactly(s: State, t: Transaction, f: Functions)
    requires Sound(s, f) && Covered(History(s.chain), s.pool)
    ensures
      var entered := ValidTransaction(t, f) && Unknown(s, t, f) && Covered(History(s.chain), s.pool + [t]);
      Submitted(s, t, f) == if entered then s.(pool := s.pool + [t]) else s
  {
    hide ValidTransaction, Unknown, Exists, Fresh, Replayed, History;
    UnknownExactly(s, t, f);
    CoveredWithExactly(s, History(s.chain), t);
  }

  lemma CoveredWithExactly(s: State, history: seq<Transaction>, t: Transaction)
    requires s.balances == Replayed(history) && Covered(history, s.pool)
    ensures Covered(history, s.pool + [t])
       <==> t.sender == SYSTEM || BalanceOf(s.balances, t.sender) - Outflow(s.pool, t.sender) >= t.amount
  {
    hide Replayed;
    CacheIsNet(history, t.sender);
    assert (s.pool + [t])[..|s.pool|] == s.pool;
    forall address | address != t.sender
      ensures Outflow(s.pool + [t], address) == Outflow(s.pool, address)
    {
    }
    assert Outflow(s.pool + [t], t.sender) == Outflow(s.pool, t.sender) + t.amount;
  }

  lemma RewardCovered(history: seq<Transaction>, pool: seq<Transaction>, reward: Transaction)
    requires reward.sender == SYSTEM && Covered(history, pool)
    ensures Covered(history, pool + [reward])
  {
    hide Net;
    forall address | address != SYSTEM
      ensures Outflow(pool + [reward], address) == Outflow(pool, address)
    {
      assert (pool + [reward])[..|pool|] == pool;
    }
  }

  lemma NothingPending(history: seq<Transaction>)
    requires NeverOverdrawn(history)
    ensures Covered(history, [])
  {
    hide Net;
    assert history[..|history|] == history;
  }

  lemma MinedSolvent(s: State, reward: Transaction, now: int, nonce: int, f: Functions)
    requires Sound(s, f) && Solvent(s) && reward.sender == SYSTEM
    ensures Solvent(Mined(s, reward, now, nonce, f))
  {
    hide Covered, NeverOverdrawn, Net, Replayed, History, Hashes;
    if ValidTransaction(reward, f) {
      var b := Sealed(Template(s, reward, now, f), nonce, f);
      var history := History(s.chain);
      HistoryAppend(s.chain, b);
      RewardCovered(history, s.pool, reward);
      CoveredKeepsHistory(history, s.pool + [reward]);
      NothingPending(history + (s.pool + [reward]));
    }
  }

  // ---------- Appending a block ----------

  lemma BlockAmountsPositive(b: BlockData, f: Functions)
    requires ValidBlock(b, f)
    ensures Positive(b.transactions)
  {
  }

  /** The check addBlock leaves out, for one address. */
  predicate Payable(s: State, transactions: seq<Transaction>, address: string) {
    Outflow(transactions, address) <= BalanceOf(s.balances, address) + Inflow(transactions, address)
  }

  predicate Sends(transactions: seq<Transaction>, address: string) {
    exists i :: 0 <= i < |transactions| && transactions[i].sender == address && address != SYSTEM
  }

  lemma {:induction false} SendsNothing(transactions: seq<Transaction>, address: string)
    requires !Sends(transactions, address) && address != SYSTEM
    ensures Outflow(transactions, address) == 0
  {
    if transactions != [] {
      var n := |transactions| - 1;
      assert transactions[n].sender != address;
      forall i | 0 <= i < n
        ensures transactions[..n][i].sender != address
      {
        assert transactions[i].sender != address;
      }
      SendsNothing(transactions[..n], address);
    }
  }

  ghost predicate NonNegative(balances: Balances) {
    forall address :: BalanceOf(balances, address) >= 0
  }

  /** Appending a block leaves all balances non-negative exactly when each sender in it can pay out of its balance and its receipts. */
  lemma AppendedSolventExactly(s: State, b: BlockData, pool: seq<Transaction>)
    requires s.balances == Replayed(History(s.chain)) && Positive(b.transactions)
    requires NonNegative(s.balances)
    ensures NonNegative(Appended(s, b, pool).balances) <==> EachPayable(s, b.transactions)
  {
    var history, after := History(s.chain), Appended(s, b, pool);
    HistoryAppend(s.chain, b);
    hide Replayed, History, Outflow, Inflow;
    forall address
      ensures BalanceOf(after.balances, address)
           == BalanceOf(s.balances, address) + Net(b.transactions, address)
    {
      CacheIsNet(history, address);
      CacheIsNet(history + b.transactions, address);
      NetConcat(history, b.transactions, address);
    }
    forall address | !Sends(b.transactions, address)
      ensures Net(b.transactions, address) >= 0
    {
      if address != SYSTEM {
        SendsNothing(b.transactions, address);
      }
      SumsNonNegative(b.transactions, address);
    }
    forall address
      ensures BalanceOf(after.balances, address) >= 0 <== (Sends(b.transactions, address) ==> Payable(s, b.transactions, address))
      ensures BalanceOf(after.balances, address) >= 0 && address != SYSTEM ==> Payable(s, b.transactions, address)
    {
      SumsNonNegative(b.transactions, address);
    }
  }

  predicate EachPayable(s: State, transactions: seq<Transaction>) {
    forall i :: 0 <= i < |transactions| && transactions[i].sender != SYSTEM ==> Payable(s, transactions, transactions[i].sender)
  }

  /**
   Accepting a block leaves every balance non-negative exactly when each address can pay for
   what it sends in the block out of its balance and what it receives in the block. The node
   does not check this.
   */
  lemma AcceptedBlockSolventExactly(s: State, b: BlockData, f: Functions)
    requires Sound(s, f) && Admissible(s, b, f)
    requires NonNegative(s.balances)
    ensures NonNegative(Received(s, b, f).balances) <==> EachPayable(s, b.transactions)
  {
    BlockAmountsPositive(b, f);
    AppendedSolventExactly(s, b, Without(s.pool, b.transactions, f));
    hide Fresh, Replayed, History, Extends, NoReplay, OneReward, EachPayable, NonNegative;
  }

  /**
   Mining from any sound state, also one that a peer block has left short, does so exactly
   when each address can pay for what it has pending. Mining does not check this either.
   */
  lemma MinedSolventExactly(s: State, reward: Transaction, now: int, nonce: int, f: Functions)
    requires Sound(s, f) && ValidTransaction(reward, f)
    requires NonNegative(s.balances)
    ensures NonNegative(Mined(s, reward, now, nonce, f).balances) <==> EachPayable(s, s.pool + [reward])
  {
    ValidArePositive(s.pool, reward, f);
    AppendedSolventExactly(s, Sealed(Template(s, reward, now, f), nonce, f), []);
    hide Replayed, History, ValidTransaction, EachPayable, NonNegative, Positive, RequiredDifficulty, MerkleRoot, BlockHash, Distinct;
  }

  lemma ValidArePositive(pool: seq<Transaction>, reward: Transaction, f: Functions)
    requires AllValid(pool, f) && ValidTransaction(reward, f)
    ensures Positive(pool) && Positive(pool + [reward])
  {
  }

  // ---------- Peer blocks in a solvent ledger ----------

  /** In its turn within the block, the sender of a transfer can pay for it. */
  predicate Affordable(s: State, transactions: seq<Transaction>, i: nat)
    requires i < |transactions|
  {
    var sender := transactions[i].sender;
    sender == SYSTEM
    || Outflow(transactions[..i + 1], sender) <= BalanceOf(s.balances, sender) + Inflow(transactions[..i + 1], sender)
  }

  predicate AffordableInOrder(s: State, transactions: seq<Transaction>) {
    forall i :: 0 <= i < |transactions| ==> Affordable(s, transactions, i)
  }

  /** What an address keeps after the block still pays for what it has pending here. */
  predicate PayableBesidePool(s: State, b: BlockData, address: string, f: Functions) {
    Outflow(b.transactions, address) + Outflow(Without(s.pool, b.transactions, f), address)
    <= BalanceOf(s.balances, address) + Inflow(b.transactions, address)
  }

  predicate SparesPool(s: State, b: BlockData, f: Functions) {
    forall i :: 0 <= i < |b.transactions| && b.transactions[i].sender != SYSTEM ==>
      PayableBesidePool(s, b, b.transactions[i].sender, f)
  }

  lemma {:induction false} AffordablePrefix(s: State, history: seq<Transaction>, more: seq<Transaction>, k: nat, address: string)
    requires k <= |more| && Positive(more) && s.balances == Replayed(history)
    requires AffordableInOrder(s, more) && Net(history, address) >= 0
    ensures Net(history + more[..k], address) >= 0
    decreases k
  {
    hide Replayed;
    if k == 0 {
      assert history + more[..0] == history;
    } else {
      var last := more[k - 1];
      AffordablePrefix(s, history, more, k - 1, address);
      assert more[..k][..k - 1] == more[..k - 1];
      NetConcat(history, more[..k], address);
      NetConcat(history, more[..k - 1], address);
      CacheIsNet(history, address);
      assert Affordable(s, more, k - 1);
    }
  }

  lemma AffordableKeepsExactly(s: State, history: seq<Transaction>, more: seq<Transaction>)
    requires s.balances == Replayed(history) && NeverOverdrawn(history) && Positive(more)
    ensures NeverOverdrawn(history + more) <==> AffordableInOrder(s, more)
  {
    hide Net, Replayed, Positive;
    var all := history + more;
    if NeverOverdrawn(all) {
      forall i | 0 <= i < |more|
        ensures Affordable(s, more, i)
      {
        AffordableFromNet(s, history, more, i);
      }
    }
    if AffordableInOrder(s, more) {
      forall n, address | 0 <= n <= |all|
        ensures Net(all[..n], address) >= 0
      {
        if n <= |history| {
          assert all[..n] == history[..n];
        } else {
          assert all[..n] == history + more[..n - |history|];
          assert history[..|history|] == history;
          AffordablePrefix(s, history, more, n - |history|, address);
        }
      }
    }
  }

  lemma AffordableFromNet(s: State, history: seq<Transaction>, more: seq<Transaction>, i: nat)
    requires s.balances == Replayed(history) && i < |more| && NeverOverdrawn(history + more)
    ensures Affordable(s, more, i)
  {
    hide Replayed, Outflow, Inflow;
    var all, sender := history + more, more[i].sender;
    assert all[..|history| + i + 1] == history + more[..i + 1];
    assert Net(all[..|history| + i + 1], sender) >= 0;
    NetConcat(history, more[..i + 1], sender);
    CacheIsNet(history, sender);
  }

  lemma {:induction false} SweptOutflow(pool: seq<Transaction>, included: seq<Transaction>, address: string, f: Functions)
    requires Positive(pool)
    ensures Outflow(Without(pool, included, f), address) <= Outflow(pool, address)
  {
    if pool != [] {
      var n := |pool| - 1;
      var kept := Without(pool[..n], included, f);
      SweptOutflow(pool[..n], included, address, f);
      assert (kept + [pool[n]])[..|kept|] == kept && kept + [] == kept;
    }
  }

  lemma SparesPoolExactly(s: State, b: BlockData, f: Functions)
    requires s.balances == Replayed(History(s.chain)) && Positive(b.transactions) && Positive(s.pool)
    requires Covered(History(s.chain), s.pool)
    ensures Covered(History(s.chain) + b.transactions, Without(s.pool, b.transactions, f)) <==> SparesPool(s, b, f)
  {
    hide Replayed, History, Outflow, Inflow, Without, Positive;
    var history, kept := History(s.chain), Without(s.pool, b.transactions, f);
    forall address | address != SYSTEM
      ensures Outflow(kept, address) <= Net(history + b.transactions, address) <==> PayableBesidePool(s, b, address, f)
      ensures !Sends(b.transactions, address) ==> PayableBesidePool(s, b, address, f)
    {
      NetConcat(history, b.transactions, address);
      CacheIsNet(history, address);
      SweptOutflow(s.pool, b.transactions, address, f);
      SumsNonNegative(b.transactions, address);
      if !Sends(b.transactions, address) {
        SendsNothing(b.transactions, address);
      }
    }
    if SparesPool(s, b, f) {
      forall address | address != SYSTEM
        ensures PayableBesidePool(s, b, address, f)
      {
      }
    }
  }

  /**
   A peer block keeps a solvent ledger solvent, with every pending transfer still payable,
   exactly when each of its transfers is affordable in its turn and each of its senders can
   still pay for what it has pending.
   */
  lemma ReceivedSolventExactly(s: State, b: BlockData, f: Functions)
    requires Sound(s, f) && Solvent(s) && Admissible(s, b, f)
    ensures Solvent(Received(s, b, f)) <==> AffordableInOrder(s, b.transactions) && SparesPool(s, b, f)
  {
    BlockAmountsPositive(b, f);
    PoolIsPositive(s, f);
    hide Covered, NeverOverdrawn, Positive, Replayed, History, Extends, NoReplay, OneReward, AffordableInOrder, SparesPool, Fresh;
    HistoryAppend(s.chain, b);
    AffordableKeepsExactly(s, History(s.chain), b.transactions);
    SparesPoolExactly(s, b, f);
  }

  lemma PoolIsPositive(s: State, f: Functions)
    requires Sound(s, f)
    ensures Positive(s.pool)
  {
    hide Replayed, History, Distinct;
  }

  // ---------- Runs ----------

  predicate Paid(s: State, b: BlockData, f: Functions) {
    AffordableInOrder(s, b.transactions) && SparesPool(s, b, f)
  }

  predicate PaidStep(s: State, op: Operation, f: Functions)
    requires s.chain != []
  {
    op.Receive? && Admissible(s, op.block, f) ==> Paid(s, op.block, f)
  }

  ghost predicate PaidRun(s: State, ops: seq<Operation>, f: Functions)
    requires s.chain != []
    decreases |ops|
  {
    ops == [] || (PaidStep(s, ops[0], f) && PaidRun(Next(s, ops[0], f), ops[1..], f))
  }

  ghost predicate SolventThroughout(s: State, ops: seq<Operation>, f: Functions)
    requires s.chain != []
    decreases |ops|
  {
    Solvent(s) && (ops == [] || SolventThroughout(Next(s, ops[0], f), ops[1..], f))
  }

  lemma StepSolventExactly(s: State, op: Operation, f: Functions)
    requires Sound(s, f) && Solvent(s) && !op.Load?
    ensures Solvent(Next(s, op, f)) <==> PaidStep(s, op, f)
  {
    hide Covered, NeverOverdrawn, Fresh, Replayed, History, Mined, Admissible, AffordableInOrder, SparesPool;
    match op
    case Submit(t) =>
      if Acceptable(s, t, f) {
        SubmittedCovered(s, t, f);
      }
    case Mine(address, time, salt, now, nonce) =>
      MinedSolvent(s, RewardTransaction(s, address, time, salt), now, nonce, f);
    case SetReward(_) =>
    case Receive(b) =>
      if Admissible(s, b, f) {
        ReceivedSolventExactly(s, b, f);
      }
  }

  /** Without loads, a run is solvent in every state exactly when every block it accepts is paid for. */
  lemma {:induction false} RunSolventExactly(s: State, ops: seq<Operation>, f: Functions)
    requires Sound(s, f) && Solvent(s) && forall i :: 0 <= i < |ops| ==> !ops[i].Load?
    ensures SolventThroughout(s, ops, f) <==> PaidRun(s, ops, f)
    ensures Sound(After(s, ops, f), f) && (PaidRun(s, ops, f) ==> Solvent(After(s, ops, f)))
    decreases |ops|
  {
    hide Fresh, Solvent, Next, Replayed, History, PaidStep;
    if ops != [] {
      var next := Next(s, ops[0], f);
      StepKeepsSound(s, ops[0], f);
      StepSolventExactly(s, ops[0], f);
      if Solvent(next) {
        RunSolventExactly(next, ops[1..], f);
      } else {
        RunKeepsSound(next, ops[1..], f);
        NotThroughout(next, ops[1..], f);
      }
    }
  }

  lemma NotThroughout(s: State, ops: seq<Operation>, f: Functions)
    requires s.chain != [] && !Solvent(s)
    ensures !SolventThroughout(s, ops, f)
  {
    hide Solvent, Next;
  }

  /** No address overdrawn at any point of the history, none negative, and none with more pending than it has. */
  ghost predicate NobodyOverdrawn(s: State) {
    && NeverOverdrawn(History(s.chain))
    && NonNegative(s.balances)
    && forall address :: address != SYSTEM ==> Outflow(s.pool, address) <= BalanceOf(s.balances, address)
  }

  lemma SolventMeans(s: State, f: Functions)
    requires Sound(s, f) && Solvent(s)
    ensures NobodyOverdrawn(s)
  {
    var history := History(s.chain);
    hide Fresh, Replayed, History, Net, Outflow;
    CoveredByBalances(s.balances, history, s.pool);
    forall address
      ensures BalanceOf(s.balances, address) >= 0
    {
      CacheIsNet(history, address);
      assert history[..|history|] == history;
    }
  }

  lemma GenesisSolvent(s: State, difficulty: int, reward: int, now: int, nonce: int, f: Functions)
    requires Initial(s, difficulty, reward, now, nonce, f)
    ensures Sound(s, f) && Solvent(s)
  {
    GenesisSound(s, difficulty, reward, now, nonce, f);
    hide Initial, Sound;
  }

  /**
   Runs from a fresh ledger with peer blocks and without loads: solvent in every state exactly
   when every accepted block is paid for, and then nobody is overdrawn.
   */
  lemma PaidRunsNeverOverdraw(s: State, ops: seq<Operation>, difficulty: int, reward: int, now: int, nonce: int, f: Functions)
    requires Initial(s, difficulty, reward, now, nonce, f) && Run(s, ops, f)
    requires forall i :: 0 <= i < |ops| ==> !ops[i].Load?
    ensures SolventThroughout(s, ops, f) <==> PaidRun(s, ops, f)
    ensures PaidRun(s, ops, f) ==> NobodyOverdrawn(After(s, ops, f))
  {
    GenesisSolvent(s, difficulty, reward, now, nonce, f);
    hide Initial, Run, Fresh, Solvent, Replayed, History, PaidRun, SolventThroughout, NobodyOverdrawn;
    RunSolventExactly(s, ops, f);
    if PaidRun(s, ops, f) {
      SolventMeans(After(s, ops, f), f);
    }
  }

  lemma {:induction false} LocalRunsArePaid(s: State, ops: seq<Operation>, f: Functions)
    requires s.chain != [] && forall i :: 0 <= i < |ops| ==> Local(ops[i])
    ensures PaidRun(s, ops, f) && forall i :: 0 <= i < |ops| ==> !ops[i].Load?
    decreases |ops|
  {
    hide Next, Admissible, Paid;
    forall i | 0 <= i < |ops|
      ensures !ops[i].Load?
    {
      assert Local(ops[i]);
    }
    if ops != [] {
      assert Local(ops[0]);
      LocalRunsArePaid(Next(s, ops[0], f), ops[1..], f);
    }
  }

  /**
   In every run of submissions, mining and reward changes from a fresh ledger: no balance is
   negative, none was at any earlier point of the history, and each sender's pending outflow
   is within its balance.
   */
  lemma LocalRunsNeverOverdraw(s: State, ops: seq<Operation>, difficulty: int, reward: int, now: int, nonce: int, f: Functions)
    requires Initial(s, difficulty, reward, now, nonce, f) && Run(s, ops, f)
    requires forall i :: 0 <= i < |ops| ==> Local(ops[i])
    ensures
      var end := After(s, ops, f);
      NeverOverdrawn(History(end.chain)) && NonNegative(end.balances)
      && forall address :: address != SYSTEM ==> Outflow(end.pool, address) <= BalanceOf(end.balances, address)
  {
    GenesisSolvent(s, difficulty, reward, now, nonce, f);
    LocalRunsArePaid(s, ops, f);
    hide Initial, Run, Fresh, Solvent, Replayed, History, PaidRun, SolventThroughout, NeverOverdrawn;
    PaidRunsNeverOverdraw(s, ops, difficulty, reward, now, nonce, f);
  }
}
