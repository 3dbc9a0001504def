/** Who may spend: every transfer the ledger ever holds is signed by its sender, and no balance is debited otherwise. */
module LedgerAuthority {
  import opened Ledger
  import opened LedgerSums
  import opened LedgerRuns

  /** What may move money: distinct named parties, a positive amount within 21 million coins, and the sender's signature unless the mint sends. */
  predicate Genuine(t: Transaction, f: Functions) {
    && t.sender != "" && t.receiver != "" && t.sender != t.receiver
    && 0 < t.amount <= 2_100_000_000_000_000
    && (t.sender == "system" || f.signedBySender(t))
  }

  ghost predicate AllGenuine(transactions: seq<Transaction>, f: Functions) {
    forall i :: 0 <= i < |transactions| ==> Genuine(transactions[i], f)
  }

  lemma ValidIsGenuine(t: Transaction, f: Functions)
    ensures ValidTransaction(t, f) <==> Genuine(t, f)
  {
  }

  lemma ValidAreGenuine(transactions: seq<Transaction>, f: Functions)
    ensures AllValid(transactions, f) <==> AllGenuine(transactions, f)
  {
    forall i | 0 <= i < |transactions|
      ensures ValidTransaction(transactions[i], f) <==> Genuine(transactions[i], f)
    {
      ValidIsGenuine(transactions[i], f);
    }
  }

  lemma {:induction false} BlocksGenuine(chain: seq<BlockData>, f: Functions)
    requires forall i :: 0 <= i < |chain| ==> AllGenuine(chain[i].transactions, f)
    ensures AllGenuine(History(chain), f)
  {
    hide Genuine;
    if chain != [] {
      BlocksGenuine(chain[..|chain| - 1], f);
    }
  }

  lemma ValidChainGenuine(chain: seq<BlockData>, initial: int, f: Functions)
    requires ValidChain(chain, initial, f)
    ensures AllGenuine(History(chain), f)
  {
    hide AllValid, AllGenuine, History, RequiredDifficulty, MerkleRoot, BlockHash;
    forall i | 0 <= i < |chain|
      ensures AllGenuine(chain[i].transactions, f)
    {
      assert i > 0 ==> Follows(chain, i, initial, f);
      ValidAreGenuine(chain[i].transactions, f);
    }
    BlocksGenuine(chain, f);
  }

  lemma GenuineConcat(a: seq<Transaction>, b: seq<Transaction>, f: Functions)
    requires AllGenuine(a, f) && AllGenuine(b, f)
    ensures AllGenuine(a + b, f)
  {
    hide Genuine;
  }

  lemma TemplateGenuine(s: State, reward: Transaction, now: int, f: Functions)
    requires s.chain != [] && ValidTransaction(reward, f)
    ensures AllGenuine(Template(s, reward, now, f).transactions, f)
  {
    hide ValidTransaction, RequiredDifficulty, MerkleRoot;
    ValidAreGenuine(ValidOnes(s.pool, f) + [reward], f);
  }

  /** What a step appends to the history, or loads, is genuine. */
  lemma StepGenuine(s: State, op: Operation, f: Functions)
    requires Sound(s, f) && AllGenuine(History(s.chain), f)
    ensures AllGenuine(History(Next(s, op, f).chain), f)
  {
    hide AllGenuine, History, ValidTransaction, Template, Replayed, Fresh, Extends, NoReplay, OneReward, ValidChain, RootsMatch, Acceptable;
    match op
    case Submit(_) =>
    case Mine(address, time, salt, now, nonce) =>
      var reward := RewardTransaction(s, address, time, salt);
      if ValidTransaction(reward, f) {
        TemplateGenuine(s, reward, now, f);
        HistoryAppend(s.chain, Sealed(Template(s, reward, now, f), nonce, f));
        GenuineConcat(History(s.chain), Template(s, reward, now, f).transactions, f);
      }
    case SetReward(_) =>
    case Receive(b) =>
      if Admissible(s, b, f) {
        AdmissibleGenuine(s, b, f);
        HistoryAppend(s.chain, b);
        GenuineConcat(History(s.chain), b.transactions, f);
      }
    case Load(file) =>
      if Loads(file, f) {
        ValidChainGenuine(file.blocks, file.difficulty, f);
      }
  }

  lemma AdmissibleGenuine(s: State, b: BlockData, f: Functions)
    requires s.chain != [] && Admissible(s, b, f)
    ensures AllGenuine(b.transactions, f)
  {
    hide AllValid, AllGenuine, RequiredDifficulty, MerkleRoot, BlockHash, NoReplay, OneReward;
    ValidAreGenuine(b.transactions, f);
  }

  lemma {:induction false} RunGenuine(s: State, ops: seq<Operation>, f: Functions)
    requires Sound(s, f) && AllGenuine(History(s.chain), f)
    ensures Sound(After(s, ops, f), f) && AllGenuine(History(After(s, ops, f).chain), f)
    decreases |ops|
  {
    hide AllGenuine, History, Fresh, Replayed, Next;
    if ops != [] {
      StepKeepsSound(s, ops[0], f);
      StepGenuine(s, ops[0], f);
      RunGenuine(Next(s, ops[0], f), ops[1..], f);
    }
  }

  /**
   In every run from a fresh ledger, peer blocks and loads included, each transaction of the
   history and of the pool is genuine: in particular it is sent by the mint or signed by its
   sender.
   */
  lemma RunsHoldOnlyGenuine(s: State, ops: seq<Operation>, difficulty: int, reward: int, now: int, nonce: int, f: Functions)
    requires Initial(s, difficulty, reward, now, nonce, f) && Run(s, ops, f)
    ensures
      var end := After(s, ops, f);
      AllGenuine(History(end.chain), f) && AllGenuine(end.pool, f)
  {
    GenesisSound(s, difficulty, reward, now, nonce, f);
    assert AllGenuine(History(s.chain), f);
    hide Initial, Run, AllGenuine, History, Replayed, Distinct, HashAmong;
    RunGenuine(s, ops, f);
    ValidAreGenuine(After(s, ops, f).pool, f);
  }

  /** A transfer its sender did not sign changes nothing: not submitted, not in a peer block, not in a file. */
  lemma ForgedIsRefused(s: State, t: Transaction, f: Functions)
    requires s.chain != [] && t.sender != "system" && !f.signedBySender(t)
    ensures Next(s, Submit(t), f) == s
    ensures forall b: BlockData :: t in b.transactions ==> Next(s, Receive(b), f) == s
    ensures forall file: File, i: nat :: Loads(file, f) && i < |file.blocks| ==> t !in file.blocks[i].transactions
  {
    hide History, Replayed, Exists, RequiredDifficulty, MerkleRoot, BlockHash, NoReplay, OneReward, RootsMatch, ValidAmount;
    forall b: BlockData | t in b.transactions
      ensures Next(s, Receive(b), f) == s
    {
      var k :| 0 <= k < |b.transactions| && b.transactions[k] == t;
      assert !ValidTransaction(b.transactions[k], f);
    }
    forall file: File, i: nat | Loads(file, f) && i < |file.blocks|
      ensures t !in file.blocks[i].transactions
    {
      assert i > 0 ==> Follows(file.blocks, i, file.difficulty, f);
      assert AllValid(file.blocks[i].transactions, f);
    }
  }

  // ---------- Debits ----------

  /** Some transaction among these is sent by the address and signed by it. */
  predicate SignsAmong(transactions: seq<Transaction>, address: string, f: Functions) {
    exists i :: 0 <= i < |transactions| && transactions[i].sender == address && f.signedBySender(transactions[i])
  }

  lemma SignsInPrefix(transactions: seq<Transaction>, n: nat, address: string, f: Functions)
    requires n <= |transactions|
    ensures SignsAmong(transactions[..n], address, f) ==> SignsAmong(transactions, address, f)
  {
    if SignsAmong(transactions[..n], address, f) {
      var i :| 0 <= i < n && transactions[..n][i].sender == address && f.signedBySender(transactions[..n][i]);
      assert transactions[i].sender == address && f.signedBySender(transactions[i]);
    }
  }

  lemma GenuineSuffix(history: seq<Transaction>, more: seq<Transaction>, f: Functions)
    requires AllGenuine(history + more, f)
    ensures AllGenuine(more, f)
  {
    hide Genuine;
    forall i | 0 <= i < |more|
      ensures Genuine(more[i], f)
    {
      assert (history + more)[|history| + i] == more[i];
    }
  }

  lemma {:induction false} UnsignedSpendsNothing(transactions: seq<Transaction>, address: string, f: Functions)
    requires AllGenuine(transactions, f) && address != "system" && !SignsAmong(transactions, address, f)
    ensures Outflow(transactions, address) == 0
  {
    if transactions != [] {
      var n := |transactions| - 1;
      assert Genuine(transactions[n], f);
      SignsInPrefix(transactions, n, address, f);
      UnsignedSpendsNothing(transactions[..n], address, f);
    }
  }

  lemma {:induction false} GenuineReceivesNothingNegative(transactions: seq<Transaction>, address: string, f: Functions)
    requires AllGenuine(transactions, f)
    ensures Inflow(transactions, address) >= 0
  {
    if transactions != [] {
      var n := |transactions| - 1;
      assert Genuine(transactions[n], f);
      GenuineReceivesNothingNegative(transactions[..n], address, f);
    }
  }

  /**
   No debit without a signature: in every run from a fresh ledger, loads included, an address
   that never signed a transfer in the history has exactly what it has received.
   */
  lemma UnsignedNeverDebited(s: State, ops: seq<Operation>, difficulty: int, reward: int, now: int, nonce: int, f: Functions, address: string)
    requires Initial(s, difficulty, reward, now, nonce, f) && Run(s, ops, f) && address != "system"
    requires !SignsAmong(History(After(s, ops, f).chain), address, f)
    ensures
      var end := After(s, ops, f);
      BalanceOf(end.balances, address) == Inflow(History(end.chain), address) >= 0
  {
    RunsHoldOnlyGenuine(s, ops, difficulty, reward, now, nonce, f);
    CacheAndConservation(s, ops, difficulty, reward, now, nonce, f);
    hide Initial, Run, AllGenuine, History, Replayed, SignsAmong, After;
    var end := After(s, ops, f);
    UnsignedSpendsNothing(History(end.chain), address, f);
    GenuineReceivesNothingNegative(History(end.chain), address, f);
  }

  /** And step by step: a balance falls only through a transfer that its owner signed, among those the step appends. */
  lemma DebitIsSigned(s: State, op: Operation, f: Functions, address: string, more: seq<Transaction>)
    requires Sound(s, f) && AllGenuine(History(s.chain), f) && !op.Load? && address != "system"
    requires History(Next(s, op, f).chain) == History(s.chain) + more
    requires BalanceOf(Next(s, op, f).balances, address) < BalanceOf(s.balances, address)
    ensures SignsAmong(more, address, f)
  {
    StepKeepsSound(s, op, f);
    StepGenuine(s, op, f);
    hide Next, History, Replayed, Fresh, SignsAmong, AllGenuine, Inflow, Outflow;
    var history := History(s.chain);
    CacheIsNet(history, address);
    CacheIsNet(history + more, address);
    NetConcat(history, more, address);
    GenuineSuffix(history, more, f);
    GenuineReceivesNothingNegative(more, address, f);
    if !SignsAmong(more, address, f) {
      UnsignedSpendsNothing(more, address, f);
    }
  }
}
