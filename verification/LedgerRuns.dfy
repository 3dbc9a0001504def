/** Runs of the ledger: what every sequence of operations keeps, and what each kind of operation can break. */
module LedgerRuns {
  import opened Hex
  import opened Ledger
  import opened LedgerSums
  import Merkle

  datatype Operation =
    | Submit(transaction: Transaction)
    | Mine(address: string, rewardTime: int, salt: nat, now: int, nonce: int)
    | SetReward(amount: int)
    | Receive(block: BlockData)
    | Load(file: File)

  /** What the node does on its own account, without peers and files. */
  predicate Local(op: Operation) {
    op.Submit? || op.Mine? || op.SetReward?
  }

  ghost function Next(s: State, op: Operation, f: Functions): (after: State)
    requires s.chain != []
    ensures after.chain != []
  {
    match op
    case Submit(t) => Submitted(s, t, f)
    case Mine(address, time, salt, now, nonce) => Mined(s, RewardTransaction(s, address, time, salt), now, nonce, f)
    case SetReward(amount) => s.(reward := amount)
    case Receive(b) => Received(s, b, f)
    case Load(file) => Loaded(s, file, f)
  }

  /** A mining step takes the nonce its search finds. */
  ghost predicate Possible(s: State, op: Operation, f: Functions)
    requires s.chain != []
  {
    op.Mine? ==>
      var reward := RewardTransaction(s, op.address, op.rewardTime, op.salt);
      ValidTransaction(reward, f) ==> FirstNonce(Template(s, reward, op.now, f), op.nonce, f)
  }

  ghost predicate Run(s: State, ops: seq<Operation>, f: Functions)
    requires s.chain != []
    decreases |ops|
  {
    ops == [] || (Possible(s, ops[0], f) && Run(Next(s, ops[0], f), ops[1..], f))
  }

  ghost function After(s: State, ops: seq<Operation>, f: Functions): (after: State)
    requires s.chain != []
    ensures after.chain != []
    decreases |ops|
  {
    if ops == [] then s else After(Next(s, ops[0], f), ops[1..], f)
  }

  ghost predicate Initial(s: State, difficulty: int, reward: int, now: int, nonce: int, f: Functions) {
    FirstNonce(GenesisTemplate(difficulty, now, f), nonce, f) && s == Genesis(difficulty, reward, now, nonce, f)
  }

  // ---------- The cache and the pool ----------

  ghost predicate Fresh(pool: seq<Transaction>, history: seq<Transaction>, f: Functions) {
    && AllValid(pool, f)
    && Distinct(Hashes(pool, f))
    && forall i :: 0 <= i < |pool| ==> !HashAmong(f.transactionHash(pool[i]), history, f)
  }

  ghost predicate Distinct(hashes: seq<seq<byte>>) {
    forall i, j :: 0 <= i < j < |hashes| ==> hashes[i] != hashes[j]
  }

  /** The cache is the replay of the chain; the pool is valid, without repeats, and disjoint from the chain. */
  ghost predicate Sound(s: State, f: Functions) {
    && s.chain != []
    && s.balances == Replayed(History(s.chain))
    && Fresh(s.pool, History(s.chain), f)
  }

  lemma HistoryAppend(chain: seq<BlockData>, b: BlockData)
    ensures History(chain + [b]) == History(chain) + b.transactions
  {
    assert (chain + [b])[..|chain|] == chain;
  }

  lemma {:induction false} HashesConcat(a: seq<Transaction>, b: seq<Transaction>, f: Functions)
    ensures Hashes(a + b, f) == Hashes(a, f) + Hashes(b, f)
  {
    forall i | 0 <= i < |a + b|
      ensures Hashes(a + b, f)[i] == (Hashes(a, f) + Hashes(b, f))[i]
    {
      if i < |a| {
        assert (a + b)[i] == a[i];
      } else {
        assert (a + b)[i] == b[i - |a|];
      }
    }
  }

  lemma SubmittedFresh(pool: seq<Transaction>, t: Transaction, history: seq<Transaction>, f: Functions)
    requires Fresh(pool, history, f) && ValidTransaction(t, f)
    requires !HashAmong(f.transactionHash(t), history, f) && !HashAmong(f.transactionHash(t), pool, f)
    ensures Fresh(pool + [t], history, f)
  {
    HashesConcat(pool, [t], f);
    assert Hashes([t], f) == [f.transactionHash(t)];
    hide Hashes, ValidTransaction;
  }

  lemma DistinctAppend(transactions: seq<Transaction>, t: Transaction, f: Functions)
    ensures Distinct(Hashes(transactions + [t], f))
       <==> Distinct(Hashes(transactions, f)) && !HashAmong(f.transactionHash(t), transactions, f)
  {
    var hashes := Hashes(transactions, f);
    HashesConcat(transactions, [t], f);
    assert Hashes([t], f) == [f.transactionHash(t)];
    hide Hashes;
    assert (hashes + [f.transactionHash(t)])[..|hashes|] == hashes;
    if Distinct(hashes + [f.transactionHash(t)]) {
      forall i, j | 0 <= i < j < |hashes|
        ensures hashes[i] != hashes[j]
      {
        assert (hashes + [f.transactionHash(t)])[i] != (hashes + [f.transactionHash(t)])[j];
      }
      forall i | 0 <= i < |hashes|
        ensures hashes[i] != f.transactionHash(t)
      {
        assert (hashes + [f.transactionHash(t)])[i] != (hashes + [f.transactionHash(t)])[|hashes|];
      }
    }
  }

  lemma {:induction false} WithoutDistinct(pool: seq<Transaction>, included: seq<Transaction>, f: Functions)
    requires Distinct(Hashes(pool, f))
    ensures Distinct(Hashes(Without(pool, included, f), f))
  {
    if pool != [] {
      var n := |pool| - 1;
      var rest, last := pool[..n], pool[n];
      assert pool == rest + [last];
      hide Hashes, Distinct, HashAmong;
      DistinctAppend(rest, last, f);
      WithoutDistinct(rest, included, f);
      var kept := Without(rest, included, f);
      assert kept + [] == kept;
      if !HashAmong(f.transactionHash(last), included, f) {
        StillAbsent(rest, kept, f.transactionHash(last), f);
        DistinctAppend(kept, last, f);
      }
    }
  }

  lemma StillAbsent(pool: seq<Transaction>, kept: seq<Transaction>, hash: seq<byte>, f: Functions)
    requires forall i :: 0 <= i < |kept| ==> kept[i] in pool
    requires !HashAmong(hash, pool, f)
    ensures !HashAmong(hash, kept, f)
  {
    forall i | 0 <= i < |kept|
      ensures Hashes(kept, f)[i] != hash
    {
      var j :| 0 <= j < |pool| && pool[j] == kept[i];
      assert Hashes(pool, f)[j] != hash;
    }
  }

  lemma WithoutFresh(pool: seq<Transaction>, history: seq<Transaction>, included: seq<Transaction>, f: Functions)
    requires Fresh(pool, history, f)
    ensures Fresh(Without(pool, included, f), history + included, f)
  {
    WithoutDistinct(pool, included, f);
    HashesConcat(history, included, f);
    hide Without, Hashes, ValidTransaction;
    var kept := Without(pool, included, f);
    forall i | 0 <= i < |kept|
      ensures ValidTransaction(kept[i], f) && !HashAmong(f.transactionHash(kept[i]), history + included, f)
    {
      var j :| 0 <= j < |pool| && pool[j] == kept[i];
    }
  }

  lemma EmptyPoolFresh(history: seq<Transaction>, f: Functions)
    ensures Fresh([], history, f)
  {
  }

  /** Every operation keeps the cache equal to the replay and the pool fresh: no exception. */
  lemma StepKeepsSound(s: State, op: Operation, f: Functions)
    requires Sound(s, f)
    ensures Sound(Next(s, op, f), f)
  {
    hide Fresh, Replayed, History, Hashes, Without, ValidTransaction, Admissible, Template, Sealed, Loads, Parses, HashAmong;
    match op
    case Submit(t) =>
      if Acceptable(s, t, f) {
        SubmittedFresh(s.pool, t, History(s.chain), f);
      }
    case Mine(address, time, salt, now, nonce) =>
      EmptyPoolFresh(History(Next(s, op, f).chain), f);
    case SetReward(_) =>
    case Receive(b) =>
      HistoryAppend(s.chain, b);
      WithoutFresh(s.pool, History(s.chain), b.transactions, f);
    case Load(file) =>
      if Loads(file, f) {
        LoadedNotEmpty(file, f);
      }
      EmptyPoolFresh(History(Next(s, op, f).chain), f);
  }

  lemma LoadedNotEmpty(file: File, f: Functions)
    requires Loads(file, f)
    ensures file.blocks != []
  {
  }

  lemma GenesisSound(s: State, difficulty: int, reward: int, now: int, nonce: int, f: Functions)
    requires Initial(s, difficulty, reward, now, nonce, f)
    ensures Sound(s, f) && History(s.chain) == [] && s.pool == []
    ensures ValidChain(s.chain, s.difficulty, f) && Positioned(s.chain)
    ensures |s.chain| == 1 && s.chain[0].previousHash == "0" && s.chain[0].timestamp == now && s.chain[0].transactions == []
    ensures s.difficulty == difficulty && s.reward == reward && s.balances == map[]
  {
    var g := s.chain[0];
    assert s.chain == [] + [g];
    HistoryAppend([], g);
    assert Replayed([]) == map[];
  }

  lemma {:induction false} RunKeepsSound(s: State, ops: seq<Operation>, f: Functions)
    requires Sound(s, f)
    ensures Sound(After(s, ops, f), f)
    decreases |ops|
  {
    if ops != [] {
      StepKeepsSound(s, ops[0], f);
      RunKeepsSound(Next(s, ops[0], f), ops[1..], f);
    }
  }

  /**
   After any run, loads that succeed or fail included: the cache gives each address what it
   received less what it spent, and all balances add up to what the mint has sent.
   */
  lemma CacheAndConservation(s: State, ops: seq<Operation>, difficulty: int, reward: int, now: int, nonce: int, f: Functions)
    requires Initial(s, difficulty, reward, now, nonce, f) && Run(s, ops, f)
    ensures
      var end := After(s, ops, f);
      && (forall address :: BalanceOf(end.balances, address) == Net(History(end.chain), address))
      && Total(end.balances) == Minted(History(end.chain))
  {
    GenesisSound(s, difficulty, reward, now, nonce, f);
    RunKeepsSound(s, ops, f);
    var end := After(s, ops, f);
    TotalIsMinted(History(end.chain));
    forall address
      ensures BalanceOf(end.balances, address) == Net(History(end.chain), address)
    {
      CacheIsNet(History(end.chain), address);
    }
  }

  // ---------- Validity of the chain ----------

  ghost predicate Positioned(chain: seq<BlockData>) {
    forall i :: 0 <= i < |chain| ==> chain[i].index == i
  }

  /** The required difficulty at a height depends only on the blocks below it. */
  lemma RequiredOnPrefix(a: seq<BlockData>, b: seq<BlockData>, height: nat, initial: int)
    requires height <= |a| && height <= |b| && a[..height] == b[..height]
    ensures RequiredDifficulty(a, height, initial) == RequiredDifficulty(b, height, initial)
  {
    if height >= ADJUSTMENT_INTERVAL {
      assert a[height - 1] == a[..height][height - 1] && b[height - 1] == b[..height][height - 1];
      var low := height - ADJUSTMENT_INTERVAL;
      assert a[low] == a[..height][low] && b[low] == b[..height][low];
    }
  }

  /** A chain grown by one block is valid exactly when it was and the new block follows the tip. */
  lemma AppendValid(chain: seq<BlockData>, b: BlockData, initial: int, f: Functions)
    requires chain != []
    ensures
      var tip := chain[|chain| - 1];
      ValidChain(chain + [b], initial, f) <==>
        && ValidChain(chain, initial, f)
        && ValidWithDifficulty(b, RequiredDifficulty(chain, |chain|, initial), f)
        && b.previousHash == tip.hash && b.timestamp >= tip.timestamp
  {
    hide ValidWithDifficulty, RequiredDifficulty;
    var grown := chain + [b];
    assert grown[0] == chain[0];
    forall i | 1 <= i <= |chain|
      ensures RequiredDifficulty(grown, i, initial) == RequiredDifficulty(chain, i, initial)
    {
      assert grown[..i] == chain[..i];
      RequiredOnPrefix(grown, chain, i, initial);
    }
    forall i | 1 <= i < |chain|
      ensures Follows(grown, i, initial, f) <==> Follows(chain, i, initial, f)
    {
      assert grown[i] == chain[i] && grown[i - 1] == chain[i - 1];
    }
    assert grown[|chain|] == b && grown[|chain| - 1] == chain[|chain| - 1];
    assert ValidChain(grown, initial, f) ==> Follows(grown, |chain|, initial, f);
  }

  lemma MinedIsValid(s: State, reward: Transaction, now: int, nonce: int, f: Functions)
    requires s.chain != [] && ValidTransaction(reward, f)
    requires FirstNonce(Template(s, reward, now, f), nonce, f)
    ensures ValidWithDifficulty(Sealed(Template(s, reward, now, f), nonce, f), RequiredDifficulty(s.chain, |s.chain|, s.difficulty), f)
  {
    hide RequiredDifficulty, ValidTransaction;
  }

  /** Mining keeps a valid chain valid exactly when the clock has not gone back behind the tip. */
  lemma MiningKeepsValidExactly(s: State, reward: Transaction, now: int, nonce: int, f: Functions)
    requires s.chain != [] && ValidChain(s.chain, s.difficulty, f)
    requires ValidTransaction(reward, f) && FirstNonce(Template(s, reward, now, f), nonce, f)
    ensures ValidChain(Mined(s, reward, now, nonce, f).chain, s.difficulty, f) <==> now >= s.chain[|s.chain| - 1].timestamp
  {
    MinedIsValid(s, reward, now, nonce, f);
    AppendValid(s.chain, Sealed(Template(s, reward, now, f), nonce, f), s.difficulty, f);
    hide ValidChain, ValidWithDifficulty, RequiredDifficulty, ValidTransaction, FirstNonce, BlockHash, MerkleRoot;
  }

  lemma {:induction false} BlockAmounts(chain: seq<BlockData>, f: Functions)
    requires forall i :: 0 <= i < |chain| ==> AllValid(chain[i].transactions, f)
    ensures ValidAmounts(History(chain))
  {
    if chain != [] {
      var n := |chain| - 1;
      BlockAmounts(chain[..n], f);
      forall k | 0 <= k < |chain[n].transactions|
        ensures ValidAmount(chain[n].transactions[k].amount)
      {
        assert ValidTransaction(chain[n].transactions[k], f);
      }
    }
  }

  /** The balances of a valid chain of up to 4392 transactions fit 64 bits, at every point of its replay. */
  lemma ValidChainFits(chain: seq<BlockData>, initial: int, f: Functions, n: nat, address: string)
    requires ValidChain(chain, initial, f) && n <= |History(chain)| <= SAFE_LENGTH
    ensures Fits64(BalanceOf(Replayed(History(chain)[..n]), address))
  {
    hide *;
    ValidChainAmounts(chain, initial, f);
    PrefixFits(History(chain), n, address);
  }

  lemma ValidChainAmounts(chain: seq<BlockData>, initial: int, f: Functions)
    requires ValidChain(chain, initial, f)
    ensures ValidAmounts(History(chain))
  {
    hide AllValid, History, RequiredDifficulty, ValidAmounts, MerkleRoot, BlockHash;
    forall i | 0 <= i < |chain|
      ensures AllValid(chain[i].transactions, f)
    {
      assert i > 0 ==> Follows(chain, i, initial, f);
    }
    BlockAmounts(chain, f);
  }

  lemma PrefixFits(history: seq<Transaction>, n: nat, address: string)
    requires ValidAmounts(history) && n <= |history| <= SAFE_LENGTH
    ensures Fits64(BalanceOf(Replayed(history[..n]), address))
  {
    hide Replayed, Outflow, Inflow;
    CacheIsNet(history[..n], address);
    SumsBounded(history[..n], address);
  }

  /** The clock is not behind the tip when mining. */
  predicate Timely(s: State, op: Operation)
    requires s.chain != []
  {
    op.Mine? ==> op.now >= s.chain[|s.chain| - 1].timestamp
  }

  ghost predicate TimelyRun(s: State, ops: seq<Operation>, f: Functions)
    requires s.chain != []
    decreases |ops|
  {
    ops == [] || (Timely(s, ops[0]) && TimelyRun(Next(s, ops[0], f), ops[1..], f))
  }

  lemma StepKeepsValid(s: State, op: Operation, f: Functions)
    requires s.chain != [] && ValidChain(s.chain, s.difficulty, f)
    requires Possible(s, op, f) && Timely(s, op)
    ensures
      var after := Next(s, op, f);
      ValidChain(after.chain, after.difficulty, f)
  {
    hide ValidChain, ValidWithDifficulty, RequiredDifficulty, ValidTransaction, FirstNonce, Template, Sealed, NoReplay, OneReward;
    match op
    case Submit(_) =>
    case Mine(address, time, salt, now, nonce) =>
      var reward := RewardTransaction(s, address, time, salt);
      if ValidTransaction(reward, f) {
        MiningKeepsValidExactly(s, reward, now, nonce, f);
      }
    case SetReward(_) =>
    case Receive(b) =>
      AppendValid(s.chain, b, s.difficulty, f);
    case Load(_) =>
  }

  lemma {:induction false} RunKeepsValid(s: State, ops: seq<Operation>, f: Functions)
    requires s.chain != [] && ValidChain(s.chain, s.difficulty, f)
    requires Run(s, ops, f) && TimelyRun(s, ops, f)
    ensures
      var end := After(s, ops, f);
      ValidChain(end.chain, end.difficulty, f)
    decreases |ops|
  {
    hide Next, Possible, Timely, ValidChain;
    if ops != [] {
      StepKeepsValid(s, ops[0], f);
      RunKeepsValid(Next(s, ops[0], f), ops[1..], f);
    }
  }

  /** The chain of a fresh ledger stays valid in every run whose mining clock never goes back, loads included. */
  lemma RunsStayValid(s: State, ops: seq<Operation>, difficulty: int, reward: int, now: int, nonce: int, f: Functions)
    requires Initial(s, difficulty, reward, now, nonce, f) && Run(s, ops, f) && TimelyRun(s, ops, f)
    ensures
      var end := After(s, ops, f);
      ValidChain(end.chain, end.difficulty, f)
  {
    GenesisSound(s, difficulty, reward, now, nonce, f);
    RunKeepsValid(s, ops, f);
  }

  // ---------- What the tip commits to ----------

  /** Two different block headers, at the same height of two chains, with the same digest. */
  ghost predicate HeadersCollide(a: seq<BlockData>, b: seq<BlockData>, i: nat, f: Functions)
    requires i < |a| && i < |b|
  {
    var x, y := HeaderOf(a[i], f), HeaderOf(b[i], f);
    x != y && f.sha256(f.headerText(x)) == f.sha256(f.headerText(y))
  }

  /** Two blocks alike in everything that is sealed: all but the stored hash, transactions by their hashes. */
  ghost predicate SameSealed(x: BlockData, y: BlockData, f: Functions) {
    && x.index == y.index && x.timestamp == y.timestamp && x.previousHash == y.previousHash
    && x.merkleRoot == y.merkleRoot && x.difficulty == y.difficulty && x.nonce == y.nonce
    && |x.transactions| == |y.transactions|
    && forall i :: 0 <= i < |x.transactions| ==> f.transactionHash(x.transactions[i]) == f.transactionHash(y.transactions[i])
  }

  lemma SameHeaderSameFields(x: BlockData, y: BlockData, f: Functions)
    requires HeaderOf(x, f) == HeaderOf(y, f)
    ensures SameSealed(x, y, f)
  {
    forall i | 0 <= i < |x.transactions|
      ensures f.transactionHash(x.transactions[i]) == f.transactionHash(y.transactions[i])
    {
      assert Hashes(x.transactions, f)[i] == Hashes(y.transactions, f)[i];
    }
  }

  /** The Merkle root a valid block stores commits to its transaction hashes by itself. */
  lemma RootCommits(x: BlockData, y: BlockData, f: Functions)
    requires ValidBlock(x, f) && ValidBlock(y, f) && x.merkleRoot == y.merkleRoot
    requires Hashes(x.transactions, f) != Hashes(y.transactions, f)
    ensures exists u, v :: Merkle.Collide(u, v, Merkle.HashedBy(Hashes(x.transactions, f), f.sha256),
                                          Merkle.HashedBy(Hashes(y.transactions, f), f.sha256), f.sha256)
  {
    Merkle.RootCollision(Hashes(x.transactions, f), Hashes(y.transactions, f), f.sha256);
  }

  /**
   The hash of the tip commits to the whole history: two valid chains of the same length with
   the same tip hash agree in every sealed field, transaction hashes included, unless at some height
   they show two different headers with the same digest.
   */
  lemma {:induction false} TipCommits(a: seq<BlockData>, b: seq<BlockData>, initialA: int, initialB: int, f: Functions)
    requires ValidChain(a, initialA, f) && ValidChain(b, initialB, f) && |a| == |b|
    requires a[|a| - 1].hash == b[|b| - 1].hash
    ensures (forall i :: 0 <= i < |a| ==> SameSealed(a[i], b[i], f))
         || exists i :: 0 <= i < |a| && HeadersCollide(a, b, i, f)
  {
    forall i | 0 <= i < |a|
      ensures HeaderOf(a[i], f) == HeaderOf(b[i], f) ==> SameSealed(a[i], b[i], f)
    {
      if HeaderOf(a[i], f) == HeaderOf(b[i], f) {
        SameHeaderSameFields(a[i], b[i], f);
      }
    }
    hide HeaderOf, HeadersCollide, SameSealed, ValidChain;
    TipCommitsBelow(a, b, |a| - 1, initialA, initialB, f);
  }

  lemma {:induction false} TipCommitsBelow(a: seq<BlockData>, b: seq<BlockData>, i: nat, initialA: int, initialB: int, f: Functions)
    requires ValidChain(a, initialA, f) && ValidChain(b, initialB, f) && i < |a| == |b|
    requires a[i].hash == b[i].hash
    ensures (forall j :: 0 <= j <= i ==> HeaderOf(a[j], f) == HeaderOf(b[j], f))
         || exists j :: 0 <= j <= i && HeadersCollide(a, b, j, f)
  {
    SameDigest(a, b, i, initialA, initialB, f);
    hide ValidChain, HeaderOf, HeadersCollide;
    if i > 0 && !HeadersCollide(a, b, i, f) {
      SamePrevious(a, b, i, initialA, initialB, f);
      TipCommitsBelow(a, b, i - 1, initialA, initialB, f);
    }
  }

  lemma SameDigest(a: seq<BlockData>, b: seq<BlockData>, i: nat, initialA: int, initialB: int, f: Functions)
    requires ValidChain(a, initialA, f) && ValidChain(b, initialB, f) && i < |a| && i < |b|
    requires a[i].hash == b[i].hash
    ensures HeadersCollide(a, b, i, f) || HeaderOf(a[i], f) == HeaderOf(b[i], f)
  {
    hide HexOf, RequiredDifficulty, HeaderOf, MerkleRoot;
    if i > 0 {
      assert Follows(a, i, initialA, f) && Follows(b, i, initialB, f);
    }
    assert a[i].hash == BlockHash(a[i], f) && b[i].hash == BlockHash(b[i], f);
    HexInjective(f.sha256(f.headerText(HeaderOf(a[i], f))), f.sha256(f.headerText(HeaderOf(b[i], f))));
  }

  lemma SamePrevious(a: seq<BlockData>, b: seq<BlockData>, i: nat, initialA: int, initialB: int, f: Functions)
    requires ValidChain(a, initialA, f) && ValidChain(b, initialB, f) && 0 < i < |a| == |b|
    requires HeaderOf(a[i], f) == HeaderOf(b[i], f)
    ensures a[i - 1].hash == b[i - 1].hash
  {
    hide RequiredDifficulty, ValidWithDifficulty;
    assert Follows(a, i, initialA, f) && Follows(b, i, initialB, f);
  }
}
