/**
 Where the ledger's guarantees end, exactly: minting, blocks a peer may send, failed loads,
 and the difficulty schedule.
 */
module LedgerLimits {
  import opened Arith
  import opened Hex
  import opened Numerals
  import opened Ledger
  import opened LedgerSums
  import opened LedgerRuns
  import opened LedgerReplays
  import Merkle

  // ---------- Minting ----------

  lemma {:induction false} MintsNothing(transactions: seq<Transaction>)
    requires forall i :: 0 <= i < |transactions| ==> transactions[i].sender != SYSTEM
    ensures Minted(transactions) == 0
  {
    if transactions != [] {
      MintsNothing(transactions[..|transactions| - 1]);
    }
  }

  lemma MintIsReward(transactions: seq<Transaction>, reward: int)
    requires OneReward(transactions, reward)
    ensures Minted(transactions) == reward
  {
    var i :| 0 <= i < |transactions| && MintsOnlyAt(transactions, i) && transactions[i].amount == reward;
    var before, mint, after := transactions[..i], [transactions[i]], transactions[i + 1..];
    assert transactions == before + mint + after;
    OutflowConcat(before + mint, after, SYSTEM);
    OutflowConcat(before, mint, SYSTEM);
    MintsNothing(before);
    MintsNothing(after);
    assert mint[..0] == [];
  }

  /** An accepted block creates exactly the mining reward: all balances together grow by that much. */
  lemma AcceptedBlockMintsReward(s: State, b: BlockData, f: Functions)
    requires Sound(s, f) && Admissible(s, b, f)
    ensures Total(Received(s, b, f).balances) == Total(s.balances) + s.reward
  {
    TotalIsMinted(History(s.chain));
    TotalIsMinted(History(s.chain + [b]));
    HistoryAppend(s.chain, b);
    OutflowConcat(History(s.chain), b.transactions, SYSTEM);
    MintIsReward(b.transactions, s.reward);
    hide Total, Replayed, History, Outflow, Extends, NoReplay, OneReward, Without;
  }

  /** What the mint can pay: an amount within the cap, to a named address other than itself. */
  predicate Payee(s: State, address: string) {
    0 < s.reward <= 2_100_000_000_000_000 && address != "" && address != "system"
  }

  /** Every balance grew by what the pool nets it, the address's by the reward besides, and all together by the reward and what the pool mints. */
  ghost predicate PaidOut(s: State, balances: Balances, address: string) {
    && (forall a :: BalanceOf(balances, a) == BalanceOf(s.balances, a) + Net(s.pool, a) + (if a == address then s.reward else 0))
    && Total(balances) == Total(s.balances) + Minted(s.pool) + s.reward
  }

  /**
   Local mining pays the mining reward, once, to the address it is given, and empties the pool
   into one block. An address or reward that cannot be paid leaves everything as it was, the
   pool included.
   */
  lemma MiningPaysReward(s: State, address: string, time: int, salt: nat, now: int, nonce: int, f: Functions)
    requires Sound(s, f)
    ensures
      var after := Next(s, Mine(address, time, salt, now, nonce), f);
      && (Payee(s, address) ==> PaidOut(s, after.balances, address) && after.pool == [] && |after.chain| == |s.chain| + 1)
      && (!Payee(s, address) ==> after == s)
  {
    hide Fresh, Replayed, History, Template, Sealed, ValidTransaction, PaidOut, Payee;
    var reward := RewardTransaction(s, address, time, salt);
    PayeeExactly(s, address, time, salt, f);
    if Payee(s, address) {
      MinedAppends(s, reward, now, nonce, f);
      PoolAndRewardNet(s, reward, address);
    }
  }

  lemma PayeeExactly(s: State, address: string, time: int, salt: nat, f: Functions)
    ensures ValidTransaction(RewardTransaction(s, address, time, salt), f) <==> Payee(s, address)
    ensures
      var reward := RewardTransaction(s, address, time, salt);
      reward.sender == SYSTEM && reward.receiver == address && reward.amount == s.reward
    ensures Payee(s, address) ==> address != SYSTEM
  {
  }

  lemma MinedAppends(s: State, reward: Transaction, now: int, nonce: int, f: Functions)
    requires Sound(s, f) && ValidTransaction(reward, f)
    ensures
      var after := Mined(s, reward, now, nonce, f);
      && after.balances == Replayed(History(s.chain) + (s.pool + [reward]))
      && after.pool == [] && |after.chain| == |s.chain| + 1
  {
    hide Replayed, History, ValidTransaction, RequiredDifficulty, MerkleRoot, BlockHash;
    HistoryAppend(s.chain, Sealed(Template(s, reward, now, f), nonce, f));
  }

  lemma PoolAndRewardNet(s: State, reward: Transaction, address: string)
    requires s.balances == Replayed(History(s.chain))
    requires reward.sender == SYSTEM && reward.receiver == address && reward.amount == s.reward && address != SYSTEM
    ensures PaidOut(s, Replayed(History(s.chain) + (s.pool + [reward])), address)
  {
    hide Replayed, History, Total;
    var history, more := History(s.chain), s.pool + [reward];
    assert [reward][..0] == [];
    forall a
      ensures BalanceOf(Replayed(history + more), a)
           == BalanceOf(s.balances, a) + Net(s.pool, a) + (if a == address then s.reward else 0)
    {
      CacheIsNet(history, a);
      CacheIsNet(history + more, a);
      NetConcat(history, more, a);
      NetConcat(s.pool, [reward], a);
    }
    TotalIsMinted(history);
    TotalIsMinted(history + more);
    OutflowConcat(history, more, SYSTEM);
    OutflowConcat(s.pool, [reward], SYSTEM);
  }

  predicate NoneMint(transactions: seq<Transaction>) {
    forall i :: 0 <= i < |transactions| ==> transactions[i].sender != SYSTEM
  }

  lemma OneRewardExactly(pool: seq<Transaction>, mint: Transaction)
    requires mint.sender == SYSTEM
    ensures OneReward(pool + [mint], mint.amount) <==> NoneMint(pool)
  {
    var all := pool + [mint];
    assert all[|pool|] == mint;
    if NoneMint(pool) {
      assert MintsOnlyAt(all, |pool|);
    }
    if OneReward(all, mint.amount) {
      var k :| 0 <= k < |all| && MintsOnlyAt(all, k);
      forall i | 0 <= i < |pool|
        ensures pool[i].sender != SYSTEM
      {
        assert all[i] == pool[i];
      }
    }
  }

  /**
   Mining meets the rule for peer blocks: a node with the same chain and reward and an empty
   pool accepts the mined block exactly when the miner's clock was not behind the tip and no
   system transaction was waiting in the miner's pool.
   */
  lemma MinedBlockAcceptedExactly(s: State, peer: State, reward: Transaction, now: int, nonce: int, f: Functions)
    requires Sound(s, f) && peer == s.(pool := [], balances := peer.balances)
    requires ValidTransaction(reward, f) && reward.sender == SYSTEM && reward.amount == s.reward
    requires FirstNonce(Template(s, reward, now, f), nonce, f)
    ensures Admissible(peer, Sealed(Template(s, reward, now, f), nonce, f), f)
       <==> now >= s.chain[|s.chain| - 1].timestamp && NoneMint(s.pool)
  {
    var b := Sealed(Template(s, reward, now, f), nonce, f);
    MinedIsValid(s, reward, now, nonce, f);
    OneRewardExactly(s.pool, reward);
    MinedIsNew(s, peer, reward, f);
    hide OneReward, NoneMint, NoReplay, ValidWithDifficulty, ValidTransaction, RequiredDifficulty, BlockHash, MerkleRoot, Replayed, History, FirstNonce;
  }

  lemma MinedIsNew(s: State, peer: State, reward: Transaction, f: Functions)
    requires Sound(s, f) && peer == s.(pool := [], balances := peer.balances) && reward.sender == SYSTEM
    ensures NoReplay(peer, s.pool + [reward], f)
  {
    hide Replayed, History, ValidTransaction;
  }

  /**
   With the pool as it was, instead of empty, only a miner that had nothing pending meets the
   rule: a node that holds the same transactions refuses the block that mines them.
   */
  lemma SamePoolAcceptsExactly(s: State, reward: Transaction, now: int, nonce: int, f: Functions)
    requires Sound(s, f) && ValidTransaction(reward, f) && reward.sender == SYSTEM && reward.amount == s.reward
    requires FirstNonce(Template(s, reward, now, f), nonce, f)
    ensures Admissible(s, Sealed(Template(s, reward, now, f), nonce, f), f)
       <==> now >= s.chain[|s.chain| - 1].timestamp && s.pool == []
  {
    var b := Sealed(Template(s, reward, now, f), nonce, f);
    MinedBlockAcceptedExactly(s, s.(pool := []), reward, now, nonce, f);
    PoolVetoesBlocks(s, b, f);
    PoolMissesItself(s, b, reward, f);
    hide Admissible, PoolMisses, NoneMint, ValidTransaction, RequiredDifficulty, BlockHash, MerkleRoot, Replayed, History, FirstNonce;
  }

  lemma PoolMissesItself(s: State, b: BlockData, reward: Transaction, f: Functions)
    requires Sound(s, f) && reward.sender == SYSTEM && b.transactions == s.pool + [reward]
    ensures PoolMisses(s, b, f) && NoneMint(s.pool) <==> s.pool == []
  {
    hide Replayed, History, ValidTransaction, HashAmong;
    if s.pool != [] {
      IsAmong(s.pool, 0, f);
      assert b.transactions[0] == s.pool[0];
    }
  }

  // ---------- What a peer block may do ----------

  /** A block that carries one transfer twice and the mint once, before a nonce is found. */
  function Repeating(s: State, t: Transaction, mint: Transaction, now: int, f: Functions): BlockData
    requires s.chain != []
  {
    var transactions := [t, t, mint];
    BlockData(|s.chain|, now, transactions, s.chain[|s.chain| - 1].hash, MerkleRoot(transactions, f),
              RequiredDifficulty(s.chain, |s.chain|, s.difficulty), 0, "")
  }

  /**
   Whatever the hashes and the signature check: every ledger accepts from a peer any valid
   transfer it has not seen, twice in one block, and debits its sender twice, whatever the
   sender owns.
   */
  lemma RepeatedTransferAccepted(s: State, t: Transaction, mint: Transaction, now: int, nonce: int, f: Functions)
    requires Sound(s, f) && ValidTransaction(t, f) && t.sender != SYSTEM && !Exists(s, t, f)
    requires ValidTransaction(mint, f) && mint.sender == SYSTEM && mint.amount == s.reward
    requires now >= s.chain[|s.chain| - 1].timestamp
    requires ProofOfWork(Sealed(Repeating(s, t, mint, now, f), nonce, f).hash, Repeating(s, t, mint, now, f).difficulty)
    ensures
      var b := Sealed(Repeating(s, t, mint, now, f), nonce, f);
      && Admissible(s, b, f) && !RepeatFree(b.transactions, f)
      && BalanceOf(Received(s, b, f).balances, t.sender)
         == BalanceOf(s.balances, t.sender) - 2 * t.amount + (if mint.receiver == t.sender then mint.amount else 0)
  {
    hide Extends, NoReplay, OneReward, RepeatFree, Exists, Replayed, History, ProofOfWork, Repeating, Sealed, Fresh;
    var b := Sealed(Repeating(s, t, mint, now, f), nonce, f);
    RepeatingExtends(s, t, mint, now, nonce, f);
    RepeatingIsNew(s, b, t, mint, f);
    RepeatingMintsOnce(b, t, mint, f);
    RepeatingDebits(s, b, t, mint);
  }

  lemma RepeatingMintsOnce(b: BlockData, t: Transaction, mint: Transaction, f: Functions)
    requires b.transactions == [t, t, mint] && t.sender != SYSTEM && mint.sender == SYSTEM
    ensures OneReward(b.transactions, mint.amount) && !RepeatFree(b.transactions, f)
  {
    assert MintsOnlyAt(b.transactions, 2);
    assert !NotReplayed(b.transactions[0], b.transactions[1], f);
  }

  lemma RepeatingExtends(s: State, t: Transaction, mint: Transaction, now: int, nonce: int, f: Functions)
    requires s.chain != [] && ValidTransaction(t, f) && ValidTransaction(mint, f)
    requires now >= s.chain[|s.chain| - 1].timestamp
    requires ProofOfWork(Sealed(Repeating(s, t, mint, now, f), nonce, f).hash, Repeating(s, t, mint, now, f).difficulty)
    ensures Extends(s, Sealed(Repeating(s, t, mint, now, f), nonce, f), f)
    ensures Sealed(Repeating(s, t, mint, now, f), nonce, f).transactions == [t, t, mint]
  {
    hide ValidTransaction, RequiredDifficulty, MerkleRoot, ProofOfWork;
  }

  lemma RepeatingIsNew(s: State, b: BlockData, t: Transaction, mint: Transaction, f: Functions)
    requires b.transactions == [t, t, mint] && mint.sender == SYSTEM && !Exists(s, t, f)
    ensures NoReplay(s, b.transactions, f)
  {
    hide Exists;
  }

  lemma RepeatingDebits(s: State, b: BlockData, t: Transaction, mint: Transaction)
    requires s.balances == Replayed(History(s.chain)) && b.transactions == [t, t, mint]
    requires t.sender != SYSTEM && t.sender != t.receiver && mint.sender == SYSTEM
    ensures BalanceOf(Replayed(History(s.chain + [b])), t.sender)
         == BalanceOf(s.balances, t.sender) - 2 * t.amount + (if mint.receiver == t.sender then mint.amount else 0)
  {
    hide Replayed, History, Outflow, Inflow;
    HistoryAppend(s.chain, b);
    CacheIsNet(History(s.chain), t.sender);
    CacheIsNet(History(s.chain) + b.transactions, t.sender);
    NetConcat(History(s.chain), b.transactions, t.sender);
    ThreeSums(t, t, mint, t.sender);
  }

  // A concrete ledger: constant hashes, every signature accepted, difficulty zero.

  function Permissive(): Functions {
    Functions(_ => seq(32, _ => 0), _ => [], _ => [], _ => true)
  }

  function PermissiveText(): string {
    HexOf(seq(32, _ => 0))
  }

  function Start(): State {
    State([BlockData(0, 0, [], "0", PermissiveText(), 0, 1, PermissiveText())], [], 0, 50 * COIN, map[])
  }

  function Payment(): Transaction {
    Transaction("alice", "bob", 1, 0, 0, "", "")
  }

  /** The same payment twice, from an address that owns nothing, beside a correct reward. */
  function Overspend(): BlockData {
    BlockData(1, 0, [Payment(), Payment(), Transaction(SYSTEM, "miner", 50 * COIN, 0, 0, "", "")],
          PermissiveText(), PermissiveText(), 0, 1, PermissiveText())
  }

  /**
   A fresh ledger accepts from a peer a block that spends what nobody owns and carries the
   same transaction twice: the replay test does not compare transactions inside the block.
   */
  lemma PeerBlockCanOverspendAndRepeat()
    ensures
      var s, b, f := Start(), Overspend(), Permissive();
      && Initial(s, 0, 50 * COIN, 0, 1, f) && Admissible(s, b, f)
      && BalanceOf(Received(s, b, f).balances, "alice") == -2
      && b.transactions[0] == b.transactions[1] && b.transactions[0].sender != SYSTEM
  {
    StartIsInitial();
    OverspendIsAdmissible();
    OverspendLeaves();
    hide Initial, Admissible, Replayed, History, HexOf, Without, BalanceOf;
  }

  lemma OverspendIsAdmissible()
    ensures Admissible(Start(), Overspend(), Permissive())
  {
    ConstantRoot(Overspend().transactions);
    OverspendIsExtension();
    StartIsEmpty(Overspend().transactions);
    hide Extends, History, HexOf, NoReplay;
    assert MintsOnlyAt(Overspend().transactions, 2);
  }

  lemma StartIsEmpty(transactions: seq<Transaction>)
    ensures NoReplay(Start(), transactions, Permissive())
  {
    hide HexOf;
    assert History(Start().chain) == [];
  }

  lemma StartIsInitial()
    ensures Initial(Start(), 0, 50 * COIN, 0, 1, Permissive())
  {
    ConstantRoot([]);
    hide MerkleRoot, HexOf;
    assert forall b :: BlockHash(b, Permissive()) == PermissiveText();
  }

  lemma OverspendLeaves()
    ensures BalanceOf(Replayed(History(Start().chain + [Overspend()])), "alice") == -2
  {
    var s, b := Start(), Overspend();
    HistoryAppend(s.chain, b);
    assert History(s.chain) == [];
    var all := b.transactions;
    hide Replayed, History, HexOf;
    assert [] + all == all;
    CacheIsNet(all, "alice");
    ThreeSums(all[0], all[1], all[2], "alice");
  }

  lemma ThreeSums(t: Transaction, u: Transaction, v: Transaction, address: string)
    ensures Outflow([t, u, v], address)
         == (if t.sender == address then t.amount else 0) + (if u.sender == address then u.amount else 0)
            + if v.sender == address then v.amount else 0
    ensures Inflow([t, u, v], address)
         == (if t.receiver == address then t.amount else 0) + (if u.receiver == address then u.amount else 0)
            + if v.receiver == address then v.amount else 0
  {
    assert [t, u, v] == [t] + [u] + [v];
    OutflowConcat([t] + [u], [v], address);
    OutflowConcat([t], [u], address);
    InflowConcat([t] + [u], [v], address);
    InflowConcat([t], [u], address);
  }

  lemma OverspendIsExtension()
    requires MerkleRoot(Overspend().transactions, Permissive()) == PermissiveText()
    ensures Extends(Start(), Overspend(), Permissive())
  {
    hide HexOf, MerkleRoot;
    var b, f := Overspend(), Permissive();
    assert BlockHash(b, f) == b.hash;
    forall i | 0 <= i < 3
      ensures ValidTransaction(b.transactions[i], f)
    {
    }
  }

  lemma {:induction false} ConstantTree(a: seq<seq<byte>>)
    ensures Merkle.MTH(a, Permissive().sha256) == seq(32, _ => 0)
  {
  }

  lemma ConstantRoot(transactions: seq<Transaction>)
    ensures MerkleRoot(transactions, Permissive()) == PermissiveText()
  {
    ConstantTree(Hashes(transactions, Permissive()));
  }

  // ---------- Failed loads ----------

  function Magnitude(x: int): nat {
    if x >= 0 then x else 0 - x
  }

  /** An integer survives a double exactly when it is a multiple of the spacing of doubles around it. */
  lemma SurvivesDoubleExactly(x: int)
    ensures ThroughDouble(x) == x <==> Magnitude(x) % Spacing(Magnitude(x)) == 0
  {
    var n := Magnitude(x);
    RoundedExactly(n, Spacing(n));
  }

  lemma RoundedExactly(n: nat, u: nat)
    requires u >= 1
    ensures Rounded(n, u) == n <==> n % u == 0
  {
    var q, r := n / u, n % u;
    assert n == q * u + r;
    assert (q + 1) * u == q * u + u;
  }

  /**
   A load that fails leaves the ledger exactly as it was, except that a file that parses but
   does not validate sends the mining reward through a double: it is restored exactly when
   the reward is a multiple of the spacing of doubles around it.
   */
  lemma FailedLoadRestoresExactly(s: State, file: File, f: Functions)
    requires !Loads(file, f)
    ensures Loaded(s, file, f).(reward := s.reward) == s
    ensures Loaded(s, file, f) == s <==> !Parses(file, f) || Magnitude(s.reward) % Spacing(Magnitude(s.reward)) == 0
  {
    SurvivesDoubleExactly(s.reward);
    hide Loads, Parses, ThroughDouble, Spacing;
  }

  /** Every reward within the supply cap survives; one unit past 2^53 does not. */
  lemma RewardsThatSurvive(x: int)
    ensures Magnitude(x) <= MAX_MONEY ==> ThroughDouble(x) == x
    ensures ThroughDouble(0x20_0000_0000_0001) == 0x20_0000_0000_0000
  {
  }

  /** The spacing is the power of two that gives the integer 53 significant bits. */
  lemma {:induction false} SpacingExactly(n: nat)
    ensures n < 0x20_0000_0000_0000 ==> Spacing(n) == 1
    ensures n >= 0x20_0000_0000_0000 ==>
      Merkle.PowerOfTwo(Spacing(n)) && Spacing(n) * 0x10_0000_0000_0000 <= n < Spacing(n) * 0x20_0000_0000_0000
  {
    if n >= 0x20_0000_0000_0000 {
      SpacingExactly(n / 2);
      assert Spacing(n) == 2 * Spacing(n / 2);
      assert Merkle.PowerOfTwo(1);
    }
  }

  /** The result is the nearest multiple of the spacing, and of two nearest ones the even one. */
  lemma NearestDouble(x: int)
    ensures
      var n, u := Magnitude(x), Spacing(Magnitude(x));
      var d := Magnitude(ThroughDouble(x));
      && d % u == 0 && 2 * (d - n) <= u && 2 * (n - d) <= u
      && (2 * (d - n) == u || 2 * (n - d) == u ==> (d / u) % 2 == 0)
      && (ThroughDouble(x) >= 0 <==> x >= 0 || d == 0)
  {
    var n := Magnitude(x);
    RoundedNearest(n, Spacing(n));
    hide Spacing, Rounded;
  }

  lemma RoundedNearest(n: nat, u: nat)
    requires u >= 1
    ensures
      var d := Rounded(n, u);
      && d % u == 0 && 2 * (d - n) <= u && 2 * (n - d) <= u
      && (2 * (d - n) == u || 2 * (n - d) == u ==> (d / u) % 2 == 0)
  {
    var q, r := n / u, n % u;
    assert n == q * u + r;
    assert (q + 1) * u == q * u + u;
    QuotientUnique(q * u, u, q, 0);
    QuotientUnique((q + 1) * u, u, q + 1, 0);
  }

  // ---------- Saving and loading ----------

  /** What is written to a file: the difficulty, the reward and every block. The pool is not. */
  function Saved(s: State): File {
    File(s.difficulty, s.reward, s.chain)
  }

  /**
   A saved ledger loads, into any ledger, exactly when its chain is valid and its reward can be
   paid; it comes back as it was, with an empty pool.
   */
  lemma SavedLoadsExactly(s: State, other: State, f: Functions)
    requires Sound(s, f)
    ensures Loads(Saved(s), f) <==> ValidChain(s.chain, s.difficulty, f) && 0 < s.reward <= 2_100_000_000_000_000
    ensures Loads(Saved(s), f) ==> Loaded(other, Saved(s), f) == s.(pool := [])
  {
    hide Replayed, History, Fresh;
    if ValidChain(s.chain, s.difficulty, f) {
      ValidRootsMatch(s.chain, s.difficulty, f);
    }
    hide ValidChain, RootsMatch;
  }

  lemma ValidRootsMatch(chain: seq<BlockData>, initial: int, f: Functions)
    requires ValidChain(chain, initial, f)
    ensures RootsMatch(chain, f)
  {
    hide RequiredDifficulty, MerkleRoot, BlockHash;
    forall i | 0 <= i < |chain|
      ensures chain[i].merkleRoot == MerkleRoot(chain[i].transactions, f)
    {
      assert i > 0 ==> Follows(chain, i, initial, f);
    }
  }

  /** So the ledger of every run whose mining clock is never behind the tip survives a save and a load if its reward can be paid. */
  lemma RunsSurviveSaving(s: State, ops: seq<Operation>, other: State, difficulty: int, reward: int, now: int, nonce: int, f: Functions)
    requires Initial(s, difficulty, reward, now, nonce, f) && Run(s, ops, f) && TimelyRun(s, ops, f)
    ensures
      var end := After(s, ops, f);
      0 < end.reward <= 2_100_000_000_000_000 ==> Loaded(other, Saved(end), f) == end.(pool := [])
  {
    RunsStayValid(s, ops, difficulty, reward, now, nonce, f);
    GenesisSound(s, difficulty, reward, now, nonce, f);
    RunKeepsSound(s, ops, f);
    hide Initial, Run, TimelyRun, ValidChain, Loaded, Loads, Sound;
    SavedLoadsExactly(After(s, ops, f), other, f);
  }

  // ---------- Proof of work ----------

  /** A difficulty asks for that many leading zeros. */
  lemma ProofOfWorkIsZeros(hash: string, difficulty: int)
    ensures ProofOfWork(hash, difficulty) <==> difficulty >= 0 && exists rest :: hash == Zeros(difficulty) + rest
  {
    if ProofOfWork(hash, difficulty) {
      assert hash == Zeros(difficulty) + hash[difficulty..];
    }
  }

  // ---------- The difficulty schedule ----------

  /** From one block to the next the difficulty moves by at most one, and it never falls below one once there. */
  lemma {:induction false} DifficultyMovesByOne(chain: seq<BlockData>, initial: int, f: Functions, i: nat)
    requires ValidChain(chain, initial, f) && 1 <= i < |chain|
    ensures -1 <= chain[i].difficulty - chain[i - 1].difficulty <= 1
    ensures chain[i - 1].difficulty >= 1 ==> chain[i].difficulty >= 1
  {
    assert Follows(chain, i, initial, f);
    if i < ADJUSTMENT_INTERVAL && i > 1 {
      assert Follows(chain, i - 1, initial, f);
    }
    assert ProofOfWork(chain[i - 1].hash, chain[i - 1].difficulty) by {
      if i > 1 {
        assert Follows(chain, i - 1, initial, f);
      }
    }
  }

  /** A schedule that starts at one or more stays there. */
  lemma {:induction false} DifficultyStaysPositive(chain: seq<BlockData>, initial: int, f: Functions, i: nat)
    requires ValidChain(chain, initial, f) && initial >= 1 && i < |chain|
    ensures chain[i].difficulty >= 1
  {
    hide Follows, RequiredDifficulty;
    if i > 0 {
      DifficultyStaysPositive(chain, initial, f, i - 1);
      DifficultyMovesByOne(chain, initial, f, i);
    }
  }

  /** The ten blocks below a height were made within less than 150 seconds. */
  predicate TooFast(chain: seq<BlockData>, height: nat)
    requires 10 <= height < |chain|
  {
    chain[height - 1].timestamp - chain[height - 10].timestamp < 150
  }

  /** They took more than 600 seconds. */
  predicate TooSlow(chain: seq<BlockData>, height: nat)
    requires 10 <= height < |chain|
  {
    chain[height - 1].timestamp - chain[height - 10].timestamp > 600
  }

  /**
   From height 10 on a block is harder than the one before exactly when the window was too
   fast, and easier exactly when it was too slow and there was room above one. The one
   exception: a slow window also lifts a difficulty of zero to one.
   */
  lemma RetargetExactly(chain: seq<BlockData>, initial: int, f: Functions, i: nat)
    requires ValidChain(chain, initial, f) && 10 <= i < |chain|
    ensures
      var before, here := chain[i - 1].difficulty, chain[i].difficulty;
      && (here > before <==> TooFast(chain, i) || (TooSlow(chain, i) && before == 0))
      && (here < before <==> TooSlow(chain, i) && before > 1)
  {
    assert Follows(chain, i, initial, f) && Follows(chain, i - 1, initial, f);
    assert ProofOfWork(chain[i - 1].hash, chain[i - 1].difficulty);
  }

  /**
   The window slides: while blocks come faster than half the target rate, every block from
   height 10 on is one harder than the one before, not one block in ten.
   */
  lemma {:induction false} FastBlocksRaiseEveryBlock(chain: seq<BlockData>, initial: int, f: Functions, i: nat)
    requires ValidChain(chain, initial, f) && i < |chain|
    requires forall j :: 10 <= j <= i ==> TooFast(chain, j)
    ensures chain[i].difficulty == initial + Max(0, i - 9)
  {
    hide ValidBlock;
    if i > 0 {
      FastBlocksRaiseEveryBlock(chain, initial, f, i - 1);
      assert i >= 10 ==> TooFast(chain, i);
      assert Follows(chain, i, initial, f);
    }
  }

  /** A hash has 64 digits, so a chain made that fast has an end, 74 blocks at most. */
  lemma FastChainsEnd(chain: seq<BlockData>, initial: int, f: Functions)
    requires ValidChain(chain, initial, f) && initial >= 0
    requires forall j :: 10 <= j < |chain| ==> TooFast(chain, j)
    ensures |chain| <= 74 - initial
  {
    var i := |chain| - 1;
    FastBlocksRaiseEveryBlock(chain, initial, f, i);
    assert ValidBlock(chain[i], f) by {
      if i > 0 {
        assert Follows(chain, i, initial, f);
      }
    }
    assert |chain[i].hash| == 64;
  }
}
