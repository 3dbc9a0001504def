/**
 The ledger: what a transaction, a block and a chain must satisfy, and what each operation of
 the node does to its chain, transaction pool, balance cache, difficulty and mining reward.
 */
module Ledger {
  import opened Hex
  import Merkle

  const SYSTEM: string := "system"
  const COIN: int := 100_000_000
  const MAX_MONEY: int := 21_000_000 * COIN
  const ADJUSTMENT_INTERVAL: nat := 10
  const TARGET_BLOCK_TIME: int := 30

  datatype Transaction = Transaction(
    sender: string, receiver: string, amount: int, timestamp: int, salt: nat, signature: string, publicKey: string)

  /** Everything a block's hash is computed over. */
  datatype Header = Header(
    index: int, timestamp: int, previousHash: string, merkleRoot: string, difficulty: int, nonce: int,
    transactionHashes: seq<seq<byte>>)

  datatype BlockData = BlockData(
    index: int, timestamp: int, transactions: seq<Transaction>, previousHash: string, merkleRoot: string,
    difficulty: int, nonce: int, hash: string)

  /** What is not computed here: hashing, the texts that are hashed, and the signature and key checks. */
  datatype Functions = Functions(
    sha256: Hash,
    transactionHash: Transaction -> seq<byte>,
    headerText: Header -> seq<byte>,
    signedBySender: Transaction -> bool)

  type Balances = map<string, int>

  datatype State = State(chain: seq<BlockData>, pool: seq<Transaction>, difficulty: int, reward: int, balances: Balances)

  // ---------- Transactions ----------

  predicate ValidAmount(amount: int) {
    0 < amount <= MAX_MONEY
  }

  predicate ValidTransaction(t: Transaction, f: Functions) {
    && t.sender != "" && t.receiver != ""
    && ValidAmount(t.amount)
    && t.sender != t.receiver
    && (t.sender == SYSTEM || f.signedBySender(t))
  }

  function Hashes(transactions: seq<Transaction>, f: Functions): (hashes: seq<seq<byte>>)
    ensures |hashes| == |transactions|
    ensures forall i :: 0 <= i < |hashes| ==> hashes[i] == f.transactionHash(transactions[i])
  {
    if transactions == [] then []
    else Hashes(transactions[..|transactions| - 1], f) + [f.transactionHash(transactions[|transactions| - 1])]
  }

  predicate HashAmong(hash: seq<byte>, transactions: seq<Transaction>, f: Functions) {
    hash in Hashes(transactions, f)
  }

  // ---------- Blocks ----------

  predicate ProofOfWork(hash: string, difficulty: int) {
    0 <= difficulty <= |hash| && forall i :: 0 <= i < difficulty ==> hash[i] == '0'
  }

  function MerkleRoot(transactions: seq<Transaction>, f: Functions): string {
    HexOf(Merkle.MTH(Hashes(transactions, f), f.sha256))
  }

  function HeaderOf(b: BlockData, f: Functions): Header {
    Header(b.index, b.timestamp, b.previousHash, b.merkleRoot, b.difficulty, b.nonce, Hashes(b.transactions, f))
  }

  function BlockHash(b: BlockData, f: Functions): string {
    HexOf(f.sha256(f.headerText(HeaderOf(b, f))))
  }

  predicate AllValid(transactions: seq<Transaction>, f: Functions) {
    forall i :: 0 <= i < |transactions| ==> ValidTransaction(transactions[i], f)
  }

  predicate ValidBlock(b: BlockData, f: Functions) {
    && b.hash == BlockHash(b, f)
    && ProofOfWork(b.hash, b.difficulty)
    && AllValid(b.transactions, f)
    && b.merkleRoot == MerkleRoot(b.transactions, f)
  }

  predicate ValidWithDifficulty(b: BlockData, required: int, f: Functions) {
    b.difficulty == required && ValidBlock(b, f)
  }

  /** The block with a nonce and the hash that goes with it. */
  function Sealed(b: BlockData, nonce: int, f: Functions): BlockData {
    b.(nonce := nonce, hash := BlockHash(b.(nonce := nonce), f))
  }

  /** The nonce the mining search stops at: the first one from 1 up whose hash meets the difficulty. */
  ghost predicate FirstNonce(b: BlockData, nonce: int, f: Functions) {
    && nonce >= 1
    && ProofOfWork(Sealed(b, nonce, f).hash, b.difficulty)
    && forall m :: 1 <= m < nonce ==> !ProofOfWork(Sealed(b, m, f).hash, b.difficulty)
  }

  // ---------- The chain ----------

  function Max(a: int, b: int): int {
    if a < b then b else a
  }

  /** The difficulty required at a height, from the ten blocks below it. */
  function RequiredDifficulty(chain: seq<BlockData>, height: nat, initial: int): int
    requires height <= |chain|
  {
    if height < ADJUSTMENT_INTERVAL then initial
    else
      var expected := TARGET_BLOCK_TIME * ADJUSTMENT_INTERVAL;
      var actual := chain[height - 1].timestamp - chain[height - ADJUSTMENT_INTERVAL].timestamp;
      var current := chain[height - 1].difficulty;
      if actual < expected / 2 then current + 1
      else if actual > expected * 2 then Max(1, current - 1)
      else current
  }

  predicate Follows(chain: seq<BlockData>, i: nat, initial: int, f: Functions)
    requires 1 <= i < |chain|
  {
    && ValidWithDifficulty(chain[i], RequiredDifficulty(chain, i, initial), f)
    && chain[i].previousHash == chain[i - 1].hash
    && chain[i].timestamp >= chain[i - 1].timestamp
  }

  predicate ValidChain(chain: seq<BlockData>, initial: int, f: Functions) {
    && |chain| >= 1
    && ValidWithDifficulty(chain[0], initial, f)
    && forall i :: 1 <= i < |chain| ==> Follows(chain, i, initial, f)
  }

  /** All transactions of the chain, in order. */
  function History(chain: seq<BlockData>): seq<Transaction> {
    if chain == [] then [] else History(chain[..|chain| - 1]) + chain[|chain| - 1].transactions
  }

  // ---------- Balances ----------

  function BalanceOf(balances: Balances, address: string): int {
    if address in balances then balances[address] else 0
  }

  function Credit(balances: Balances, address: string, amount: int): Balances {
    balances[address := BalanceOf(balances, address) + amount]
  }

  /** "system" mints: it is never debited. */
  function Applied(balances: Balances, t: Transaction): Balances {
    var credited := Credit(balances, t.receiver, t.amount);
    if t.sender != SYSTEM then Credit(credited, t.sender, -t.amount) else credited
  }

  function Replayed(history: seq<Transaction>): Balances {
    if history == [] then map[] else Applied(Replayed(history[..|history| - 1]), history[|history| - 1])
  }

  /** The total `address` sends, of whatever transactions are given. */
  function Outflow(transactions: seq<Transaction>, address: string): int {
    if transactions == [] then 0
    else
      var last := transactions[|transactions| - 1];
      Outflow(transactions[..|transactions| - 1], address) + if last.sender == address then last.amount else 0
  }

  // ---------- The operations ----------

  ghost function Genesis(difficulty: int, reward: int, now: int, nonce: int, f: Functions): State {
    State([Sealed(GenesisTemplate(difficulty, now, f), nonce, f)], [], difficulty, reward, map[])
  }

  function GenesisTemplate(difficulty: int, now: int, f: Functions): BlockData {
    BlockData(0, now, [], "0", MerkleRoot([], f), difficulty, 0, "")
  }

  predicate Exists(s: State, t: Transaction, f: Functions) {
    var hash := f.transactionHash(t);
    HashAmong(hash, History(s.chain), f) || HashAmong(hash, s.pool, f)
  }

  predicate Acceptable(s: State, t: Transaction, f: Functions) {
    && ValidTransaction(t, f)
    && !Exists(s, t, f)
    && (t.sender == SYSTEM || BalanceOf(s.balances, t.sender) - Outflow(s.pool, t.sender) >= t.amount)
  }

  function Submitted(s: State, t: Transaction, f: Functions): State {
    if Acceptable(s, t, f) then s.(pool := s.pool + [t]) else s
  }

  function ValidOnes(transactions: seq<Transaction>, f: Functions): (kept: seq<Transaction>)
    ensures AllValid(kept, f)
    ensures AllValid(transactions, f) ==> kept == transactions
  {
    if transactions == [] then []
    else
      var last := transactions[|transactions| - 1];
      ValidOnes(transactions[..|transactions| - 1], f) + if ValidTransaction(last, f) then [last] else []
  }

  function RewardTransaction(s: State, address: string, time: int, salt: nat): Transaction {
    Transaction(SYSTEM, address, s.reward, time, salt, "", "")
  }

  /** The block mining starts from, before a nonce is found. */
  function Template(s: State, reward: Transaction, now: int, f: Functions): BlockData
    requires s.chain != []
  {
    var transactions := ValidOnes(s.pool, f) + [reward];
    BlockData(|s.chain|, now, transactions, s.chain[|s.chain| - 1].hash, MerkleRoot(transactions, f),
          RequiredDifficulty(s.chain, |s.chain|, s.difficulty), 0, "")
  }

  function Appended(s: State, b: BlockData, pool: seq<Transaction>): State {
    var chain := s.chain + [b];
    s.(chain := chain, pool := pool, balances := Replayed(History(chain)))
  }

  function Mined(s: State, reward: Transaction, now: int, nonce: int, f: Functions): State
    requires s.chain != []
  {
    if ValidTransaction(reward, f) then Appended(s, Sealed(Template(s, reward, now, f), nonce, f), []) else s
  }

  predicate Extends(s: State, b: BlockData, f: Functions)
    requires s.chain != []
  {
    var tip := s.chain[|s.chain| - 1];
    && b.index == |s.chain|
    && b.previousHash == tip.hash
    && b.timestamp >= tip.timestamp
    && ValidWithDifficulty(b, RequiredDifficulty(s.chain, |s.chain|, s.difficulty), f)
  }

  predicate NoReplay(s: State, transactions: seq<Transaction>, f: Functions) {
    forall i :: 0 <= i < |transactions| ==> transactions[i].sender == SYSTEM || !Exists(s, transactions[i], f)
  }

  /** Exactly one mint, of exactly the expected amount. */
  predicate OneReward(transactions: seq<Transaction>, reward: int) {
    exists i :: 0 <= i < |transactions| && MintsOnlyAt(transactions, i) && transactions[i].amount == reward
  }

  predicate MintsOnlyAt(transactions: seq<Transaction>, i: nat) {
    forall j :: 0 <= j < |transactions| ==> (transactions[j].sender == SYSTEM <==> j == i)
  }

  predicate Admissible(s: State, b: BlockData, f: Functions)
    requires s.chain != []
  {
    Extends(s, b, f) && NoReplay(s, b.transactions, f) && OneReward(b.transactions, s.reward)
  }

  /** The transactions of the pool whose hash is not among the given ones. */
  function Without(pool: seq<Transaction>, included: seq<Transaction>, f: Functions): (kept: seq<Transaction>)
    ensures forall i :: 0 <= i < |kept| ==> kept[i] in pool && !HashAmong(f.transactionHash(kept[i]), included, f)
  {
    if pool == [] then []
    else
      var last := pool[|pool| - 1];
      Without(pool[..|pool| - 1], included, f) + if HashAmong(f.transactionHash(last), included, f) then [] else [last]
  }

  function Received(s: State, b: BlockData, f: Functions): State
    requires s.chain != []
  {
    if Admissible(s, b, f) then Appended(s, b, Without(s.pool, b.transactions, f)) else s
  }

  // ---------- Loading ----------

  /** What was read from a file: nothing usable, or a header and blocks as written. */
  datatype File = Unreadable | File(difficulty: int, reward: int, blocks: seq<BlockData>)

  predicate RootsMatch(blocks: seq<BlockData>, f: Functions) {
    forall i :: 0 <= i < |blocks| ==> blocks[i].merkleRoot == MerkleRoot(blocks[i].transactions, f)
  }

  predicate Parses(file: File, f: Functions) {
    file.File? && ValidAmount(file.reward) && RootsMatch(file.blocks, f)
  }

  predicate Loads(file: File, f: Functions) {
    Parses(file, f) && ValidChain(file.blocks, file.difficulty, f)
  }

  /** The spacing of the binary floating-point numbers with 53 significant bits around an integer. */
  function Spacing(n: nat): (u: nat)
    ensures u >= 1
  {
    if n < 0x20_0000_0000_0000 then 1 else 2 * Spacing(n / 2)
  }

  /** The nearest multiple of `u`, halves going to the even one. */
  function Rounded(n: nat, u: nat): nat
    requires u >= 1
  {
    var q, r := n / u, n % u;
    if 2 * r < u || (2 * r == u && q % 2 == 0) then q * u else (q + 1) * u
  }

  /** An integer after a trip through a double. */
  function ThroughDouble(x: int): int {
    if x >= 0 then Rounded(x, Spacing(x)) else 0 - Rounded(0 - x, Spacing(0 - x))
  }

  /** A file that parses but does not validate is rolled back, the reward by way of a double. */
  function Loaded(s: State, file: File, f: Functions): State {
    if Loads(file, f) then State(file.blocks, [], file.difficulty, file.reward, Replayed(History(file.blocks)))
    else if Parses(file, f) then s.(reward := ThroughDouble(s.reward))
    else s
  }
}
