/** The node's ledger as an object. Every operation is the ledger step of the same name on the abstract state. */
module Blockchains {
  import opened Hex
  import opened Ledger
  import opened LedgerRuns
  import opened Blocks

  /** The values of a list of blocks. */
  function Datas(blocks: seq<Block>): (datas: seq<BlockData>)
    reads blocks
    ensures |datas| == |blocks|
    ensures forall i :: 0 <= i < |datas| ==> datas[i] == blocks[i].Data()
  {
    seq(|blocks|, i requires 0 <= i < |blocks| reads blocks => blocks[i].Data())
  }

  class Blockchain {
    const f: Functions
    var chain: seq<Block>
    var pending: seq<Transaction>
    var difficulty: int
    var miningReward: int
    var balances: Balances

    function State(): State
      reads this, chain
    {
      Ledger.State(Datas(chain), pending, difficulty, miningReward, balances)
    }

    /** All blocks of the chain hash and check with the same functions. */
    ghost predicate Valid()
      reads this, chain
    {
      chain != [] && Agree(chain)
    }

    ghost predicate Agree(blocks: seq<Block>)
      reads blocks
    {
      forall i :: 0 <= i < |blocks| ==> blocks[i].f == f
    }

    constructor (f: Functions, difficulty: int, reward: int, now: int, ghost nonce: int)
      requires FirstNonce(GenesisTemplate(difficulty, now, f), nonce, f)
      ensures Valid() && this.f == f && State() == Genesis(difficulty, reward, now, nonce, f)
    {
      hide FirstNonce, MerkleRoot, BlockHash, Replayed, History;
      this.f := f;
      this.difficulty, this.miningReward := difficulty, reward;
      this.chain, this.pending, this.balances := [], [], map[];
      new;
      var genesis := new Block(f, 0, "0", difficulty, now);
      Search(genesis, GenesisTemplate(difficulty, now, f), nonce);
      chain := [genesis];
      UpdateBalances();
      EmptyHistory(genesis.Data());
      assert Datas(chain) == [genesis.Data()];
    }

    method GetBalance(address: string) returns (balance: int)
      ensures balance == BalanceOf(balances, address)
    {
      balance := if address in balances then balances[address] else 0;
    }

    method PendingOutflow(address: string) returns (outflow: int)
      ensures outflow == Outflow(pending, address)
    {
      outflow := 0;
      for i := 0 to |pending|
        invariant outflow == Outflow(pending[..i], address)
      {
        assert pending[..i + 1][..i] == pending[..i];
        if pending[i].sender == address {
          outflow := outflow + pending[i].amount;
        }
      }
      assert pending[..|pending|] == pending;
    }

    /** Rebuilds the cache from the chain, block by block. */
    method UpdateBalances()
      modifies this`balances
      ensures balances == Replayed(History(Datas(chain)))
    {
      hide Replayed, Applied;
      EmptyReplay();
      balances := map[];
      for i := 0 to |chain|
        invariant balances == Replayed(History(Datas(chain)[..i]))
      {
        var transactions := chain[i].transactions;
        ghost var before := History(Datas(chain)[..i]);
        assert before + transactions[..0] == before;
        for j := 0 to |transactions|
          invariant balances == Replayed(before + transactions[..j])
        {
          ReplayStep(before + transactions[..j], transactions[j], balances);
          assert before + transactions[..j] + [transactions[j]] == before + transactions[..j + 1];
          var t := transactions[j];
          balances := Credit(balances, t.receiver, t.amount);
          if t.sender != SYSTEM {
            balances := Credit(balances, t.sender, -t.amount);
          }
        }
        assert transactions[..|transactions|] == transactions;
        HistoryAppend(Datas(chain)[..i], chain[i].Data());
        assert Datas(chain)[..i] + [chain[i].Data()] == Datas(chain)[..i + 1];
      }
      assert Datas(chain)[..|chain|] == Datas(chain);
    }

    method HashIn(hash: seq<byte>, transactions: seq<Transaction>) returns (found: bool)
      ensures found == HashAmong(hash, transactions, f)
    {
      for i := 0 to |transactions|
        invariant forall j :: 0 <= j < i ==> Hashes(transactions, f)[j] != hash
      {
        if f.transactionHash(transactions[i]) == hash {
          assert Hashes(transactions, f)[i] == hash;
          return true;
        }
      }
      return false;
    }

    method TransactionExists(t: Transaction) returns (found: bool)
      ensures found == Exists(State(), t, f)
    {
      var hash := f.transactionHash(t);
      hide HashAmong, History;
      NothingAmongNone(hash, f);
      for i := 0 to |chain|
        invariant !HashAmong(hash, History(Datas(chain)[..i]), f)
      {
        AmongAppended(hash, Datas(chain), i, f);
        var here := HashIn(hash, chain[i].transactions);
        if here {
          AmongWhole(hash, Datas(chain), i + 1, f);
          return true;
        }
      }
      assert Datas(chain)[..|chain|] == Datas(chain);
      found := HashIn(hash, pending);
    }

    method AddTransaction(t: Transaction)
      requires Valid()
      modifies this`pending
      ensures Valid() && State() == Submitted(old(State()), t, f)
    {
      hide ValidTransaction, Exists, Outflow, BalanceOf;
      if !ValidTransaction(t, f) {
        return;
      }
      var known := TransactionExists(t);
      if known {
        return;
      }
      if t.sender != SYSTEM {
        var balance := GetBalance(t.sender);
        var outflow := PendingOutflow(t.sender);
        if balance - outflow < t.amount {
          return;
        }
      }
      pending := pending + [t];
    }

    method CalculateRequiredDifficultyAtHeight(height: nat) returns (required: int)
      requires height <= |chain|
      ensures required == RequiredDifficulty(Datas(chain), height, difficulty)
    {
      if height < ADJUSTMENT_INTERVAL {
        return difficulty;
      }
      var start, previous := chain[height - ADJUSTMENT_INTERVAL], chain[height - 1];
      var expected := TARGET_BLOCK_TIME * ADJUSTMENT_INTERVAL;
      var actual := previous.timestamp - start.timestamp;
      var current := previous.difficulty;
      if actual < expected / 2 {
        return current + 1;
      } else if actual > expected * 2 {
        return Max(1, current - 1);
      }
      return current;
    }

    method ValidateBlockDifficulty(b: Block) returns (ok: bool)
      requires 0 <= b.index <= |chain|
      ensures ok == (b.difficulty == RequiredDifficulty(Datas(chain), b.index, difficulty))
    {
      var required := CalculateRequiredDifficultyAtHeight(b.index);
      ok := b.difficulty == required;
    }

    /** The block mining starts from, and whether its reward was acceptable. */
    method AssembleBlock(reward: Transaction, now: int) returns (b: Block, ok: bool)
      requires Valid()
      ensures fresh(b) && b.f == f && ok == ValidTransaction(reward, f)
      ensures ok ==> b.Data() == Template(State(), reward, now, f)
    {
      hide ValidTransaction, RequiredDifficulty, MerkleRoot, ValidOnes;
      var required := CalculateRequiredDifficultyAtHeight(|chain|);
      b := new Block(f, |chain|, chain[|chain| - 1].hash, required, now);
      PackPending(b);
      ok := b.AddTransaction(reward);
    }

    /** Offers every pending transaction to an empty block, which leaves out the invalid ones. */
    method PackPending(b: Block)
      requires b.f == f && b.transactions == [] && b.merkleRoot == MerkleRoot([], f)
      modifies b
      ensures
        var packed := ValidOnes(pending, f);
        b.Data() == old(b.Data()).(transactions := packed, merkleRoot := MerkleRoot(packed, f))
    {
      hide ValidTransaction, MerkleRoot, ValidOnes;
      NoneOffered(f);
      for i := 0 to |pending|
        invariant
          var packed := ValidOnes(pending[..i], f);
          b.Data() == old(b.Data()).(transactions := packed, merkleRoot := MerkleRoot(packed, f))
      {
        assert pending[..i + 1] == pending[..i] + [pending[i]];
        OneMoreOffered(pending[..i], pending[i], f);
        var added := b.AddTransaction(pending[i]);
      }
      assert pending[..|pending|] == pending;
    }

    /** Mines the pool and a reward; `nonce` is the one the search finds. An invalid reward aborts. */
    method MinePendingTransactions(address: string, rewardTime: int, salt: nat, now: int, ghost nonce: int)
      requires Valid() && Possible(State(), Mine(address, rewardTime, salt, now, nonce), f)
      modifies this
      ensures Valid() && State() == Next(old(State()), Mine(address, rewardTime, salt, now, nonce), f)
    {
      hide Mined, FirstNonce, Template, ValidTransaction;
      MineWithReward(Transaction(SYSTEM, address, miningReward, rewardTime, salt, "", ""), now, nonce);
    }

    method MineWithReward(reward: Transaction, now: int, ghost nonce: int)
      requires Valid() && (ValidTransaction(reward, f) ==> FirstNonce(Template(State(), reward, now, f), nonce, f))
      modifies this
      ensures Valid() && State() == Mined(old(State()), reward, now, nonce, f)
    {
      hide ValidTransaction, FirstNonce, Appended, RequiredDifficulty, MerkleRoot, ValidOnes;
      var b, ok := AssembleBlock(reward, now);
      if !ok {
        return;
      }
      SealAndAppend(b, Template(State(), reward, now, f), nonce);
    }

    /** The check of the difficulty after mining never fails. */
    method SealAndAppend(b: Block, ghost template: BlockData, ghost nonce: int)
      requires Valid() && b !in chain && b.f == f && b.Data() == template && FirstNonce(template, nonce, f)
      requires template.index == |chain| && template.difficulty == RequiredDifficulty(Datas(chain), |chain|, difficulty)
      modifies this, b
      ensures Valid() && State() == Appended(old(State()), Sealed(template, nonce, f), [])
    {
      hide FirstNonce, History, Replayed, RequiredDifficulty, BlockHash;
      Search(b, template, nonce);
      var required := ValidateBlockDifficulty(b);
      assert required;
      Push(b);
      pending := [];
      UpdateBalances();
    }

    /** Mining a block that is ready leaves the one seal the search can end on. */
    method Search(b: Block, ghost template: BlockData, ghost nonce: int)
      requires b.f == f && b.Data() == template && FirstNonce(template, nonce, f)
      modifies b
      ensures b.Data() == Sealed(template, nonce, f)
    {
      hide ProofOfWork, BlockHash;
      b.MineBlock(nonce);
      OneFirstNonce(template, nonce, b.nonce, f);
    }

    method Push(b: Block)
      modifies this`chain
      ensures chain == old(chain) + [b] && Datas(chain) == old(Datas(chain)) + [b.Data()]
    {
      ghost var before := Datas(chain);
      chain := chain + [b];
      assert Datas(chain) == before + [b.Data()];
    }

    method SetMiningReward(reward: int)
      requires Valid()
      modifies this`miningReward
      ensures Valid() && State() == Next(old(State()), SetReward(reward), f)
    {
      miningReward := reward;
    }

    method IsChainValid() returns (ok: bool)
      requires Agree(chain)
      ensures ok == ValidChain(Datas(chain), difficulty, f)
    {
      hide ValidWithDifficulty, RequiredDifficulty;
      if |chain| < 1 {
        return false;
      }
      ok := chain[0].IsValidWithDifficulty(difficulty);
      if !ok {
        return false;
      }
      for i := 1 to |chain|
        invariant forall j :: 1 <= j < i ==> Follows(Datas(chain), j, difficulty, f)
      {
        var required := CalculateRequiredDifficultyAtHeight(i);
        var valid := chain[i].IsValidWithDifficulty(required);
        if !valid || chain[i].previousHash != chain[i - 1].hash || chain[i].timestamp < chain[i - 1].timestamp {
          assert !Follows(Datas(chain), i, difficulty, f);
          return false;
        }
      }
      return true;
    }

    method BlockExtends(b: Block) returns (ok: bool)
      requires Valid() && b.f == f
      ensures ok == Extends(State(), b.Data(), f)
    {
      hide ValidWithDifficulty, RequiredDifficulty;
      var tip := chain[|chain| - 1];
      if b.index != |chain| {
        return false;
      }
      if b.previousHash != tip.hash {
        return false;
      }
      if b.timestamp < tip.timestamp {
        return false;
      }
      var required := CalculateRequiredDifficultyAtHeight(b.index);
      ok := b.IsValidWithDifficulty(required);
    }

    /** No transfer of the block is already in the chain or pending. */
    method BlockIsNew(b: Block) returns (ok: bool)
      ensures ok == NoReplay(State(), b.transactions, f)
    {
      hide Exists;
      for i := 0 to |b.transactions|
        invariant forall j :: 0 <= j < i ==> b.transactions[j].sender == SYSTEM || !Exists(State(), b.transactions[j], f)
      {
        if b.transactions[i].sender != SYSTEM {
          var found := TransactionExists(b.transactions[i]);
          if found {
            return false;
          }
        }
      }
      return true;
    }

    /** Exactly one system transaction, of the expected amount. */
    method BlockMintsOnce(b: Block) returns (ok: bool)
      ensures ok == OneReward(b.transactions, miningReward)
    {
      var count := 0;
      ghost var at := 0;
      for i := 0 to |b.transactions|
        invariant 0 <= count
        invariant count == 0 ==> forall j :: 0 <= j < i ==> b.transactions[j].sender != SYSTEM
        invariant count == 1 ==> 0 <= at < i && forall j :: 0 <= j < i ==> (b.transactions[j].sender == SYSTEM <==> j == at)
        invariant count > 1 ==> exists j, k :: 0 <= j < k < i && b.transactions[j].sender == SYSTEM && b.transactions[k].sender == SYSTEM
        invariant forall j :: 0 <= j < i && b.transactions[j].sender == SYSTEM ==> b.transactions[j].amount == miningReward
      {
        if b.transactions[i].sender == SYSTEM {
          count := count + 1;
          if b.transactions[i].amount != miningReward {
            return false;
          }
          if count == 1 {
            at := i;
          } else if count == 2 {
            assert b.transactions[at].sender == SYSTEM;
          }
        }
      }
      assert count == 1 ==> MintsOnlyAt(b.transactions, at);
      ok := count == 1;
    }

    /** Keeps the pending transactions whose hash is not in the block. */
    method DropIncluded(b: Block)
      modifies this`pending
      ensures pending == Without(old(pending), b.transactions, f)
    {
      hide HashAmong;
      if pending == [] {
        return;
      }
      var kept := [];
      for i := 0 to |pending|
        invariant pending == old(pending) && kept == Without(pending[..i], b.transactions, f)
      {
        assert pending[..i + 1][..i] == pending[..i];
        var included := HashIn(f.transactionHash(pending[i]), b.transactions);
        if !included {
          kept := kept + [pending[i]];
        }
      }
      assert pending[..|pending|] == pending;
      pending := kept;
    }

    /** A block from a peer, or from a caller that has none. */
    method AddBlock(b: Block?) returns (accepted: bool)
      requires Valid() && (b != null ==> b.f == f)
      modifies this
      ensures Valid()
      ensures b == null ==> !accepted && State() == old(State())
      ensures b != null ==> accepted == Admissible(old(State()), old(b.Data()), f)
      ensures b != null ==> State() == Received(old(State()), old(b.Data()), f)
    {
      hide Extends, NoReplay, OneReward, Without, History, Replayed;
      if b == null {
        return false;
      }
      var extends_ := BlockExtends(b);
      if !extends_ {
        return false;
      }
      var isNew := BlockIsNew(b);
      if !isNew {
        return false;
      }
      var mintsOnce := BlockMintsOnce(b);
      if !mintsOnce {
        return false;
      }
      Push(b);
      DropIncluded(b);
      UpdateBalances();
      return true;
    }

    /** Rebuilds the blocks of a file; fails on the first whose stored root is not the computed one. */
    method Parse(blocks: seq<BlockData>) returns (ok: bool, parsed: seq<Block>)
      ensures ok == RootsMatch(blocks, f)
      ensures ok ==> Datas(parsed) == blocks && Agree(parsed)
      ensures forall i :: 0 <= i < |parsed| ==> fresh(parsed[i])
    {
      hide MerkleRoot;
      parsed := [];
      for i := 0 to |blocks|
        invariant |parsed| == i && Agree(parsed)
        invariant forall j :: 0 <= j < i ==> fresh(parsed[j]) && parsed[j].Data() == blocks[j]
        invariant forall j :: 0 <= j < i ==> blocks[j].merkleRoot == MerkleRoot(blocks[j].transactions, f)
      {
        var data := blocks[i];
        var b := new Block(f, data.index, data.previousHash, data.difficulty, data.timestamp);
        b.SetTransactions(data.transactions);
        b.SetMinedState(data.nonce, data.hash);
        if b.merkleRoot != data.merkleRoot {
          return false, [];
        }
        parsed := parsed + [b];
      }
      assert Datas(parsed) == blocks;
      return true, parsed;
    }

    /** Adopts what a file holds if it validates. */
    method LoadFromFile(file: File) returns (ok: bool)
      requires Valid()
      modifies this
      ensures Valid() && ok == Loads(file, f) && State() == Loaded(old(State()), file, f)
    {
      hide ValidChain, RootsMatch, History, Replayed, ThroughDouble;
      if file.Unreadable? || !ValidAmount(file.reward) {
        return false;
      }
      var parses, parsed := Parse(file.blocks);
      if !parses {
        return false;
      }
      ok := Adopt(parsed, file.difficulty, file.reward);
    }

    /** Puts a parsed chain in place and validates it there; puts back what was there if that fails. */
    method Adopt(parsed: seq<Block>, fileDifficulty: int, fileReward: int) returns (ok: bool)
      requires Valid() && Agree(parsed)
      modifies this
      ensures Valid() && ok == ValidChain(old(Datas(parsed)), fileDifficulty, f)
      ensures State() == if ok then Ledger.State(old(Datas(parsed)), [], fileDifficulty, fileReward, Replayed(History(old(Datas(parsed)))))
                         else old(State()).(reward := ThroughDouble(old(miningReward)))
    {
      hide History, Replayed, ThroughDouble, Follows, ValidWithDifficulty;
      var previousChain, previousDifficulty := chain, difficulty;
      var previousReward := ThroughDouble(miningReward);
      chain := parsed;
      difficulty := fileDifficulty;
      miningReward := fileReward;
      ok := IsChainValid();
      if !ok {
        chain := previousChain;
        difficulty := previousDifficulty;
        miningReward := previousReward;
        return;
      }
      pending := [];
      UpdateBalances();
    }
  }

  /** The search has one outcome. */
  lemma OneFirstNonce(b: BlockData, m: int, n: int, f: Functions)
    requires FirstNonce(b, m, f) && FirstNonce(b, n, f)
    ensures m == n
  {
    hide ProofOfWork, Sealed;
  }

  lemma NoneOffered(f: Functions)
    ensures ValidOnes([], f) == []
  {
  }

  lemma OneMoreOffered(offered: seq<Transaction>, t: Transaction, f: Functions)
    ensures ValidOnes(offered + [t], f) == if ValidTransaction(t, f) then ValidOnes(offered, f) + [t] else ValidOnes(offered, f)
  {
    assert (offered + [t])[..|offered|] == offered;
    hide ValidTransaction;
  }

  lemma EmptyReplay()
    ensures Replayed([]) == map[] && History([]) == []
  {
  }

  lemma EmptyHistory(genesis: BlockData)
    requires genesis.transactions == []
    ensures Replayed(History([genesis])) == map[]
  {
    HistoryAppend([], genesis);
    assert [] + [genesis] == [genesis];
  }

  lemma ReplayStep(history: seq<Transaction>, t: Transaction, balances: Balances)
    requires balances == Replayed(history)
    ensures Replayed(history + [t])
         == var credited := Credit(balances, t.receiver, t.amount);
            if t.sender != SYSTEM then Credit(credited, t.sender, -t.amount) else credited
  {
    assert (history + [t])[..|history|] == history;
    hide Credit;
  }

  lemma NothingAmongNone(hash: seq<byte>, f: Functions)
    ensures !HashAmong(hash, History([]), f)
  {
  }

  lemma AmongAppended(hash: seq<byte>, chain: seq<BlockData>, i: nat, f: Functions)
    requires i < |chain|
    ensures HashAmong(hash, History(chain[..i + 1]), f)
       <==> HashAmong(hash, History(chain[..i]), f) || HashAmong(hash, chain[i].transactions, f)
  {
    assert chain[..i + 1] == chain[..i] + [chain[i]];
    HistoryAppend(chain[..i], chain[i]);
    HashesConcat(History(chain[..i]), chain[i].transactions, f);
    hide Hashes, History;
  }

  lemma {:induction false} AmongWhole(hash: seq<byte>, chain: seq<BlockData>, i: nat, f: Functions)
    requires i <= |chain| && HashAmong(hash, History(chain[..i]), f)
    ensures HashAmong(hash, History(chain), f)
    decreases |chain| - i
  {
    hide HashAmong, History;
    if i == |chain| {
      assert chain[..i] == chain;
    } else {
      AmongAppended(hash, chain, i, f);
      AmongWhole(hash, chain, i + 1, f);
    }
  }
}
