/** A block as an object: its transactions, root, nonce and hash are updated in place. */
module Blocks {
  import opened Hex
  import opened Ledger
  import Merkle

  method CheckProofOfWork(hash: string, difficulty: int) returns (ok: bool)
    ensures ok == ProofOfWork(hash, difficulty)
  {
    if difficulty < 0 {
      return false;
    }
    if difficulty > |hash| {
      return false;
    }
    for i := 0 to difficulty
      invariant forall j :: 0 <= j < i ==> hash[j] == '0'
    {
      if hash[i] != '0' {
        return false;
      }
    }
    return true;
  }

  class Block {
    const f: Functions
    var index: int
    var timestamp: int
    var transactions: seq<Transaction>
    var previousHash: string
    var merkleRoot: string
    var difficulty: int
    var nonce: int
    var hash: string

    /** The fields as a value. */
    function Data(): BlockData
      reads this
    {
      BlockData(index, timestamp, transactions, previousHash, merkleRoot, difficulty, nonce, hash)
    }

    constructor (f: Functions, index: int, previousHash: string, difficulty: int, timestamp: int)
      ensures this.f == f
      ensures Data() == BlockData(index, timestamp, [], previousHash, MerkleRoot([], f), difficulty, 0, "")
    {
      this.f := f;
      this.index, this.timestamp, this.transactions := index, timestamp, [];
      this.previousHash, this.difficulty, this.nonce, this.hash := previousHash, difficulty, 0, "";
      new;
      CalculateMerkleRoot();
    }

    method TransactionHashes() returns (hashes: seq<seq<byte>>)
      ensures hashes == Hashes(transactions, f)
    {
      hashes := [];
      for i := 0 to |transactions|
        invariant hashes == Hashes(transactions[..i], f)
      {
        assert transactions[..i + 1][..i] == transactions[..i];
        hashes := hashes + [f.transactionHash(transactions[i])];
      }
      assert transactions[..|transactions|] == transactions;
    }

    method CalculateMerkleRoot()
      modifies this`merkleRoot
      ensures merkleRoot == MerkleRoot(transactions, f)
    {
      if transactions == [] {
        merkleRoot := HexOf(f.sha256([]));
        return;
      }
      merkleRoot := ComputedRoot();
    }

    method ComputedRoot() returns (root: string)
      ensures root == MerkleRoot(transactions, f)
    {
      var hashes := TransactionHashes();
      ghost var hashed;
      root, hashed := Merkle.CalculateMerkleRoot(hashes, f.sha256);
    }

    /** Appends a valid transaction and recomputes the root; an invalid one changes nothing. */
    method AddTransaction(t: Transaction) returns (added: bool)
      modifies this`transactions, this`merkleRoot
      ensures added == ValidTransaction(t, f)
      ensures
        var all := old(transactions) + [t];
        Data() == if added then old(Data()).(transactions := all, merkleRoot := MerkleRoot(all, f)) else old(Data())
    {
      if !ValidTransaction(t, f) {
        return false;
      }
      transactions := transactions + [t];
      CalculateMerkleRoot();
      return true;
    }

    method SetTransactions(all: seq<Transaction>)
      modifies this`transactions, this`merkleRoot
      ensures Data() == old(Data()).(transactions := all, merkleRoot := MerkleRoot(all, f))
    {
      transactions := all;
      CalculateMerkleRoot();
    }

    method SetMinedState(nonce: int, hash: string)
      modifies this`nonce, this`hash
      ensures Data() == old(Data()).(nonce := nonce, hash := hash)
    {
      this.nonce := nonce;
      this.hash := hash;
    }

    method CalculateHash() returns (h: string)
      ensures h == BlockHash(Data(), f)
    {
      var hashes := TransactionHashes();
      h := HexOf(f.sha256(f.headerText(Header(index, timestamp, previousHash, merkleRoot, difficulty, nonce, hashes))));
    }

    /** Ends on the first nonce whose hash meets the difficulty, given that `some` is one, and goes no further than that. */
    method MineBlock(ghost some: int)
      requires some >= 1 && ProofOfWork(Sealed(Data(), some, f).hash, difficulty)
      modifies this`nonce, this`hash
      ensures Data() == Sealed(old(Data()), nonce, f) && FirstNonce(old(Data()), nonce, f) && nonce <= some
    {
      hide ProofOfWork, BlockHash;
      nonce := 0;
      var found := false;
      while !found
        invariant 0 <= nonce <= some
        invariant found ==> nonce >= 1 && hash == Sealed(old(Data()), nonce, f).hash && ProofOfWork(hash, difficulty)
        invariant forall m :: 1 <= m <= nonce && !(found && m == nonce) ==> !ProofOfWork(Sealed(old(Data()), m, f).hash, difficulty)
        decreases some - nonce, !found
      {
        nonce := nonce + 1;
        SealIgnoresHash(old(Data()), Data(), f);
        hash := CalculateHash();
        found := CheckProofOfWork(hash, difficulty);
      }
    }

    /** Hash, proof of work, every transaction and the Merkle root. */
    method IsValid() returns (ok: bool)
      ensures ok == ValidBlock(Data(), f)
    {
      hide ProofOfWork, BlockHash, MerkleRoot, AllValid;
      var computed := CalculateHash();
      if hash != computed {
        return false;
      }
      var worked := CheckProofOfWork(hash, difficulty);
      if !worked {
        return false;
      }
      var allValid := TransactionsValid();
      if !allValid {
        return false;
      }
      var root := ComputedRoot();
      ok := merkleRoot == root;
    }

    method TransactionsValid() returns (ok: bool)
      ensures ok == AllValid(transactions, f)
    {
      hide ValidTransaction;
      for i := 0 to |transactions|
        invariant forall j :: 0 <= j < i ==> ValidTransaction(transactions[j], f)
      {
        if !ValidTransaction(transactions[i], f) {
          return false;
        }
      }
      return true;
    }

    method IsValidWithDifficulty(required: int) returns (ok: bool)
      ensures ok == ValidWithDifficulty(Data(), required, f)
    {
      hide ValidBlock;
      if difficulty != required {
        return false;
      }
      ok := IsValid();
    }
  }

  /** A block's hash does not depend on the hash it stores. */
  lemma SealIgnoresHash(before: BlockData, now: BlockData, f: Functions)
    requires now == before.(nonce := now.nonce, hash := now.hash)
    ensures BlockHash(now, f) == Sealed(before, now.nonce, f).hash
  {
  }
}
