/**
 The Merkle root: the loop that halves a level and promotes an odd last node equals the
 recursive tree hash of section 2.1 of RFC 6962, and two different lists with the same root
 yield two different byte strings, both hashed on the way, with the same digest.
 */
module Merkle {
  import opened Hex

  const LEAF_PREFIX: byte := 0
  const NODE_PREFIX: byte := 1

  function LeafInput(transactionHash: seq<byte>): seq<byte> {
    [LEAF_PREFIX] + transactionHash
  }

  function NodeInput(left: Digest, right: Digest): seq<byte> {
    [NODE_PREFIX] + left + right
  }

  function MerkleLeaf(transactionHash: seq<byte>, h: Hash): Digest {
    h(LeafInput(transactionHash))
  }

  function MerkleNode(left: Digest, right: Digest, h: Hash): Digest {
    h(NodeInput(left, right))
  }

  // ---------- The tree hash of RFC 6962 ----------

  /** The largest power of two smaller than `n`, for `n` of two or more. */
  function SplitPoint(n: nat): (k: nat)
    requires n >= 2
    ensures 1 <= k < n <= 2 * k
    ensures n > 2 ==> k % 2 == 0
  {
    if n == 2 then 1 else 2 * SplitPoint((n + 1) / 2)
  }

  ghost predicate PowerOfTwo(k: nat) {
    k == 1 || (k > 1 && k % 2 == 0 && PowerOfTwo(k / 2))
  }

  /** The split point is what the RFC calls k: a power of two with k < n <= 2k, and the only one. */
  lemma {:induction false} SplitPointIsLargestPower(n: nat, k: nat)
    requires n >= 2
    ensures k == SplitPoint(n) <==> PowerOfTwo(k) && k < n <= 2 * k
  {
    if n == 2 {
      assert PowerOfTwo(1);
    } else {
      var m := (n + 1) / 2;
      SplitPointIsLargestPower(m, SplitPoint(m));
      SplitPointIsLargestPower(m, k / 2);
    }
  }

  /** MTH over a non-empty list of leaf hashes. */
  function TreeHash(level: seq<Digest>, h: Hash): Digest
    requires level != []
  {
    if |level| == 1 then level[0]
    else
      var k := SplitPoint(|level|);
      MerkleNode(TreeHash(level[..k], h), TreeHash(level[k..], h), h)
  }

  function Leaves(transactions: seq<seq<byte>>, h: Hash): (l: seq<Digest>)
    ensures |l| == |transactions|
    ensures forall i :: 0 <= i < |l| ==> l[i] == MerkleLeaf(transactions[i], h)
  {
    if transactions == [] then [] else [MerkleLeaf(transactions[0], h)] + Leaves(transactions[1..], h)
  }

  /** MTH as the RFC defines it, over the list of leaf data; the empty list hashes the empty string. */
  function MTH(transactions: seq<seq<byte>>, h: Hash): Digest {
    if transactions == [] then h([])
    else if |transactions| == 1 then MerkleLeaf(transactions[0], h)
    else
      var k := SplitPoint(|transactions|);
      MerkleNode(MTH(transactions[..k], h), MTH(transactions[k..], h), h)
  }

  /**
   The definition of section 2.1 of RFC 6962, byte for byte: the empty list hashes the empty
   string, a leaf is prefixed by 0x00, and a node is 0x01 before its left and right halves,
   split at the largest power of two below the length.
   */
  lemma IsRfcTreeHash(transactions: seq<seq<byte>>, k: nat, h: Hash)
    ensures transactions == [] ==> MTH(transactions, h) == h([])
    ensures |transactions| == 1 ==> MTH(transactions, h) == h([0x00] + transactions[0])
    ensures |transactions| > 1 && PowerOfTwo(k) && k < |transactions| <= 2 * k ==>
      MTH(transactions, h) == h([0x01] + MTH(transactions[..k], h) + MTH(transactions[k..], h))
  {
    if |transactions| > 1 {
      SplitPointIsLargestPower(|transactions|, k);
    }
  }

  lemma SplitLeaves(a: seq<seq<byte>>, k: nat, h: Hash)
    requires k <= |a|
    ensures Leaves(a, h)[..k] == Leaves(a[..k], h) && Leaves(a, h)[k..] == Leaves(a[k..], h)
  {
    hide Leaves, MerkleLeaf;
  }

  lemma {:induction false} TreeHashOfLeaves(a: seq<seq<byte>>, h: Hash)
    requires a != []
    ensures TreeHash(Leaves(a, h), h) == MTH(a, h)
    decreases |a|
  {
    if |a| > 1 {
      var k := SplitPoint(|a|);
      SplitLeaves(a, k, h);
      TreeHashOfLeaves(a[..k], h);
      TreeHashOfLeaves(a[k..], h);
    }
  }

  // ---------- The halving loop ----------

  /** One pass: pairs are hashed, an unpaired last node is promoted unchanged. */
  function Halved(level: seq<Digest>, h: Hash): (next: seq<Digest>)
    ensures |next| == (|level| + 1) / 2
  {
    if |level| == 0 then []
    else if |level| == 1 then level
    else [MerkleNode(level[0], level[1], h)] + Halved(level[2..], h)
  }

  lemma {:induction false} HalvedConcat(a: seq<Digest>, b: seq<Digest>, h: Hash)
    requires |a| % 2 == 0
    ensures Halved(a + b, h) == Halved(a, h) + Halved(b, h)
  {
    if a == [] {
      assert a + b == b;
    } else {
      assert (a + b)[2..] == a[2..] + b;
      HalvedConcat(a[2..], b, h);
    }
  }

  /** A pass does not change the tree hash. */
  lemma {:induction false} HalvingKeepsTree(level: seq<Digest>, h: Hash)
    requires level != []
    ensures TreeHash(Halved(level, h), h) == TreeHash(level, h)
    decreases |level|
  {
    if |level| == 2 {
      assert level[2..] == [];
    } else if |level| > 2 {
      var k := SplitPoint(|level|);
      var a, b := level[..k], level[k..];
      HalvedConcat(a, b, h);
      assert level == a + b;
      HalvingKeepsTree(a, h);
      HalvingKeepsTree(b, h);
      var next := Halved(level, h);
      assert next[..k / 2] == Halved(a, h) && next[k / 2..] == Halved(b, h);
    }
  }

  /** Everything one computation of the root hashes. */
  ghost function HashedBy(transactions: seq<seq<byte>>, h: Hash): set<seq<byte>> {
    if transactions == [] then {[]}
    else if |transactions| == 1 then {LeafInput(transactions[0])}
    else
      var k := SplitPoint(|transactions|);
      var level := Leaves(transactions, h);
      HashedBy(transactions[..k], h) + HashedBy(transactions[k..], h)
      + {NodeInput(TreeHash(level[..k], h), TreeHash(level[k..], h))}
  }

  ghost function LeafInputs(transactions: seq<seq<byte>>): set<seq<byte>> {
    if transactions == [] then {}
    else LeafInputs(transactions[..|transactions| - 1]) + {LeafInput(transactions[|transactions| - 1])}
  }

  lemma {:induction false} LeafInputsConcat(a: seq<seq<byte>>, b: seq<seq<byte>>)
    ensures LeafInputs(a + b) == LeafInputs(a) + LeafInputs(b)
  {
    if b == [] {
      assert a + b == a;
    } else {
      assert (a + b)[..|a + b| - 1] == a + b[..|b| - 1];
      LeafInputsConcat(a, b[..|b| - 1]);
    }
  }

  ghost function NodeInputs(level: seq<Digest>, h: Hash): set<seq<byte>>
    requires level != []
  {
    if |level| == 1 then {}
    else
      var k := SplitPoint(|level|);
      NodeInputs(level[..k], h) + NodeInputs(level[k..], h) + {NodeInput(TreeHash(level[..k], h), TreeHash(level[k..], h))}
  }

  /** The leaves and then the nodes: the order in which the loop hashes. */
  lemma {:induction false} HashedByLevels(a: seq<seq<byte>>, h: Hash)
    requires a != []
    ensures HashedBy(a, h) == LeafInputs(a) + NodeInputs(Leaves(a, h), h)
    decreases |a|
  {
    if |a| == 1 {
      assert a[..0] == [];
    } else {
      var k := SplitPoint(|a|);
      HashedByLevels(a[..k], h);
      HashedByLevels(a[k..], h);
      HashedByUnfold(a, k, h);
      var node := {NodeInput(TreeHash(Leaves(a[..k], h), h), TreeHash(Leaves(a[k..], h), h))};
      hide *;
      Regroup(LeafInputs(a[..k]), NodeInputs(Leaves(a[..k], h), h), LeafInputs(a[k..]), NodeInputs(Leaves(a[k..], h), h), node);
    }
  }

  lemma HashedByUnfold(a: seq<seq<byte>>, k: nat, h: Hash)
    requires |a| > 1 && k == SplitPoint(|a|)
    ensures
      var node := {NodeInput(TreeHash(Leaves(a[..k], h), h), TreeHash(Leaves(a[k..], h), h))};
      && HashedBy(a, h) == HashedBy(a[..k], h) + HashedBy(a[k..], h) + node
      && NodeInputs(Leaves(a, h), h) == NodeInputs(Leaves(a[..k], h), h) + NodeInputs(Leaves(a[k..], h), h) + node
      && LeafInputs(a) == LeafInputs(a[..k]) + LeafInputs(a[k..])
  {
    hide LeafInputs, Leaves, TreeHash;
    assert a == a[..k] + a[k..];
    LeafInputsConcat(a[..k], a[k..]);
    SplitLeaves(a, k, h);
  }

  lemma Regroup<T>(a: set<T>, b: set<T>, c: set<T>, d: set<T>, e: set<T>)
    ensures (a + b) + (c + d) + e == (a + c) + (b + d + e)
  {
  }

  ghost function PassInputs(level: seq<Digest>): set<seq<byte>> {
    if |level| <= 1 then {} else {NodeInput(level[0], level[1])} + PassInputs(level[2..])
  }

  lemma {:induction false} PassInputsConcat(a: seq<Digest>, b: seq<Digest>)
    requires |a| % 2 == 0
    ensures PassInputs(a + b) == PassInputs(a) + PassInputs(b)
  {
    if a == [] {
      assert a + b == b;
    } else {
      assert (a + b)[2..] == a[2..] + b;
      PassInputsConcat(a[2..], b);
    }
  }

  /** What a pass hashes, with what remains after it, is what the tree hashes. */
  lemma {:induction false} HalvingKeepsInputs(level: seq<Digest>, h: Hash)
    requires level != []
    ensures NodeInputs(level, h) == PassInputs(level) + NodeInputs(Halved(level, h), h)
    decreases |level|
  {
    if |level| == 2 {
      assert level[2..] == [];
    } else if |level| > 2 {
      var k := SplitPoint(|level|);
      var a, b := level[..k], level[k..];
      assert level == a + b;
      PassInputsConcat(a, b);
      HalvingKeepsInputs(a, h);
      HalvingKeepsInputs(b, h);
      NodeInputsHalved(level, k, h);
      NodeInputsUnfold(level, k, h);
      var node := {NodeInput(TreeHash(a, h), TreeHash(b, h))};
      hide *;
      Regroup(PassInputs(a), NodeInputs(Halved(a, h), h), PassInputs(b), NodeInputs(Halved(b, h), h), node);
    }
  }

  lemma NodeInputsUnfold(level: seq<Digest>, k: nat, h: Hash)
    requires |level| > 1 && k == SplitPoint(|level|)
    ensures NodeInputs(level, h) == NodeInputs(level[..k], h) + NodeInputs(level[k..], h)
                                    + {NodeInput(TreeHash(level[..k], h), TreeHash(level[k..], h))}
  {
  }

  lemma NodeInputsHalved(level: seq<Digest>, k: nat, h: Hash)
    requires |level| > 2 && k == SplitPoint(|level|)
    ensures NodeInputs(Halved(level, h), h)
         == NodeInputs(Halved(level[..k], h), h) + NodeInputs(Halved(level[k..], h), h)
            + {NodeInput(TreeHash(level[..k], h), TreeHash(level[k..], h))}
  {
    hide Halved, TreeHash, NodeInputs, NodeInput;
    var a, b := level[..k], level[k..];
    assert level == a + b;
    HalvedConcat(a, b, h);
    HalvingKeepsTree(a, h);
    HalvingKeepsTree(b, h);
    var next := Halved(level, h);
    NodeInputsUnfold(next, k / 2, h);
    assert next[..k / 2] == Halved(a, h) && next[k / 2..] == Halved(b, h);
  }

  /**
   The iterative root. It is the RFC's tree hash in hex, and `hashed` records exactly the
   byte strings the hash function was applied to.
   */
  method CalculateMerkleRoot(transactions: seq<seq<byte>>, h: Hash)
    returns (root: string, ghost hashed: set<seq<byte>>)
    ensures root == HexOf(MTH(transactions, h))
    ensures hashed == HashedBy(transactions, h)
  {
    if transactions == [] {
      return HexOf(h([])), {[]};
    }
    HashedByLevels(transactions, h);
    TreeHashOfLeaves(transactions, h);
    var level;
    level, hashed := HashLeaves(transactions, h);
    hide Halved, TreeHash, MTH, NodeInputs, PassInputs, HashedBy, LeafInputs, Leaves;
    while |level| > 1
      invariant level != []
      invariant TreeHash(level, h) == MTH(transactions, h)
      invariant hashed + NodeInputs(level, h) == HashedBy(transactions, h)
      decreases |level|
    {
      ghost var pass;
      HalvingKeepsTree(level, h);
      HalvingKeepsInputs(level, h);
      level, pass := HalveLevel(level, h);
      hashed := hashed + pass;
    }
    SingleNode(level, h);
    root := HexOf(level[0]);
  }

  lemma SingleNode(level: seq<Digest>, h: Hash)
    requires |level| == 1
    ensures TreeHash(level, h) == level[0] && NodeInputs(level, h) == {}
  {
  }

  /** The loop that hashes every transaction. */
  method HashLeaves(transactions: seq<seq<byte>>, h: Hash) returns (level: seq<Digest>, ghost hashed: set<seq<byte>>)
    ensures level == Leaves(transactions, h) && hashed == LeafInputs(transactions)
  {
    hide LeafInput, Leaves, MerkleLeaf;
    level, hashed := [], {};
    var t := 0;
    while t < |transactions|
      invariant 0 <= t <= |transactions| && level == Leaves(transactions, h)[..t]
      invariant hashed == LeafInputs(transactions[..t])
    {
      assert transactions[..t + 1][..t] == transactions[..t];
      level := level + [MerkleLeaf(transactions[t], h)];
      hashed := hashed + {LeafInput(transactions[t])};
      t := t + 1;
    }
    assert transactions[..t] == transactions;
  }

  /** One pass of the loop, two nodes at a time. */
  method HalveLevel(level: seq<Digest>, h: Hash) returns (next: seq<Digest>, ghost hashed: set<seq<byte>>)
    ensures next == Halved(level, h)
    ensures hashed == PassInputs(level)
  {
    hide Halved, PassInputs;
    EmptyPass(h);
    next := [];
    hashed := {};
    var i := 0;
    while i < |level|
      invariant 0 <= i && (i <= |level| || i == |level| + 1)
      invariant i < |level| ==> Halved(level, h) == next + Halved(level[i..], h) && PassInputs(level) == hashed + PassInputs(level[i..])
      invariant i >= |level| ==> Halved(level, h) == next && PassInputs(level) == hashed
    {
      PassStep(level[i..], h);
      if i + 1 < |level| {
        assert level[i..][2..] == level[i + 2..];
        next := next + [MerkleNode(level[i], level[i + 1], h)];
        hashed := hashed + {NodeInput(level[i], level[i + 1])};
      } else {
        next := next + [level[i]];
      }
      i := i + 2;
    }
  }

  lemma PassStep(level: seq<Digest>, h: Hash)
    requires level != []
    ensures |level| == 1 ==> Halved(level, h) == [level[0]] && PassInputs(level) == {}
    ensures |level| > 1 ==> Halved(level, h) == [MerkleNode(level[0], level[1], h)] + Halved(level[2..], h)
    ensures |level| > 1 ==> PassInputs(level) == {NodeInput(level[0], level[1])} + PassInputs(level[2..])
    ensures |level| == 2 ==> Halved(level[2..], h) == [] && PassInputs(level[2..]) == {}
  {
  }

  lemma EmptyPass(h: Hash)
    ensures Halved([], h) == [] && PassInputs([]) == {}
  {
  }

  // ---------- Collisions ----------

  /** Two different byte strings, one from each set, with the same digest. */
  ghost predicate Collide(x: seq<byte>, y: seq<byte>, s: set<seq<byte>>, t: set<seq<byte>>, h: Hash) {
    x in s && y in t && x != y && h(x) == h(y)
  }

  /** The same for non-empty lists, walking both trees from the root. */
  lemma {:induction false} TreeCollision(a: seq<seq<byte>>, b: seq<seq<byte>>, h: Hash)
    returns (x: seq<byte>, y: seq<byte>)
    requires a != [] && b != [] && a != b
    requires TreeHash(Leaves(a, h), h) == TreeHash(Leaves(b, h), h)
    ensures Collide(x, y, HashedBy(a, h), HashedBy(b, h), h)
    decreases |a| + |b|
  {
    x, y := RootInput(a, h), RootInput(b, h);
    if x == y {
      RootPrefix(a, h);
      RootPrefix(b, h);
      SingleLists(a, b);
      var j, k := SplitPoint(|a|), SplitPoint(|b|);
      SameHalves(a, b, j, k, h);
      if a[..j] != b[..k] {
        x, y := TreeCollision(a[..j], b[..k], h);
      } else {
        JoinHalves(a, b, j, k);
        x, y := TreeCollision(a[j..], b[k..], h);
      }
    }
  }

  lemma SingleLists(a: seq<seq<byte>>, b: seq<seq<byte>>)
    requires a != b
    ensures |a| == 1 && |b| == 1 ==> a[0] != b[0]
  {
  }

  lemma JoinHalves(a: seq<seq<byte>>, b: seq<seq<byte>>, j: nat, k: nat)
    requires j <= |a| && k <= |b| && a[..j] == b[..k] && a != b
    ensures a[j..] != b[k..]
  {
    assert a == a[..j] + a[j..] && b == b[..k] + b[k..];
  }

  /** Equal root inputs give halves with equal tree hashes, each hashed among its whole. */
  lemma SameHalves(a: seq<seq<byte>>, b: seq<seq<byte>>, j: nat, k: nat, h: Hash)
    requires |a| > 1 && |b| > 1 && j == SplitPoint(|a|) && k == SplitPoint(|b|)
    requires RootInput(a, h) == RootInput(b, h)
    ensures TreeHash(Leaves(a[..j], h), h) == TreeHash(Leaves(b[..k], h), h)
    ensures TreeHash(Leaves(a[j..], h), h) == TreeHash(Leaves(b[k..], h), h)
    ensures HashedBy(a[..j], h) <= HashedBy(a, h) && HashedBy(a[j..], h) <= HashedBy(a, h)
    ensures HashedBy(b[..k], h) <= HashedBy(b, h) && HashedBy(b[k..], h) <= HashedBy(b, h)
  {
    hide TreeHash, Leaves;
    SplitLeaves(a, j, h);
    SplitLeaves(b, k, h);
    NodeInputInjective(TreeHash(Leaves(a[..j], h), h), TreeHash(Leaves(a[j..], h), h),
                       TreeHash(Leaves(b[..k], h), h), TreeHash(Leaves(b[k..], h), h));
  }

  /** The last byte string hashed: a leaf for one transaction, else the root node. */
  ghost function RootInput(a: seq<seq<byte>>, h: Hash): (x: seq<byte>)
    requires a != []
    ensures x in HashedBy(a, h) && h(x) == TreeHash(Leaves(a, h), h)
  {
    if |a| == 1 then LeafInput(a[0])
    else
      var level := Leaves(a, h);
      var k := SplitPoint(|a|);
      NodeInput(TreeHash(level[..k], h), TreeHash(level[k..], h))
  }

  /** Leaves and nodes differ in their first byte, and a leaf input determines its transaction. */
  lemma RootPrefix(a: seq<seq<byte>>, h: Hash)
    requires a != []
    ensures RootInput(a, h)[0] == (if |a| == 1 then LEAF_PREFIX else NODE_PREFIX)
    ensures |a| == 1 ==> RootInput(a, h)[1..] == a[0]
  {
  }

  lemma NodeInputInjective(a: Digest, b: Digest, c: Digest, d: Digest)
    requires NodeInput(a, b) == NodeInput(c, d)
    ensures a == c && b == d
  {
    assert NodeInput(a, b)[1..33] == a && NodeInput(c, d)[1..33] == c;
    assert NodeInput(a, b)[33..] == b && NodeInput(c, d)[33..] == d;
  }

  /**
   Two different lists of transaction hashes, of any lengths, with the same root: two
   different byte strings that the two computations hashed have the same digest.
   */
  lemma RootCollision(a: seq<seq<byte>>, b: seq<seq<byte>>, h: Hash)
    requires a != b && HexOf(MTH(a, h)) == HexOf(MTH(b, h))
    ensures exists x, y :: Collide(x, y, HashedBy(a, h), HashedBy(b, h), h)
  {
    HexInjective(MTH(a, h), MTH(b, h));
    if a == [] {
      RootPrefix(b, h);
      TreeHashOfLeaves(b, h);
      assert Collide([], RootInput(b, h), HashedBy(a, h), HashedBy(b, h), h);
    } else if b == [] {
      RootPrefix(a, h);
      TreeHashOfLeaves(a, h);
      assert Collide(RootInput(a, h), [], HashedBy(a, h), HashedBy(b, h), h);
    } else {
      TreeHashOfLeaves(a, h);
      TreeHashOfLeaves(b, h);
      var x, y := TreeCollision(a, b, h);
    }
  }
}
