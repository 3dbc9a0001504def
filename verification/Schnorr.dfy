/**
 The signature scheme: s = k + e * x modulo the group order, with the challenge e hashed
 from the nonce point's abscissa, the public key's abscissa and the message hash. The
 repository's prose calls it ECDSA; the equation is Schnorr's.
 */
module Schnorr {
  import opened Arith
  import opened Hex
  import opened Numerals
  import opened Floored
  import opened Modular
  import opened Curves
  import opened ScalarMul
  import opened PointCodec

  /** A curve with a base point and the order the scalars are reduced by. */
  datatype Group = Group(curve: Curve, g: Point, n: int)

  const SECP256K1: Group :=
    var c := Curve(115792089237316195423570985008687907853269984665640564039457584007908834671663, 0, 7);
    Group(c,
          Finite(55066263022277343669578718895168534326250603453777594175500187360389116729240,
                 32670510020758816978083085130507043184471273380659243275938904335757337482424, c),
          115792089237316195423570985008687907852837564279074904382605163141518161494337)

  function Challenge(rx: int, px: int, hash: Digest, sha: Hash, n: int): (e: nat)
    requires n > 0
  {
    FromBytes(sha(Bytes32(rx) + Bytes32(px) + hash)) % n
  }

  /** The second half of a signature: k + e * x. */
  function Response(k: int, e: int, x: int, n: int): (s: int)
    requires n > 0
    ensures 0 <= s < n
  {
    (k + e * x) % n
  }

  /** The scalar verification recovers from a response: s - e * x. */
  ghost function RecoveredScalar(s: int, e: int, x: int, n: int): (k: int)
    requires n > 0
    ensures 0 <= k < n
  {
    (s - e * x) % n
  }

  /** The signature with nonce `k`; all zeros for a key out of range or an infinite public key. */
  function SignHash(hash: Digest, key: int, pub: Point, k: int, sha: Hash, gr: Group): (sig: seq<byte>)
    requires gr.g.curve.p != 0 && gr.n > 0
    ensures |sig| == 64
  {
    if key <= 0 || key >= gr.n || pub.infinite then seq(64, _ => 0)
    else
      var r := Times(gr.g, k);
      var e := Challenge(r.x, pub.x, hash, sha, gr.n);
      Bytes32(r.x) + Bytes32(Response(k, e, key, gr.n))
  }

  function VerifySignature(hash: Digest, sig: seq<byte>, pubKey: seq<byte>, sha: Hash, gr: Group): bool
    requires |sig| == 64 && |pubKey| == 33 && gr.curve.p > 0 && gr.g.curve == gr.curve && gr.n > 0
  {
    var rx := FromBytes(sig[..32]);
    var s := FromBytes(sig[32..]);
    if s <= 0 || s >= gr.n then false
    else if rx <= 0 || rx >= gr.curve.p then false
    else
      var pub := Decompress(pubKey, gr.curve);
      if pub.infinite then false
      else
        var e := Challenge(rx, pub.x, hash, sha, gr.n);
        var computed := ComputedNonce(s, e, pub, gr);
        if computed.infinite then false else computed.x == rx
  }

  /** s * G - e * P, the negation skipped when e * P is infinite. */
  function ComputedNonce(s: int, e: int, pub: Point, gr: Group): Point
    requires gr.g.curve.p != 0 && pub.curve == gr.g.curve
  {
    Plus(Times(gr.g, s), Negated(Times(pub, e)))
  }

  /**
   What is assumed of the group: a prime field with simple square roots, a base point on
   the curve whose multiples add associatively, and its odd order.
   */
  ghost predicate SigningGroup(gr: Group) {
    var c := gr.curve;
    && CodecCurve(c) && c.p > 2 && OnCurve(gr.g, c)
    && Associates(gr.g) && HasOrder(gr.g, gr.n) && gr.n % 2 == 1 && 1 < gr.n < LIMIT
  }

  // The conditions can be met: a curve modulo 7 whose base point has order 3.

  const SMALL: Group :=
    var c := Curve(7, 0, 4);
    Group(c, Finite(0, 2, c), 3)

  /** The three points of the group, by residue. */
  function SmallPoint(k: nat): Point {
    if k % 3 == 0 then Infinity(SMALL.curve) else Finite(0, if k % 3 == 1 then 2 else 5, SMALL.curve)
  }

  lemma ZeroMod(x: int, p: int)
    requires p > 0
    ensures 0 * x == 0 && FloorMod(0, p) == 0
  {
  }

  /** On a curve without linear term the tangent at x = 0 is horizontal. */
  lemma FlatTangent(pt: Point)
    requires pt.curve.p > 0 && pt.curve.a == 0 && pt.x == 0 && pt.y != 0
    ensures Doubled(pt) == Finite(0, FloorMod(-pt.y, pt.curve.p), pt.curve)
  {
    var p := pt.curve.p;
    ZeroMod(Inverse(pt.y * 2, p), p);
    ZeroMod(0, p);
    hide Inverse, FloorMod;
  }

  lemma SameAbscissa(y: int, z: int, c: Curve)
    requires c.p != 0
    ensures var pt, other := Finite(0, y, c), Finite(0, z, c);
            Plus(pt, other) == if y == z then Doubled(pt) else Infinity(c)
  {
    hide Inverse, FloorMod, Doubled, Chord;
  }

  lemma InfinityAdds(pt: Point)
    requires pt.curve.p != 0
    ensures !pt.infinite ==> Plus(Infinity(pt.curve), pt) == pt && Plus(pt, Infinity(pt.curve)) == pt
    ensures Plus(Infinity(pt.curve), Infinity(pt.curve)) == Infinity(pt.curve)
  {
    hide Inverse, FloorMod, Doubled, Chord;
  }

  lemma SmallSum(i: nat, j: nat)
    ensures Plus(SmallPoint(i), SmallPoint(j)) == SmallPoint(i + j)
  {
    hide Plus, Doubled, FloorMod, Inverse;
    SumResidue(i, j);
    InfinityAdds(SmallPoint(i));
    InfinityAdds(SmallPoint(j));
    SmallFiniteSum(2, 2);
    SmallFiniteSum(2, 5);
    SmallFiniteSum(5, 2);
    SmallFiniteSum(5, 5);
  }

  lemma SmallFiniteSum(y: int, z: int)
    requires (y == 2 || y == 5) && (z == 2 || z == 5)
    ensures Plus(Finite(0, y, SMALL.curve), Finite(0, z, SMALL.curve))
         == if y == z then Finite(0, 7 - y, SMALL.curve) else Infinity(SMALL.curve)
  {
    hide Plus, Doubled, FloorMod, Inverse;
    SmallFlip();
    FlatTangent(Finite(0, y, SMALL.curve));
    SameAbscissa(y, z, SMALL.curve);
  }

  lemma SmallFlip()
    ensures FloorMod(-2, 7) == 5 && FloorMod(-5, 7) == 2
  {
  }

  lemma SumResidue(i: nat, j: nat)
    ensures (i + j) % 3 == (i % 3 + j % 3) % 3
  {
  }

  lemma {:induction false} SmallMultiples(k: nat)
    ensures NFold(k, SMALL.g) == SmallPoint(k)
  {
    hide Plus;
    if k > 0 {
      SmallMultiples(k - 1);
      SmallSum(k - 1, 1);
    }
  }

  lemma SmallAssociates(i: nat, j: nat)
    ensures AssociatesAt(i, j, SMALL.g)
  {
    SmallMultiples(i);
    SmallMultiples(j);
    hide NFold, Plus, SmallPoint;
    SmallSum(i, j);
    SmallSum(i + j, 1);
    SmallSum(j, 1);
    SmallSum(i, j + 1);
    SmallBase();
  }

  lemma SmallBase()
    ensures SmallPoint(1) == SMALL.g
  {
  }

  lemma SmallIsSigningGroup()
    ensures SigningGroup(SMALL)
  {
    assert Prime(7) by {
      assert forall d :: 1 < d < 7 ==> !Divides(d, 7);
    }
    forall i: nat, j: nat
      ensures AssociatesAt(i, j, SMALL.g)
    {
      SmallAssociates(i, j);
    }
    forall k: nat
      ensures NFold(k, SMALL.g).infinite <==> Divides(3, k)
    {
      SmallMultiples(k);
    }
  }

  /** A multiple of the base point by a scalar in range is a finite point of the curve. */
  lemma KeyPoint(x: nat, gr: Group)
    requires SigningGroup(gr) && 0 < x < gr.n
    ensures
      var pub := Times(gr.g, x);
      pub == NFold(x, gr.g) && OnCurve(pub, gr.curve) && !pub.infinite && 0 <= pub.x < gr.curve.p
  {
    TimesIsNFold(gr.g, x, gr.curve);
    NFoldOnCurve(x, gr.g, gr.curve);
    SmallMod(x, gr.n);
  }

  /** What verification computes is the multiple of the base point by s - e * x. */
  lemma ComputedNonceIs(s: nat, e: nat, x: nat, gr: Group)
    requires SigningGroup(gr) && 0 < x < gr.n
    ensures ComputedNonce(s, e, NFold(x, gr.g), gr) == NFold(RecoveredScalar(s, e, x, gr.n), gr.g)
  {
    hide Plus, Times, Prime;
    var c, g, n := gr.curve, gr.g, gr.n;
    var pub := NFold(x, g);
    ChallengeTimesKey(s, e, x, gr);
    var m := (e * x) % n;
    if NFold(m, g).infinite {
      NFoldOnCurve(s, g, c);
      InfinityIsIdentity(NFold(s, g), c);
      SmallMod(m, n);
      Congruent(s, e * x, 0, n);
      NFoldModulo(s, (s - e * x) % n, g, n, c);
    } else {
      NegatedMultiple(m, g, n, c);
      NFoldAdds(s, n - m, g);
      Congruent(s, e * x, n - m, n);
      NFoldModulo(s + (n - m), (s - e * x) % n, g, n, c);
    }
  }

  lemma ChallengeTimesKey(s: nat, e: nat, x: nat, gr: Group)
    requires SigningGroup(gr) && 0 < x < gr.n
    ensures 0 <= (e * x) % gr.n < gr.n
    ensures Times(gr.g, s) == NFold(s, gr.g)
    ensures Times(NFold(x, gr.g), e) == NFold((e * x) % gr.n, gr.g)
  {
    hide Plus, Times, Prime;
    var c, g, n := gr.curve, gr.g, gr.n;
    TimesIsNFold(g, s, c);
    NFoldOnCurve(x, g, c);
    MultipleAssociates(x, g);
    TimesIsNFold(NFold(x, g), e, c);
    NFoldOfNFold(e, x, g);
    ModMod(e * x, n);
    NFoldModulo(e * x, (e * x) % n, g, n, c);
  }

  /** Subtracting `y` modulo `n` is adding the complement of its residue. */
  lemma Congruent(s: int, y: int, z: int, n: int)
    requires n > 0 && (z == n - y % n || (z == 0 && y % n == 0))
    ensures (s + z) % n == (s - y) % n == ((s - y) % n) % n
  {
    ModMod(s - y, n);
    ModMod(y, n);
    if z == 0 {
      SmallMod(0, n);
      ModAdd(s, s, y, 0, n);
    } else {
      ModAdd(s, s, y, y % n, n);
      ModShift(s - y % n, 1, n);
    }
  }

  /**
   Verification accepts a signature under the key of `x` exactly when both halves are in
   range and the first is the abscissa of (s - e * x) * G.
   */
  lemma VerifiesExactly(hash: Digest, sig: seq<byte>, x: nat, sha: Hash, gr: Group)
    requires SigningGroup(gr) && |sig| == 64 && 0 < x < gr.n
    ensures
      var pub := NFold(x, gr.g);
      var rx, s := FromBytes(sig[..32]), FromBytes(sig[32..]);
      var nonce := NFold(RecoveredScalar(s, Challenge(rx, pub.x, hash, sha, gr.n), x, gr.n), gr.g);
      VerifySignature(hash, sig, Compress(pub), sha, gr) <==>
        0 < s < gr.n && 0 < rx < gr.curve.p && !nonce.infinite && nonce.x == rx
  {
    hide Plus, Times, Prime, Challenge, ComputedNonce, Compress, Decompress, FromBytes, RecoveredScalar;
    var pub := NFold(x, gr.g);
    KeyPoint(x, gr);
    DecompressOfCompress(pub, gr.curve);
    var rx, s := FromBytes(sig[..32]), FromBytes(sig[32..]);
    ComputedNonceIs(s, Challenge(rx, pub.x, hash, sha, gr.n), x, gr);
  }

  /**
   Every signature made with a key and nonce in range is accepted under that key, exactly
   when neither half of it is zero.
   */
  lemma SignedVerifies(hash: Digest, x: nat, k: nat, sha: Hash, gr: Group,
                       pub: Point, r: Point, s: int, sig: seq<byte>)
    requires SigningGroup(gr) && 0 < x < gr.n && 0 < k < gr.n
    requires pub == Times(gr.g, x) && r == Times(gr.g, k)
    requires s == Response(k, Challenge(r.x, pub.x, hash, sha, gr.n), x, gr.n)
    requires sig == SignHash(hash, x, pub, k, sha, gr)
    ensures VerifySignature(hash, sig, Compress(pub), sha, gr) <==> s != 0 && r.x != 0
  {
    GroupNumbers(gr);
    hide *;
    KeyPoint(x, gr);
    KeyPoint(k, gr);
    SignatureParts(hash, x, pub, k, r.x, s, sha, gr);
    VerifiesExactly(hash, sig, x, sha, gr);
    RecoveredNonce(k, Challenge(r.x, pub.x, hash, sha, gr.n), x, gr.n);
  }

  lemma GroupNumbers(gr: Group)
    requires SigningGroup(gr)
    ensures 1 < gr.n < LIMIT && 2 < gr.curve.p < LIMIT && gr.g.curve == gr.curve
  {
  }

  lemma SignatureParts(hash: Digest, x: int, pub: Point, k: int, rx: int, s: int, sha: Hash, gr: Group)
    requires gr.g.curve.p != 0 && 0 < x < gr.n < LIMIT && !pub.infinite
    requires rx == Times(gr.g, k).x && 0 <= rx < LIMIT
    requires s == Response(k, Challenge(rx, pub.x, hash, sha, gr.n), x, gr.n)
    ensures
      var sig := SignHash(hash, x, pub, k, sha, gr);
      FromBytes(sig[..32]) == rx && FromBytes(sig[32..]) == s
  {
    hide Times, Challenge, Response, Bytes32, FromBytes;
    var sig := SignHash(hash, x, pub, k, sha, gr);
    assert sig[..32] == Bytes32(rx) && sig[32..] == Bytes32(s);
    BytesRoundTrip(rx);
    BytesRoundTrip(s);
  }

  lemma RecoveredNonce(k: int, e: int, x: int, n: int)
    requires 0 < k < n
    ensures RecoveredScalar(Response(k, e, x, n), e, x, n) == k
  {
    ModMod(k + e * x, n);
    ModAdd((k + e * x) % n, k + e * x, e * x, e * x, n);
    SmallMod(k, n);
  }

  /** The numeric conditions on secp256k1; primality, associativity and the order remain hypotheses. */
  lemma Secp256k1Numbers()
    ensures SECP256K1.curve.a == 0 && SECP256K1.curve.p % 4 == 3 && 2 < SECP256K1.curve.p < LIMIT
    ensures SECP256K1.n % 2 == 1 && 1 < SECP256K1.n < LIMIT
    ensures OnCurve(SECP256K1.g, SECP256K1.curve) && !SECP256K1.g.infinite
  {
  }

  /** Sign then verify, on secp256k1. */
  lemma Secp256k1SignedVerifies(hash: Digest, x: nat, k: nat, sha: Hash,
                                pub: Point, r: Point, s: int, sig: seq<byte>)
    requires Prime(SECP256K1.curve.p) && Associates(SECP256K1.g) && HasOrder(SECP256K1.g, SECP256K1.n)
    requires 0 < x < SECP256K1.n && 0 < k < SECP256K1.n
    requires pub == Times(SECP256K1.g, x) && r == Times(SECP256K1.g, k)
    requires s == Response(k, Challenge(r.x, pub.x, hash, sha, SECP256K1.n), x, SECP256K1.n)
    requires sig == SignHash(hash, x, pub, k, sha, SECP256K1)
    ensures VerifySignature(hash, sig, Compress(pub), sha, SECP256K1) <==> s != 0 && r.x != 0
  {
    hide Times, Prime, Challenge, Response, VerifySignature, SignHash, Compress, Associates, HasOrder, OnCurve;
    Secp256k1Numbers();
    SignedVerifies(hash, x, k, sha, SECP256K1, pub, r, s, sig);
  }

  // ---------- What a signature is bound to ----------

  /** The string hashed into a challenge: 96 bytes, the nonce point's x, the key's x and the message hash in that order. */
  ghost predicate IsChallengeText(w: seq<byte>, rx: int, px: int, hash: Digest) {
    |w| == 96 && w[..32] == Bytes32(rx) && w[32..64] == Bytes32(px) && w[64..] == hash
  }

  lemma ChallengeHashesText(w: seq<byte>, rx: int, px: int, hash: Digest, sha: Hash, n: int)
    requires n > 0 && IsChallengeText(w, rx, px, hash)
    ensures Challenge(rx, px, hash, sha, n) == FromBytes(sha(w)) % n
  {
    hide Bytes32, FromBytes;
    assert w == w[..32] + w[32..64] + w[64..];
  }

  /** The text determines all three parts. */
  lemma ChallengeTextDetermines(w: seq<byte>, rx: int, px: int, hash: Digest, rx': int, px': int, hash': Digest)
    requires IsChallengeText(w, rx, px, hash) && IsChallengeText(w, rx', px', hash')
    requires 0 <= rx < LIMIT && 0 <= px < LIMIT && 0 <= rx' < LIMIT && 0 <= px' < LIMIT
    ensures rx == rx' && px == px' && hash == hash'
  {
    BytesRoundTrip(rx);
    BytesRoundTrip(px);
    BytesRoundTrip(rx');
    BytesRoundTrip(px');
    hide Bytes32, FromBytes;
  }

  /** Multiples below the order are distinct. */
  lemma MultiplesDistinct(i: nat, j: nat, gr: Group)
    requires SigningGroup(gr) && i < gr.n && j < gr.n
    ensures NFold(i, gr.g) == NFold(j, gr.g) <==> i == j
  {
    hide Plus, NFold, Prime;
    if i != j && NFold(i, gr.g) == NFold(j, gr.g) {
      NFoldAdds(i, gr.n - j, gr.g);
      NFoldAdds(j, gr.n - j, gr.g);
      OrderIsLeast(i + gr.n - j, gr);
    }
  }

  lemma OrderIsLeast(k: nat, gr: Group)
    requires SigningGroup(gr) && 0 < k < 2 * gr.n
    ensures NFold(k, gr.g).infinite <==> k == gr.n
    ensures NFold(gr.n, gr.g).infinite
  {
    hide NFold, Prime, Plus;
    assert gr.n % gr.n == 0;
    if k < gr.n {
      SmallMod(k, gr.n);
    } else {
      ModShift(k - gr.n, 1, gr.n);
      SmallMod(k - gr.n, gr.n);
    }
  }

  /** Two finite multiples share their abscissa exactly when they are equal or opposite. */
  lemma SameAbscissaExactly(i: nat, j: nat, gr: Group)
    requires SigningGroup(gr) && 0 < i < gr.n && 0 < j < gr.n
    ensures !NFold(i, gr.g).infinite && !NFold(j, gr.g).infinite
    ensures NFold(i, gr.g).x == NFold(j, gr.g).x <==> i == j || i + j == gr.n
  {
    var c, u, v := gr.curve, NFold(i, gr.g), NFold(j, gr.g);
    OrderIsLeast(i, gr);
    OrderIsLeast(j, gr);
    NFoldOnCurve(i, gr.g, c);
    NFoldOnCurve(j, gr.g, c);
    NegatedMultiple(j, gr.g, gr.n, c);
    MultiplesDistinct(i, j, gr);
    MultiplesDistinct(i, gr.n - j, gr);
    hide NFold, Plus, Prime, Associates, HasOrder;
    if u.x == v.x && u.y != v.y {
      OppositeRoots(u.y, v.y, c.p);
    }
  }

  /**
   Binding. A signature accepted for one message is accepted for another exactly when the two
   challenges, times the key, agree or add up to twice the response. The second case is there
   because only abscissas are compared.
   */
  lemma SecondMessageAcceptedExactly(h1: Digest, h2: Digest, sig: seq<byte>, x: nat, sha: Hash, gr: Group, w1: seq<byte>, w2: seq<byte>)
    requires SigningGroup(gr) && |sig| == 64 && 0 < x < gr.n
    requires VerifySignature(h1, sig, Compress(NFold(x, gr.g)), sha, gr)
    requires IsChallengeText(w1, FromBytes(sig[..32]), NFold(x, gr.g).x, h1)
    requires IsChallengeText(w2, FromBytes(sig[..32]), NFold(x, gr.g).x, h2)
    ensures
      var e1, e2, s := FromBytes(sha(w1)) % gr.n, FromBytes(sha(w2)) % gr.n, FromBytes(sig[32..]);
      VerifySignature(h2, sig, Compress(NFold(x, gr.g)), sha, gr) <==>
        (e1 * x) % gr.n == (e2 * x) % gr.n || ((e1 + e2) * x) % gr.n == (2 * s) % gr.n
  {
    hide RecoveredScalar, Challenge, VerifySignature, Compress, FromBytes, NFold, IsChallengeText, SigningGroup;
    GroupNumbers(gr);
    var pub, n := NFold(x, gr.g), gr.n;
    var rx, s := FromBytes(sig[..32]), FromBytes(sig[32..]);
    VerifiesExactly(h1, sig, x, sha, gr);
    VerifiesExactly(h2, sig, x, sha, gr);
    ChallengeHashesText(w1, rx, pub.x, h1, sha, n);
    ChallengeHashesText(w2, rx, pub.x, h2, sha, n);
    var e1, e2 := Challenge(rx, pub.x, h1, sha, n), Challenge(rx, pub.x, h2, sha, n);
    ScalarsRelated(s, e1, e2, x, n);
    SecondScalarExactly(RecoveredScalar(s, e1, x, n), RecoveredScalar(s, e2, x, n), gr);
  }

  /** Which scalars give a finite point with the abscissa of a given finite multiple. */
  lemma SecondScalarExactly(i: nat, j: nat, gr: Group)
    requires SigningGroup(gr) && i < gr.n && j < gr.n && !NFold(i, gr.g).infinite
    ensures !NFold(j, gr.g).infinite && NFold(j, gr.g).x == NFold(i, gr.g).x <==> i == j || (i + j) % gr.n == 0
  {
    InfiniteAtZero(i, gr);
    InfiniteAtZero(j, gr);
    if j > 0 {
      SameAbscissaExactly(i, j, gr);
    }
    hide SigningGroup, NFold;
    GroupNumbersBelow(i, j, gr.n);
  }

  lemma GroupNumbersBelow(i: nat, j: nat, n: nat)
    requires 0 < i < n && j < n
    ensures (i + j) % n == 0 <==> i + j == n
  {
    if i + j < n {
      SmallMod(i + j, n);
    } else {
      ModShift(i + j - n, 1, n);
      SmallMod(i + j - n, n);
    }
  }

  lemma InfiniteAtZero(k: nat, gr: Group)
    requires SigningGroup(gr) && k < gr.n
    ensures NFold(k, gr.g).infinite <==> k == 0
  {
    hide Plus, Prime;
    if k > 0 {
      OrderIsLeast(k, gr);
    }
  }

  /** The recovered scalars in terms of the challenges. */
  lemma ScalarsRelated(s: int, e1: int, e2: int, x: int, n: int)
    requires n > 0
    ensures
      var i, j := RecoveredScalar(s, e1, x, n), RecoveredScalar(s, e2, x, n);
      && (i == j <==> (e1 * x) % n == (e2 * x) % n)
      && ((i + j) % n == 0 <==> ((e1 + e2) * x) % n == (2 * s) % n)
  {
    var u, v := e1 * x, e2 * x;
    Distribute(e1, e2, x);
    DifferenceResidues(s, u, v, n);
    SumResidues(s, u, v, n);
  }

  lemma DifferenceResidues(s: int, u: int, v: int, n: int)
    requires n > 0
    ensures (s - u) % n == (s - v) % n <==> u % n == v % n
  {
    if u % n == v % n {
      ModAdd(s, s, u, v, n);
    }
    if (s - u) % n == (s - v) % n {
      ModAdd(s, s, s - u, s - v, n);
    }
  }

  lemma SumResidues(s: int, u: int, v: int, n: int)
    requires n > 0
    ensures ((s - u) % n + (s - v) % n) % n == 0 <==> (u + v) % n == (2 * s) % n
  {
    ModMod(s - u, n);
    ModMod(s - v, n);
    ModAdd((s - u) % n, s - u, (s - v) % n, s - v, n);
    if (2 * s - (u + v)) % n == 0 {
      ModAdd(2 * s - (u + v), 0, u + v, u + v, n);
    }
    if (u + v) % n == (2 * s) % n {
      ModAdd(2 * s, 2 * s, u + v, 2 * s, n);
    }
  }

  /**
   So a signature accepted for two messages shows two different 96-byte strings with digests
   equal modulo n, or challenges that meet one particular relation with the key.
   */
  lemma TwoMessagesCollide(h1: Digest, h2: Digest, sig: seq<byte>, x: nat, sha: Hash, gr: Group, w1: seq<byte>, w2: seq<byte>)
    requires SigningGroup(gr) && Prime(gr.n) && |sig| == 64 && 0 < x < gr.n && h1 != h2
    requires VerifySignature(h1, sig, Compress(NFold(x, gr.g)), sha, gr) && VerifySignature(h2, sig, Compress(NFold(x, gr.g)), sha, gr)
    requires IsChallengeText(w1, FromBytes(sig[..32]), NFold(x, gr.g).x, h1)
    requires IsChallengeText(w2, FromBytes(sig[..32]), NFold(x, gr.g).x, h2)
    ensures
      var e1, e2, s := FromBytes(sha(w1)) % gr.n, FromBytes(sha(w2)) % gr.n, FromBytes(sig[32..]);
      (w1 != w2 && e1 == e2) || ((e1 + e2) * x) % gr.n == (2 * s) % gr.n
  {
    SecondMessageAcceptedExactly(h1, h2, sig, x, sha, gr, w1, w2);
    var e1, e2 := FromBytes(sha(w1)) % gr.n, FromBytes(sha(w2)) % gr.n;
    hide VerifySignature, Compress, FromBytes, NFold, SigningGroup;
    assert w1 != w2 by {
      assert w1[64..] != w2[64..];
    }
    if (e1 * x) % gr.n == (e2 * x) % gr.n {
      SmallMod(x, gr.n);
      CancelsOnce(e1, e2, x, gr.n);
      ReducedEqual(e1, e2, gr.n);
    }
  }

  // ---------- The equation ----------

  /** Signing: s * G = R + e * P, in the operations of the curve. */
  lemma SigningEquation(k: nat, e: nat, x: nat, gr: Group)
    requires SigningGroup(gr) && 0 < x < gr.n
    ensures Times(gr.g, Response(k, e, x, gr.n)) == Plus(Times(gr.g, k), Times(Times(gr.g, x), e))
  {
    hide Plus, Times, Prime, NFold;
    var c, g, n := gr.curve, gr.g, gr.n;
    var s := Response(k, e, x, n);
    TimesIsNFold(g, s, c);
    TimesIsNFold(g, k, c);
    KeyPoint(x, gr);
    MultipleAssociates(x, g);
    TimesIsNFold(NFold(x, g), e, c);
    NFoldOfNFold(e, x, g);
    NFoldAdds(k, e * x, g);
    ModMod(k + e * x, n);
    NFoldModulo(s, k + e * x, g, n, c);
  }

  /** Verifying: what is accepted satisfies the same equation for a point with the claimed abscissa. */
  lemma AcceptedEquation(hash: Digest, sig: seq<byte>, x: nat, sha: Hash, gr: Group) returns (r: Point)
    requires SigningGroup(gr) && |sig| == 64 && 0 < x < gr.n
    requires VerifySignature(hash, sig, Compress(NFold(x, gr.g)), sha, gr)
    ensures
      var rx, s, pub := FromBytes(sig[..32]), FromBytes(sig[32..]), NFold(x, gr.g);
      && OnCurve(r, gr.curve) && !r.infinite && r.x == rx
      && Plus(r, Times(pub, Challenge(rx, pub.x, hash, sha, gr.n))) == Times(gr.g, s)
  {
    hide Times, NFold, VerifySignature, Challenge, FromBytes, Compress, SigningGroup, RecoveredScalar, OnCurve;
    GroupNumbers(gr);
    var rx, s, pub := FromBytes(sig[..32]), FromBytes(sig[32..]), NFold(x, gr.g);
    var e := Challenge(rx, pub.x, hash, sha, gr.n);
    r := NFold(RecoveredScalar(s, e, x, gr.n), gr.g);
    VerifiesExactly(hash, sig, x, sha, gr);
    RecoveredEquation(s, e, x, gr);
  }

  lemma RecoveredEquation(s: nat, e: nat, x: nat, gr: Group)
    requires SigningGroup(gr) && 0 < x < gr.n
    ensures
      var r := NFold(RecoveredScalar(s, e, x, gr.n), gr.g);
      OnCurve(r, gr.curve) && Plus(r, Times(NFold(x, gr.g), e)) == Times(gr.g, s)
  {
    hide Plus, Times, Prime, NFold;
    var k := RecoveredScalar(s, e, x, gr.n);
    NFoldOnCurve(k, gr.g, gr.curve);
    ChallengeTimesKey(s, e, x, gr);
    NFoldAdds(k, (e * x) % gr.n, gr.g);
    ScalarsAddUp(s, e * x, gr.n);
    NFoldModulo(k + (e * x) % gr.n, s, gr.g, gr.n, gr.curve);
  }

  lemma ScalarsAddUp(s: int, y: int, n: int)
    requires n > 0
    ensures ((s - y) % n + y % n) % n == s % n
  {
    ModMod(s - y, n);
    ModMod(y, n);
    ModAdd((s - y) % n, s - y, y % n, y, n);
  }

  // ---------- What is never accepted ----------

  /** A key out of range or an infinite public key gives a signature that no key accepts. */
  lemma RefusedSigningNeverVerifies(hash: Digest, key: int, pub: Point, k: int, hash': Digest, pubKey: seq<byte>, sha: Hash, gr: Group)
    requires |pubKey| == 33 && gr.curve.p > 0 && gr.g.curve == gr.curve && 0 < gr.n < LIMIT
    requires key <= 0 || key >= gr.n || pub.infinite
    ensures !VerifySignature(hash', SignHash(hash, key, pub, k, sha, gr), pubKey, sha, gr)
  {
    hide Times, Challenge, Response, Decompress, ComputedNonce, FromBytes, Bytes32;
    var sig := SignHash(hash, key, pub, k, sha, gr);
    assert sig[32..] == seq(32, _ => 0);
    ZeroBytes();
  }

  lemma ZeroBytes()
    ensures FromBytes(seq(32, _ => 0)) == 0
  {
    var zeros: seq<byte> := seq(32, _ => 0);
    ZeroDigits(zeros);
  }

  lemma {:induction false} ZeroDigits(data: seq<byte>)
    requires forall i :: 0 <= i < |data| ==> data[i] == 0
    ensures FromBytes(data) == 0
  {
    if data != [] {
      assert HexOf(data) == "00" + HexOf(data[1..]);
      ZeroDigits(data[1..]);
      ZeroPair();
      PositionalConcat("00", HexOf(data[1..]), 16);
    }
  }

  lemma ZeroPair()
    ensures AllDigits("00", 16) && Positional("00", 16) == 0
  {
    assert "00"[..1] == "0" && "0"[..0] == "";
  }

  /** A key that is not a point is never accepted, whatever the signature. */
  lemma UndecodableKeyRefused(hash: Digest, sig: seq<byte>, pubKey: seq<byte>, sha: Hash, gr: Group)
    requires |sig| == 64 && |pubKey| == 33 && gr.g.curve == gr.curve && gr.n > 0 && CodecCurve(gr.curve)
    requires (pubKey[0] != 2 && pubKey[0] != 3) || FromBytes(pubKey[1..]) >= gr.curve.p
             || forall y :: !SatisfiesCurve(FromBytes(pubKey[1..]), y, gr.curve)
    ensures !VerifySignature(hash, sig, pubKey, sha, gr)
  {
    hide Times, Challenge, Decompress, ComputedNonce, FromBytes;
    DecompressesExactly(pubKey, gr.curve);
  }
}
