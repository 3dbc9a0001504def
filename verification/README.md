# A verified model of a proof-of-work blockchain node

This project models the core of a small blockchain node written in C++ and proves properties
of it in Dafny. `dafny verify dfyconfig.toml` checks everything. Each module follows one
component of the node:

- **Big integers** (`Words`, `Limbs`, `Magnitude`, `KnuthDivision`, `LimbText`, `BigInts`,
  `Modular`): signed integers over 64-bit limbs. The limb routines are loops over arrays and
  lists of limbs, each proved against the value `Val(limbs)`; `BigInts.BigInt` is a class
  whose operations are proved exact on `Value()`. Shifts are products and quotients by powers
  of two, and the `|` of disjoint bits is a sum; the 64- and 128-bit widths are types, so
  every intermediate result is proved to fit.
- **Elliptic curve** (`FieldPowers`, `Curves`, `ScalarMul`, `PointCodec`, `Schnorr`): over
  mathematical integers with the floored division that the big integers are proved to
  implement. Fermat's little theorem and Euclid's lemma are proved here.
- **Merkle root** (`Merkle`): the level-halving loop against the tree hash of section 2.1 of
  RFC 6962. The hash is any function to 32 bytes; nothing is assumed about collisions.
- **Wire format and frame reader** (`Wire`, `PeerReader`): big-endian codecs, messages, and
  the per-connection buffer that reassembles them.
- **Ledger** (`Ledger`, `LedgerSums`, `LedgerRuns`, `LedgerAuthority`, `LedgerReplays`,
  `LedgerSolvency`, `LedgerLimits`, `Blocks`, `Blockchains`):
  the classes `Block` and `Blockchain` update their fields in place, and each method is proved
  to take the step of the same name on an abstract state (`State()`). Runs, invariants and
  limits are then theorems about those steps.
- **Sync latch** (`SyncLatch`): a transition system with one program counter per thread; a
  step is one atomic access or one locked section, and threads interleave freely.

`Arith`, `Floored`, `Numerals`, `Hex` and `Results` hold shared arithmetic, digit texts and
result types.

Hypotheses. That secp256k1's p is prime, that the group law associates on the multiples of a
point, and that G has order n are `requires` clauses of the lemmas that need them, never
axioms; `Schnorr.SmallIsSigningGroup` shows on a curve modulo 7 that the conditions put on a
signing group can be met. Hash functions, the texts that are hashed, and the signature check
of a transaction are parameters of the ledger (`Ledger.Functions`). Clock readings, nonces,
salts, received bytes and the contents of a file are parameters.

Where the documentation and the code differ, the model follows the code:

- The node's own `README.md:4`, `README.md:9` and `README.md:24` speak of ECDSA; the equation in
  `src/ECCrypto.cpp:324-325` is s = k + e*x, a Schnorr signature.
- `README.md:13` of the node says that difficulty retargets every 10 blocks; `src/Blockchain.cpp:542-559`
  retargets at every block from height 10 on, over a sliding window of ten.
- The comment at `src/Blockchain.cpp:285` says that pending transactions included in an
  accepted block are dropped; a block that carries a pending transfer is refused at
  `src/Blockchain.cpp:249-256`, because the replay test also scans the pool, and it is refused
  until a chain is loaded (`LedgerReplays.VetoIsPermanent`).
- The comment at `src/Blockchain.cpp:258-263` takes mined blocks to carry exactly one system
  transaction; a pool can hold further ones, because `src/Blockchain.cpp:51-66` exempts them
  from the balance check, and then a mined block has more than one.
- The comment at `src/P2PNode.cpp:1119-1120` says that two syncs can no longer start at once;
  `LateCancel` and `DisconnectWhileSending` in `SyncLatch` are runs in which they do, one by a
  stale cancellation and one by a timely one.
- The comment at `src/ECCrypto.cpp:396-398` avoids the point (0, p); `decompressPublicKey`
  would itself return y = p for an x where the right-hand side of the curve is zero and odd
  parity is asked (`PointCodec.DecompressedOnCurve`).

## Model

| member | source | states |
|---|---|---|
| Magnitude.CompareMagnitude | src/include/bigint.h:42-49 | The sign of the answer is the order of the two values, and it is zero only for identical limb lists |
| Magnitude.AddMagnitude | src/include/bigint.h:58-73 | The result has the sum of the values; the carry loop stays within 128 bits |
| Magnitude.SubMagnitude | src/include/bigint.h:75-92 | For a minuend that is not smaller, the result has the difference and no borrow is left |
| Magnitude.MulMagnitude | src/include/bigint.h:94-113 | The result has exactly the product, in as many limbs as the operands have together |
| Magnitude.MulRow | src/include/bigint.h:100-110 | One row of schoolbook multiplication adds its partial product in place; every sum fits 128 bits and the carry never runs past the array |
| Magnitude.ProductFits | src/include/bigint.h:103-105 | Product of two limbs plus a limb plus a carry is below 2^128, and its high half is again a limb |
| Magnitude.DivByLimb | src/include/bigint.h:149-157 | Division by a single limb is exact, with a remainder below the divisor |
| KnuthDivision.TrialDigit | src/include/bigint.h:184-194 | The correction loop leaves a digit below 2^64 that is the exact quotient of the leading three limbs by the leading two (capped at 2^64 - 1), after at most two corrections, with every product inside 128 bits |
| KnuthDivision.TrialDigitBound | src/include/bigint.h:184-194 | Such a digit is the true quotient digit of the whole window or one more |
| KnuthDivision.SubtractProduct | src/include/bigint.h:196-209 | Multiply-subtract leaves the window minus digit times divisor, as low limbs plus a signed top within 65 bits; nothing outside the window changes |
| KnuthDivision.AddBack | src/include/bigint.h:211-222 | Adding back adds the divisor once, modulo the top limb, and changes nothing outside the window |
| KnuthDivision.DivideStep | src/include/bigint.h:184-223 | One quotient digit: the stored digit is the true one, the remainder is below the divisor, the top limb becomes zero, and add-back runs exactly when the trial digit was one too big |
| KnuthDivision.ShiftedValue | src/include/bigint.h:168-181 | The normalising shift, with bits carried between limbs, multiplies the value by a power of two |
| KnuthDivision.UnshiftedValue | src/include/bigint.h:226-232 | The denormalising shift divides the value by that power of two |
| KnuthDivision.DisjointBits | src/include/bigint.h:168-181 | The two parts joined by a bitwise or occupy disjoint bits, so the or is a sum that fits a limb |
| KnuthDivision.DivideDigits | src/include/bigint.h:183-224 | All digit steps together divide the normalised dividend by the normalised divisor |
| KnuthDivision.DivModMagnitude | src/include/bigint.h:138-233 | For canonical a and non-empty canonical b: canonical q and r with a = q*b + r and 0 <= r < b |
| Floored.FlooredDivision | src/include/bigint.h:376-398 | Floored quotient and remainder reassemble the dividend, and the remainder has the sign of the divisor and a smaller magnitude |
| BigInts.FlooredFromMagnitudes | src/include/bigint.h:376-398 | Truncated division of the magnitudes plus the sign corrections is floored division, for every combination of signs |
| BigInts.BigInt.FromInt64 | src/include/bigint.h:240-247 | Every 64-bit integer, the least one included, is represented exactly |
| BigInts.BigInt.ValueDetermines | src/include/bigint.h:34-56 | Canonical form is unique: equal values have equal limbs and sign |
| BigInts.BigInt.Compare | src/include/bigint.h:52-56 | Signed comparison is the order of the values |
| BigInts.BigInt.Negated | src/include/bigint.h:296-300 | The value is negated, and zero stays non-negative |
| BigInts.BigInt.Plus | src/include/bigint.h:340-358 | Signed addition is exact and canonical |
| BigInts.BigInt.Minus | src/include/bigint.h:360 | Signed subtraction is exact and canonical |
| BigInts.BigInt.Times | src/include/bigint.h:365-371 | Signed multiplication is exact and canonical |
| BigInts.BigInt.DividedBy | src/include/bigint.h:376-386 | Fails exactly on a zero divisor; otherwise the floored quotient, canonical |
| BigInts.BigInt.Modulo | src/include/bigint.h:388-398 | Fails exactly on a zero divisor; otherwise the floored remainder, canonical |
| BigInts.BigInt.MulAddInPlace | src/include/bigint.h:115-127 | Multiplies the stored magnitude by a limb and adds a limb, in place, without overflow |
| LimbText.ChunkLength | src/include/bigint.h:265-272 | The chunk length is the largest k for which the base to the power k is below 2^64 |
| LimbText.ReadChunk | src/include/bigint.h:276-286 | A chunk of digits is read without overflow as its positional value together with the base raised to its length, and fails exactly on a bad digit |
| BigInts.BigInt.Parse | src/include/bigint.h:253-292 | Fails exactly on a bad base, a missing digit or a bad digit; otherwise the signed positional value |
| BigInts.BigInt.ToText | src/include/bigint.h:406-428 | The canonical decimal text of the value: a sign, no leading zeros |
| LimbText.PeelChunks | src/include/bigint.h:411-421 | Peeling 19 decimal digits at a time keeps the value and ends with a non-zero leading chunk |
| LimbText.PrintChunks | src/include/bigint.h:422-426 | Printing the chunks with zero padding gives the decimal digits of the value |
| BigInts.BigInt.ToBinaryText | src/include/bigint.h:328-338 | The canonical binary text of the value |
| LimbText.TextRoundTrip | src/include/bigint.h:253-428 | Reading the text of any integer in any base from 2 to 36 gives the integer back |
| LimbText.TextCanonical | src/include/bigint.h:406-428 | Different integers have different texts, and a leading zero appears only in "0" |
| LimbText.SignsRead | src/include/bigint.h:256-264 | A leading minus negates what follows it, a leading plus does not |
| LimbText.TextSign | src/include/bigint.h:427 | A text begins with a minus exactly for a negative number and never with a plus |
| Numerals.DigitsAreAscii | src/include/bigint.h:129-134 | The digits are those of ASCII, letters of either case from ten on |
| Modular.InverseCorrect | src/include/bigint.h:467-482 | For mod > 1 the result is in [0, mod), and it is an inverse exactly when the operands are coprime |
| Modular.EuclidCofactorBound | src/include/bigint.h:472-480 | From any balanced start, the cofactor the loop ends with does not exceed the modulus |
| Modular.BalancedStep | src/include/bigint.h:472-480 | abs(y)*temp_mod + abs(y_prev)*temp_a stays equal to the modulus, with alternating signs |
| Modular.InverseSteps | src/include/bigint.h:472-480 | The number of iterations, as a function of the operands, is at most twice the bit length of the modulus |
| BigInts.BigInt.Inverse | src/include/bigint.h:467-482 | The loop over big integers computes the specified inverse and fails exactly on a zero modulus; for a positive modulus it iterates at most twice as often as the modulus has bits and no cofactor outgrows the modulus on the way |
| FieldPowers.ModPowLoop | src/ECCrypto.cpp:466-482 | Square-and-multiply over the binary text computes base^abs(exp) mod m; a zero exponent gives 1 |
| FieldPowers.Fermat | src/ECCrypto.cpp:492-499 | Fermat's little theorem, on which the residue test rests: a^(p-1) = 1 mod p |
| FieldPowers.SqrtSquares | src/ECCrypto.cpp:484-503 | For p = 3 mod 4 a non-zero root squares to n mod p; primality is not needed |
| FieldPowers.SqrtComplete | src/ECCrypto.cpp:484-503 | For prime p = 3 mod 4 and 0 < n < p a root is returned exactly when one exists |
| FieldPowers.TwoRoots | src/ECCrypto.cpp:484-503 | Modulo a prime, two numbers with the same square are equal or opposite |
| Curves.DoubledOnCurve | src/ECCrypto.cpp:36-45 | Doubling a reduced point of the curve stays on it, and gives infinity exactly when y = 0 |
| Curves.ChordPlusOnCurve | src/ECCrypto.cpp:60-63 | The chord through two points with different x meets the curve again at a finite reduced point |
| Curves.PlusOnCurve | src/ECCrypto.cpp:47-64 | Addition of reduced points of the curve, infinity included, stays on the curve |
| Curves.SumIsReflectedThirdPoint | src/ECCrypto.cpp:60-63 | The sum of two points with different x is the only reduced point whose reflection is on the line through them and whose x completes theirs to the square of its slope |
| Curves.DoubleIsReflectedThirdPoint | src/ECCrypto.cpp:36-45 | The same for doubling, with the tangent of slope (3x^2 + a) / 2y |
| Curves.InfinityIsIdentity | src/ECCrypto.cpp:47-50 | Infinity is neutral on both sides |
| Curves.CancelsExactlyNegation | src/ECCrypto.cpp:52-58 | For y different from zero a sum is infinite exactly when the other point is the negation |
| Curves.PlusCommutes | src/ECCrypto.cpp:47-64 | Addition on the curve commutes |
| ScalarMul.TimesLoop | src/ECCrypto.cpp:66-86 | The loop over the binary text computes the specified ladder |
| ScalarMul.TimesIsNFold | src/ECCrypto.cpp:66-86 | Double-and-add is abs(n)-fold addition, for every scalar and every point, given associativity on the point's multiples |
| ScalarMul.NFoldModulo | src/ECCrypto.cpp:66-86 | Multiples of a point of order n depend only on the scalar modulo n |
| ScalarMul.NegatedMultiple | src/ECCrypto.cpp:399-403 | Negating a finite multiple m*G gives (n - m)*G |
| PointCodec.BytesRoundTrip | src/ECCrypto.cpp:427-463 | A number survives 32 bytes exactly when it is in [0, 2^256) |
| PointCodec.NumberRoundTrip | src/ECCrypto.cpp:427-463 | Every 32 bytes survive the trip through a number |
| PointCodec.FromBytesIsBigEndian | src/ECCrypto.cpp:457-463 | A further byte raises the value before it 256-fold |
| PointCodec.OutOfRangeBytes | src/ECCrypto.cpp:427-455 | A negative number is written as zero and one that is too large by its leading 64 hex digits |
| PointCodec.BigIntToBytes32 | src/ECCrypto.cpp:427-455 | Writes the 32 bytes of the padded hex text at the offset and nothing else |
| PointCodec.DecompressesExactly | src/ECCrypto.cpp:527-567 | A key decompresses exactly when its prefix is valid, x is below p and the curve has a point with that x |
| PointCodec.DecompressedOnCurve | src/ECCrypto.cpp:527-567 | What decompresses is on the curve with the requested parity; y equals p in exactly one case, a root of zero with odd parity |
| PointCodec.CompressOfDecompress | src/ECCrypto.cpp:505-567 | Compressing a decompressed key gives the key back |
| PointCodec.DecompressOfCompress | src/ECCrypto.cpp:505-567 | Decompressing a compressed finite reduced curve point gives the point back, y = 0 included |
| Schnorr.ComputedNonceIs | src/ECCrypto.cpp:391-405 | Verification computes the nonce point of the scalar s - e*x |
| Schnorr.VerifiesExactly | src/ECCrypto.cpp:357-416 | A signature is accepted exactly when s and R.x are in range and the point of s - e*x is finite with that x |
| Schnorr.ChallengeHashesText | src/ECCrypto.cpp:311-322 | The challenge is the hash of 96 bytes, R.x, the key's x and the message hash in that order, modulo n |
| Schnorr.ChallengeTextDetermines | src/ECCrypto.cpp:311-322 | Those bytes determine all three parts |
| Schnorr.SecondMessageAcceptedExactly | src/ECCrypto.cpp:357-416 | A signature accepted for one message is accepted for another exactly when the challenges, times the key, agree or add up to twice the response |
| Schnorr.TwoMessagesCollide | src/ECCrypto.cpp:357-416 | For a prime order, acceptance for two messages shows two different hashed strings with digests equal modulo n, or that relation |
| Schnorr.SigningEquation | src/ECCrypto.cpp:303-326 | Signing satisfies s*G = R + e*P in the operations of the curve |
| Schnorr.AcceptedEquation | src/ECCrypto.cpp:391-415 | What is accepted satisfies the same equation for a curve point with the claimed x |
| Schnorr.RefusedSigningNeverVerifies | src/ECCrypto.cpp:292-301 | A key out of range or an infinite public key gives a signature that no key accepts |
| Schnorr.UndecodableKeyRefused | src/ECCrypto.cpp:372-376 | A key that is not a point is never accepted |
| Schnorr.SignedVerifies | src/ECCrypto.cpp:290-416 | What signing makes is accepted exactly when s and R.x are not zero |
| Schnorr.Secp256k1Numbers | src/include/ECCrypto.h:14-21 | The constants: p = 3 mod 4, n odd, both below 2^256, and the generator is on the curve |
| Schnorr.Secp256k1SignedVerifies | src/ECCrypto.cpp:290-416 | The same for secp256k1, assuming only that p is prime, that the group law associates on multiples of G and that G has order n |
| Hex.HexInjective | src/utils.cpp:83-89 | Different byte strings have different hex texts |
| Hex.HexBytewise | src/utils.cpp:83-89 | Each byte becomes two lower-case hex digits, the high half first |
| Merkle.SplitPointIsLargestPower | src/utils.cpp:46-75 | The split point is the only power of two k with k < n <= 2k, as section 2.1 of RFC 6962 asks |
| Merkle.HalvingKeepsTree | src/utils.cpp:57-72 | A pass of the loop, odd last node promoted, does not change the tree hash |
| Merkle.CalculateMerkleRoot | src/utils.cpp:46-75 | The loop returns the hex of the tree hash of section 2.1 of RFC 6962 for every list, the empty one included, and hashes exactly what that recursion hashes |
| Merkle.HalveLevel | src/utils.cpp:57-72 | One pass of the loop hashes the pairs and promotes an unpaired last node |
| Merkle.TreeHashOfLeaves | src/utils.cpp:23-75 | The tree hash over leaf digests is the RFC's hash over leaf data |
| Merkle.IsRfcTreeHash | src/utils.cpp:17-75 | The tree hash byte for byte as section 2.1 of RFC 6962: 0x00 before a leaf, 0x01 before a node, split at the largest power of two below the length |
| Merkle.TreeCollision | src/utils.cpp:23-75 | Two different non-empty lists with one tree hash: walking the trees finds two different strings, each hashed for its list, with one digest |
| Merkle.RootCollision | src/utils.cpp:23-75 | Two different lists of any lengths with the same root yield such a collision |
| Wire.BigEndianRoundTrip | src/include/P2PMessage.h:22-59 | Big-endian encoding of a number that fits reads back as the number |
| Wire.FromBigEndianRoundTrip | src/include/P2PMessage.h:22-59 | Every byte string is the encoding of what it reads as |
| Wire.ReadsAreBigEndian | src/include/P2PMessage.h:22-32 | The fixed-width reads are the positional big-endian value |
| Wire.ReadI64BE | src/include/P2PMessage.h:34-40 | Eight bytes read as a two's complement number |
| Wire.AppendI64BE | src/include/P2PMessage.h:54-59 | Appends the eight big-endian bytes of the two's complement form |
| Wire.FrameLayout | src/include/P2PMessage.h:156-189 | The frame byte for byte: "BLKC", type, payload length, timestamp, sender length, all big-endian, then sender and payload |
| Wire.Serialize | src/include/P2PMessage.h:156-189 | Fails exactly on a sender id over 65535 bytes; otherwise the header, sender and payload |
| Wire.Deserialize | src/include/P2PMessage.h:191-233 | Decodes or reports the error of the first check that fails |
| Wire.MessageRoundTrip | src/include/P2PMessage.h:156-233 | An encoded message, whatever follows it, decodes to itself exactly when its payload is within the limit |
| Wire.DecodedEncodes | src/include/P2PMessage.h:191-233 | Whatever decodes is the encoding of the result: the format has one encoding per message |
| PeerReader.Peer.ExtractMessage | src/P2PNode.cpp:60-94 | One extraction: incomplete, closed, or a message removed from the front of the buffer |
| PeerReader.Peer.NextBufferedMessage | src/P2PNode.cpp:96-101 | The same on a connected peer; a disconnected one reports closed and keeps its buffer |
| PeerReader.Peer.PollReceive | src/P2PNode.cpp:103-124 | One read is buffered, then bounded, then extracted from |
| PeerReader.PartialFrame | src/P2PNode.cpp:60-94 | A proper prefix of a frame is incomplete: never closed on, never a message, never consumed |
| PeerReader.WholeFrame | src/P2PNode.cpp:60-94 | A whole frame comes out as its message and leaves exactly the rest |
| PeerReader.ReceivesExactly | src/P2PNode.cpp:60-94 | A message comes out exactly when its whole encoding is at the front of the buffer |
| PeerReader.IncompleteExactly | src/P2PNode.cpp:60-94 | The reader waits exactly while the header is incomplete or the buffer begins some message, and closes exactly when 19 bytes are there that neither hold nor begin one |
| PeerReader.PollClosesExactly | src/P2PNode.cpp:103-124 | A read closes the connection exactly when nothing was read, the buffer would outgrow the largest frame, or extraction closes it |
| PeerReader.DrainDelivers | src/P2PNode.cpp:60-101 | Draining a buffer delivers exactly the messages whose frames are complete |
| PeerReader.Reassembly | src/P2PNode.cpp:60-124 | Any cut of any messages into reads of 1 to 4096 bytes delivers exactly those messages in order, never closes and leaves nothing buffered, if each frame leaves room for one read |
| PeerReader.ReassemblyFromStart | src/P2PNode.cpp:60-124 | The same from a fresh connection, for sender ids of up to 61440 bytes |
| PeerReader.ExtractedWasFirst | src/P2PNode.cpp:60-94 | Of arbitrary bytes too, an extracted message was at the front of the buffer, encoded, and within the limits |
| PeerReader.ReadsAccount | src/P2PNode.cpp:60-124 | After any reads of any bytes the delivered messages, encoded, and the buffer are exactly the bytes taken; all are taken unless the connection closed; the buffer stays within its limit |
| PeerReader.CutsDoNotMatter | src/P2PNode.cpp:60-124 | Two connections that took the same bytes, of any kind, in different reads and are both open delivered the same messages and buffer the same rest |
| PeerReader.RoomIsExact | src/P2PNode.cpp:115-121 | The room is needed: a frame that leaves none is closed on by one cut, and a frame that leaves it is not |
| Blocks.CheckProofOfWork | src/utils.cpp:91-102 | True exactly when the difficulty is between zero and the length of the hash and that many leading characters are zeros |
| LedgerLimits.ProofOfWorkIsZeros | src/utils.cpp:91-102 | A difficulty asks for exactly that many leading zeros |
| Blocks.Block.constructor | src/Block.cpp:11-18 | An unmined block with the root of no transactions |
| Blocks.Block.AddTransaction | src/Block.cpp:25-41 | A valid transaction is appended and the root recomputed; an invalid one changes nothing |
| Blocks.Block.SetTransactions | src/Block.cpp:43-47 | Replaces the list without validation and recomputes the root |
| Blocks.Block.CalculateMerkleRoot | src/Block.cpp:89-101 | The root of the current transactions; the empty case agrees with the general one |
| Blocks.Block.MineBlock | src/Block.cpp:61-87 | Given some nonce that meets the difficulty, the search ends on the first one from 1 up, no further than that, and changes nothing else |
| Blocks.Block.IsValid | src/Block.cpp:103-136 | Hash, proof of work, every transaction and the Merkle root |
| Blocks.Block.IsValidWithDifficulty | src/Block.cpp:138-148 | Validity together with the exact required difficulty |
| Blockchains.Blockchain.constructor | src/Blockchain.cpp:15-30 | A fresh ledger is one mined empty block, an empty pool and an empty cache |
| Blockchains.Blockchain.AddTransaction | src/Blockchain.cpp:38-70 | The pool grows by the transaction exactly when it is valid, unknown and affordable beside what its sender has pending |
| Blockchains.Blockchain.MinePendingTransactions | src/Blockchain.cpp:72-120 | A mining step of the ledger: the valid pool and a reward in one block, the pool emptied; an invalid reward keeps the pool |
| Blockchains.Blockchain.SealAndAppend | src/Blockchain.cpp:108-117 | After the search the difficulty check cannot fail, and exactly the sealed block is appended |
| Blockchains.Blockchain.AddBlock | src/Blockchain.cpp:210-301 | A peer block is accepted exactly when it is admissible; otherwise, and without a block, nothing changes |
| Blockchains.Blockchain.BlockMintsOnce | src/Blockchain.cpp:258-281 | The counting loop accepts exactly one system transaction, of exactly the expected amount |
| Blockchains.Blockchain.DropIncluded | src/Blockchain.cpp:285-295 | Keeps, in order, the pending transactions whose hash is not in the block |
| Blockchains.Blockchain.IsChainValid | src/Blockchain.cpp:165-208 | True exactly when every block is valid at its required difficulty, linked, and not older than the one before |
| Blockchains.Blockchain.LoadFromFile | src/Blockchain.cpp:389-490 | A load step of the ledger: adopted exactly when the file parses and its chain validates, otherwise rolled back |
| Blockchains.Blockchain.UpdateBalances | src/Blockchain.cpp:492-512 | The cache becomes the replay of the whole history |
| Blockchains.Blockchain.TransactionExists | src/Blockchain.cpp:514-534 | True exactly when the hash is in the chain or the pool |
| Blockchains.Blockchain.PendingOutflow | src/Blockchain.cpp:151-163 | The total an address has queued for spending |
| Blockchains.Blockchain.CalculateRequiredDifficultyAtHeight | src/Blockchain.cpp:539-560 | The difficulty rule at a height |
| LedgerSums.CacheIsNet | src/Blockchain.cpp:492-512 | The replayed cache gives every address what it received less what it spent |
| LedgerSums.TotalIsMinted | src/Blockchain.cpp:492-512 | All balances add up to what the mint has sent |
| LedgerSums.CoveredKeepsHistory | src/Blockchain.cpp:51-66 | Appending transactions that the history covers leaves no point of the longer history overdrawn |
| LedgerRuns.StepKeepsSound | src/Blockchain.cpp:38-301 | Every operation, loads included, keeps the cache equal to the replay and the pool valid, free of repeats and disjoint from the chain |
| LedgerRuns.CacheAndConservation | src/Blockchain.cpp:38-512 | After any run of operations the cache is each address's net receipts and the balances add up to what was minted |
| LedgerAuthority.RunsHoldOnlyGenuine | src/Transaction.cpp:154-202 | In every run, peer blocks and loads included, every transaction of the history and the pool has distinct named parties, an amount within the cap, and is sent by the mint or signed by its sender |
| LedgerAuthority.ForgedIsRefused | src/Transaction.cpp:178-199 | A transfer its sender did not sign changes nothing, submitted or in a peer block, and is in no file that loads |
| LedgerAuthority.UnsignedNeverDebited | src/Transaction.cpp:178-199 | In every run, an address that signed nothing in the history has exactly what it received |
| LedgerAuthority.DebitIsSigned | src/Transaction.cpp:178-199 | A balance falls in a step only through a transfer its owner signed, among those the step appends |
| LedgerSolvency.PoolGrowsExactly | src/Blockchain.cpp:38-70 | While all pending is covered, a transaction enters the pool exactly when it is valid, unknown, and leaves all pending covered |
| LedgerLimits.MiningPaysReward | src/Blockchain.cpp:72-120 | Mining raises every balance by what the pool nets it and the given address's by the reward besides; a reward or address that cannot be paid changes nothing |
| LedgerSolvency.LocalRunsNeverOverdraw | src/Blockchain.cpp:38-120 | In runs of submitting, mining and changing the reward no address is overdrawn at any point of the history, and pending outflow is within each balance |
| LedgerRuns.RequiredOnPrefix | src/Blockchain.cpp:536-560 | The required difficulty at a height depends only on the blocks below it |
| LedgerRuns.AppendValid | src/Blockchain.cpp:165-208 | A chain grown by one block is valid exactly when the old one was and the block follows its tip |
| LedgerRuns.MiningKeepsValidExactly | src/Blockchain.cpp:72-120 | Mining keeps the chain valid exactly when the clock is not behind the tip |
| LedgerRuns.RunsStayValid | src/Blockchain.cpp:72-490 | In every run whose mining clock is never behind the tip, peer blocks and loads included, the chain stays valid |
| LedgerRuns.TipCommits | src/Blockchain.cpp:165-208 | Two valid chains of one length with the same tip hash agree in every sealed field, or show two different headers at one height with one digest |
| LedgerRuns.RootCommits | src/Block.cpp:124-133 | Two valid blocks with one Merkle root and different transaction hashes show a collision among the strings hashed for them |
| LedgerReplays.NoReplayWithoutLoad | src/Blockchain.cpp:243-256 | In every run without loads no non-system transaction hash is in two blocks, no pooled hash is in the chain or twice in the pool, and every block is at its own index; no such hash is in the history twice exactly when no accepted block repeats itself |
| LedgerReplays.ReceivedRepeatFreeExactly | src/Blockchain.cpp:210-301 | Accepting a block keeps the whole history free of repeated transfers exactly when the block itself is free of them |
| LedgerReplays.MinedRepeatFree | src/Blockchain.cpp:72-120 | Local mining always keeps the history free of repeated transfers |
| LedgerReplays.RunRepeatFreeExactly | src/Blockchain.cpp:38-301 | From any sound repeat-free state, a run without loads ends repeat-free exactly when every block it accepts is repeat-free |
| LedgerReplays.LocalRunsNeverRepeat | src/Blockchain.cpp:38-120 | Runs of submitting, mining and changing the reward never repeat a transfer |
| LedgerReplays.NeverForgotten | src/Blockchain.cpp:514-534 | Without loads, a transaction once found in the chain or pool is found in them ever after |
| LedgerReplays.VetoIsPermanent | src/Blockchain.cpp:243-256 | A node that has a transfer of a block pending refuses that block after every run without loads |
| LedgerSolvency.MinedSolventExactly | src/Blockchain.cpp:72-120 | From any sound state with no negative balance, mining leaves none exactly when each sender in the pool can pay for what it has pending |
| LedgerSolvency.ReceivedSolventExactly | src/Blockchain.cpp:210-301 | A peer block keeps the ledger solvent, pending transfers included, exactly when each transfer is affordable in its turn and each sender can still pay for what it has pending |
| LedgerSolvency.RunSolventExactly | src/Blockchain.cpp:38-301 | A run without loads is solvent in every state exactly when every block it accepts meets that condition |
| LedgerSolvency.PaidRunsNeverOverdraw | src/Blockchain.cpp:38-301 | The same from a fresh ledger, and then nobody is overdrawn at any point of the history |
| LedgerReplays.PoolVetoesBlocks | src/Blockchain.cpp:243-256 | A block is refused because of the pool exactly when one of its transfers is pending there |
| LedgerReplays.SweepDropsOnlyMintHashes | src/Blockchain.cpp:285-295 | So the sweep after acceptance removes only what shares a hash with the block's mint |
| LedgerSolvency.AcceptedBlockSolventExactly | src/Blockchain.cpp:210-301 | An accepted peer block leaves all balances non-negative exactly when every sender in it can pay out of its balance and its receipts in the block |
| LedgerReplays.KeptBySweep | src/Blockchain.cpp:285-295 | A pending transaction survives the sweep exactly when its hash is not in the block |
| LedgerLimits.AcceptedBlockMintsReward | src/Blockchain.cpp:258-281 | An accepted block raises the sum of all balances by exactly the mining reward |
| LedgerLimits.MinedBlockAcceptedExactly | src/Blockchain.cpp:72-281 | A node with the same chain and reward and an empty pool accepts a mined block exactly when the miner's clock was not behind the tip and its pool held no system transaction |
| LedgerLimits.SamePoolAcceptsExactly | src/Blockchain.cpp:72-281 | A node in the same state as the miner accepts the mined block exactly when the clock was not behind the tip and the pool was empty |
| LedgerLimits.RepeatedTransferAccepted | src/Blockchain.cpp:210-301 | Whatever the hashes and the signature check, a block that carries any valid unseen transfer twice beside a correct reward is accepted, and its sender is debited twice, whatever it owns |
| LedgerSums.BalancesFit | src/Blockchain.cpp:492-512 | With amounts within the cap every balance of a history of up to 4392 transactions fits 64 bits at every point of the replay, between credit and debit too |
| LedgerRuns.ValidChainFits | src/Blockchain.cpp:492-512 | So do the balances of every valid chain of up to 4392 transactions |
| LedgerLimits.PeerBlockCanOverspendAndRepeat | src/Blockchain.cpp:210-301 | A concrete block, accepted, that spends what nobody owns and carries one transaction twice |
| LedgerLimits.FailedLoadRestoresExactly | src/Blockchain.cpp:465-483 | A failed load restores everything but the reward; the reward exactly when no validation was reached or it is a multiple of the spacing of doubles around it |
| LedgerLimits.SurvivesDoubleExactly | src/Blockchain.cpp:472 | An integer survives a double exactly when it is a multiple of the spacing of doubles around it |
| LedgerLimits.SpacingExactly | src/Blockchain.cpp:472 | The spacing is the power of two that leaves 53 significant bits |
| LedgerLimits.NearestDouble | src/Blockchain.cpp:472 | The trip through a double gives the nearest multiple of the spacing, ties to the even one |
| LedgerLimits.SavedLoadsExactly | src/Blockchain.cpp:325-490 | A saved ledger loads exactly when its chain is valid and its reward can be paid, and comes back as it was with an empty pool |
| LedgerLimits.RunsSurviveSaving | src/Blockchain.cpp:325-490 | So does the ledger of every run whose mining clock is never behind the tip, if its reward can be paid |
| LedgerLimits.RewardsThatSurvive | src/Blockchain.cpp:472 | Every reward within the supply cap survives; 2^53 + 1 comes back as 2^53 |
| LedgerLimits.RetargetExactly | src/Blockchain.cpp:549-559 | From height 10 a block is harder exactly after a fast window and easier exactly after a slow one above difficulty one; a slow window lifts zero to one |
| LedgerLimits.DifficultyMovesByOne | src/Blockchain.cpp:549-559 | In a valid chain the difficulty moves by at most one a block and never drops below one again |
| LedgerLimits.DifficultyStaysPositive | src/Blockchain.cpp:549-559 | A valid chain that starts at difficulty one or more stays there |
| LedgerLimits.FastBlocksRaiseEveryBlock | src/Blockchain.cpp:536-560 | The window slides: while blocks come too fast every block from height 10 is harder than the last |
| LedgerLimits.FastChainsEnd | src/Blockchain.cpp:536-560 | A valid chain made that fast has at most 74 blocks less its initial difficulty |
| SyncLatch.StepKeepsNotWedged | src/P2PNode.cpp:1118-1215 | Every atomic step keeps: a set flag has a deadline, or a thread about to write one, or a thread about to release it |
| SyncLatch.NoRunWedges | src/P2PNode.cpp:1118-1215 | So for any number of threads and any interleaving |
| SyncLatch.QuietTickClearsExactly | src/P2PNode.cpp:1199-1215 | With no thread between its two writes, an undisturbed stall tick clears a set flag exactly when the deadline has passed |
| SyncLatch.SyncLivesUntilTimeout | src/P2PNode.cpp:1118-1215 | A started sync goes on whatever other threads do before its timeout, short of an answer from its peer; at any later time a stall tick clears it exactly when the timeout has gone by since the start |
| SyncLatch.AnswerEndsExactly | src/P2PNode.cpp:1187-1197 | An answer ends a waiting sync exactly when it is from its peer |
| SyncLatch.FailedSendEnds | src/P2PNode.cpp:1140-1143 | A sync whose request could not be sent is cancelled by its own thread |
| SyncLatch.ContinuingEnds | src/P2PNode.cpp:1118-1215 | Calls that have begun end in any interleaving: each of their steps leaves less work |
| SyncLatch.AlwaysRecoverable | src/P2PNode.cpp:1118-1215 | From every reachable state the flag can be freed within four steps for each thread, one wait and one tick |
| SyncLatch.StepKeepsExclusiveExactly | src/P2PNode.cpp:1118-1185 | A step keeps the protection of the flag, at most one thread starting a sync and the flag set while one is, exactly when it does not release the flag under a starting thread |
| SyncLatch.ReleaseThenClaim | src/P2PNode.cpp:1118-1185 | After a release and one more claim at most one thread is starting a sync exactly when none was under the release |
| SyncLatch.RunsExcludeExactly | src/P2PNode.cpp:1118-1215 | At most one thread is starting a sync in every state of a run, and after any claim from one, exactly when the run never releases the flag under a starting thread |
| SyncLatch.SyncsCanOverlap | src/P2PNode.cpp:1187-1197 | They can overlap: a cancellation checked before another sync started clears that sync, and a third starts beside it |
| SyncLatch.DisconnectOverlaps | src/P2PNode.cpp:1118-1197 | They can overlap without a stale check: the peer of a sync disconnects while its request is being sent |
| Magnitude.Trim | src/include/bigint.h:231-232 | Dropping leading zero limbs keeps the value and gives the canonical list, a prefix of the old one |
| KnuthDivision.DivModLong | src/include/bigint.h:166-230 | For a divisor of two or more limbs: quotient and remainder of the original operands, through normalising, digit steps and denormalising |
| KnuthDivision.EstimateDigit | src/include/bigint.h:185-194 | On any window below base times divisor the trial digit is the true one or one more |
| KnuthDivision.ShiftLeft | src/include/bigint.h:171-181 | The normalising loop shifts every limb and takes the bits of the one below |
| KnuthDivision.ShiftRight | src/include/bigint.h:226-230 | The denormalising loop shifts every limb and takes the bits of the one above |
| BigInts.BigInt.Normalize | src/include/bigint.h:34-37 | Normalising keeps the value and gives canonical form |
| BigInts.BigInt.AppendDigits | src/include/bigint.h:274-289 | The chunk loop reads the positional value of all digits, and fails exactly on a bad one |
| LimbText.MagnitudeBits | src/include/bigint.h:331-337 | The bit loop over all limbs writes the binary digits of the value, no leading zeros |
| LimbText.LimbBits | src/include/bigint.h:333-334 | The bits of one limb continue the binary text of the limbs above it |
| PointCodec.HexText | src/ECCrypto.cpp:428-442 | The digit loop writes the hex digits of the number, and nothing for a negative one |
| PointCodec.PadHex | src/ECCrypto.cpp:444-447 | Padding to 64 digits adds leading zeros only |
| PointCodec.WriteHex | src/ECCrypto.cpp:449-454 | Sixty-four hex digits are written as 32 bytes at the offset and nothing else changes |
| Merkle.HashLeaves | src/utils.cpp:51-55 | Every transaction hash becomes its leaf digest |
| Blocks.Block.SetMinedState | src/Block.cpp:20-23 | Sets the nonce and hash and nothing else |
| Blocks.Block.CalculateHash | src/Block.cpp:49-59 | The hash is over the header and every transaction hash |
| Blockchains.Blockchain.GetBalance | src/Blockchain.cpp:144-149 | The cached balance, zero for an unknown address |
| Blockchains.Blockchain.SetMiningReward | src/include/Blockchain.h:85-88 | A reward step of the ledger: only the reward changes |
| Blockchains.Blockchain.ValidateBlockDifficulty | src/Blockchain.cpp:128-142 | True exactly when the block has the difficulty required at its index |
| Blockchains.Blockchain.AssembleBlock | src/Blockchain.cpp:83-106 | The block mining starts from: the valid pool and the reward at the required difficulty; the chain is untouched |
| Blockchains.Blockchain.BlockExtends | src/Blockchain.cpp:217-241 | Index, previous hash, timestamp and validity against the tip |
| Blockchains.Blockchain.BlockIsNew | src/Blockchain.cpp:249-256 | True exactly when no transfer of the block is in the chain or the pool |
| Blockchains.Blockchain.Parse | src/Blockchain.cpp:403-463 | Rebuilds exactly the blocks as written, and fails exactly when a stored root is not the computed one |
| Blockchains.Blockchain.Adopt | src/Blockchain.cpp:465-489 | The parsed chain is put in place exactly when it validates there; otherwise everything is put back, the reward through a double |

## Left out

- MineBlock: takes the existence of a suitable nonce as a `requires`, because the search does not end without one; the nonce it finds is not above that one, so it is a 32-bit number if one suitable nonce is, and the undefined overflow beyond is not modelled.
- MinePendingTransactions: takes the nonce that its search finds as a ghost parameter, for the same reason.
- SealAndAppend: likewise.
- Blockchains.Blockchain.constructor: likewise for the genesis block.
- LoadFromFile: starts from a file already split into its header and blocks, or found unreadable; the checked stream extractions are not modelled.
- Parse: likewise starts from the fields of the blocks.
- UpdateBalances: balances are mathematical integers; they fit 64 bits up to 4392 transactions (`LedgerSums.BalancesFit`), and what overflow does in longer histories is not modelled.
- FailedLoadRestoresExactly: a reward so close to 2^63 that its rounding leaves the 64-bit range is rounded mathematically; the conversion back is undefined in the original.
- TimesIsNFold: a negative scalar acts through its absolute value, as the loop does that skips the sign character.
- ModPowLoop: a negative exponent likewise.
- CacheAndConservation: the transactions of a loaded chain are whatever validates; nothing in a file is checked for replay or solvency by the original either.
- TipCommits: chains of different lengths are not compared, because validation does not look at a block's index; and two different headers can have one text, since the fields are joined without separators.
- SyncsCanOverlap: what overlaps is the time from winning the flag to having sent the request; the reply and its processing are not part of the latch.
- Reassembly: messages arrive complete and in order; a stream that ends inside a frame is covered only by PartialFrame.
- The receive loop's cap of 32 messages a round, with one more possibly extracted (`src/P2PNode.cpp:591-607`): reassembly is stated for a reader that drains.
- Null transaction pointers, and blocks or transactions changed from outside after being handed over: transactions are values and blocks are not shared with other writers here.
- The rounds of SHA-256: the hash is any function to 32 bytes.
- The text of a transaction and of a block header, and the check of a transaction's signature, key and address: parameters of the ledger.
- The lock around every `Blockchain` method: each call is one step.
- Sockets, threads and their start and stop, logging, callbacks and the command line.
- System entropy and clocks: nonces, salts and times are inputs.
- Primality of secp256k1's p, associativity of its group law and the order of G: hypotheses.
- Compound assignments, comparisons with machine integers, `abs` and `to_int` of `BigInt`: thin uses of what is modelled; `pow`, a squaring loop like the one of `modPow` without the reduction.
- The defaults of a ledger made without arguments, difficulty 2 and a reward of 50 coins: both are parameters.
- Reading and writing the chain file character by character: a file is its header and blocks, or unreadable.
- Keystore, wallet, money formatting, delimiter-based text formats and peer addresses: easier members beside these.
- Cryptographic strength, timing and quality of randomness.
