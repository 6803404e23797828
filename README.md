# endgame: field arithmetic, Merkle tree and Reed-Solomon accumulator in Dafny

This project models the cryptographic core of `endgame`, a prototype for verifiable state accumulation in a ledger, and proves properties of that model. The core has three parts, one Dafny module each:

- **`Field`** (`field.dfy`) covers `src/crypto/field.rs`: residues modulo the Mersenne prime P = 2^31 - 1.
  - `new`, `add`, `sub` and `mul` are functions on values.
  - `pow` is its square-and-multiply loop, modelled as a method. `inverse` and `div`, which call `pow`, are methods as well.
- **`Merkle`** (`merkle.dfy`) covers `src/crypto/merkle.rs`: the array-backed binary tree.
  - Node i has children 2i+1 and 2i+2. For n leaves there are 2n-1 nodes, and the leaf hashes sit at slots n-1 .. 2n-2.
  - `new` fills an array in two loops. `generate_proof` walks up from the leaf. `verify_proof` folds the audit path into the leaf hash.
  - The hash function is a parameter: nothing is assumed about it, not even that it is injective.
- **`ReedSolomon`** (`reed_solomon.dfy`) covers `src/accumulator/reed_solomon.rs`: a class that owns a 256-entry `evaluations` array, the domain 0 .. 255 and a `degree`.
  - `accumulate` and `fold` overwrite the array in place. `interpolate`, `evaluate_at` and `verify` are loops over it.
  - The random field elements the source draws are parameters: the two challenge points of `accumulate` and the coefficient `alpha` of `fold`.

## What the code computes

The model follows the code. In several places the code does something other than what its comments, tests and design intend.

- **`pow`.** `pow` seeds its accumulator with the base instead of one (src/crypto/field.rs:40).
  - `Pow` proves that for e >= 1 the loop returns a^(e+1), after floor(log2 e) rounds.
  - So `inverse(a)` is `pow(P - 2)` = a^(P-1), which is 1 for every non-zero a.
  - So `x / y` is x · y^(P-1) = x for every non-zero y.
- **The field tests that fail.**
  - `PowThreeIsCubeOnlyForZeroOrOne` shows that `pow(3)` = a^4 equals a · a · a only for a = 0 and a = 1. `PowThreeOfTestValue` applies it to the test's a = 123456789 (tests/integration_tests.rs:24-26).
  - `DivAfterMulOfTestValues` shows that `(a * b) / b == a` fails for the test's own values (:19-21).
  - `MulByInverseIsSelf` shows that `a * inverse(a) == 1` holds only for a = 1 (:29-30, :75-76).
- **The accumulator's round trips.** The identity division is exactly what makes them go through.
  - `interpolate` returns the table entries unchanged (`InterpolationIsIdentity`).
  - So `verify` accepts exactly the proofs that agree with the table (`AcceptsIffAgrees`).
  - Both verify-after-accumulate and verify-after-fold hold (`AccumulateThenVerify`, `FoldThenVerify`, `AccumulatorScenario`).
- **Fermat's little theorem for P.** The model does not prove that P is prime. It states the theorem as the ghost predicate `Field.FermatLittleTheorem` and takes it as an explicit `requires` wherever it is needed.
  - "A product of non-zero residues is non-zero" (`NoZeroDivisors`) is proved from that hypothesis.
  - So is the absence of a zero divisor in `interpolate` over distinct points (`DistinctImpliesNonZeroTerms`).
- **Merkle parity.** `verify_proof` picks the side by the parity of the leaf index halved at each step (src/crypto/merkle.rs:96). `generate_proof` picks the sibling by the parity of the node index (:71).
  - The two agree for every leaf when the leaf count is a power of two. `RoundTrip` and `ProveAndVerify` prove the round trip for 2^d leaves, with a proof of length d.
  - For three leaves they disagree at leaf 0: `ThreeLeavesSwapSides` and `ThreeLeavesRoundTripFails` give the concrete failing case.
- **Where the code is a simplification.** The accumulator's own comments say that it is simplified: "Simplified Lagrange interpolation" (src/accumulator/reed_solomon.rs:29), "In practice, use Fiat-Shamir for challenge generation" (:81), "Simplified Merkle proof - in practice implement full Merkle tree" (:90) and "In practice, verify Merkle proof properly" (:104). The model follows the code as it stands:
  - the proof's `merkle_proof` is a copy of the whole table;
  - `evaluate_at` ignores its point and returns the sum of evals[i] · i^(i+1), with pow(0) = 1 for i = 0;
  - `accumulate` silently truncates the state to 256 entries but sets `degree` to the untruncated length.
- **Panics become preconditions.** Each one here is a `requires`:
  - `div` by zero;
  - `verify` slicing the domain beyond 256 entries;
  - `interpolate` dividing by a zero product.

  `verify` needs the last two only once its length check on the proof has passed.

Multiplication in `Field.Mul` is the 128-bit product reduced modulo P. It is written as the integer product by repeated addition (`Product`), so that nonlinear arithmetic appears only where a proof asks for it; `MulValue` states the value. Every `FieldElement` holds a `Residue` in [0, P), and `New` takes a `uint64`. `Add` and `Sub` bind their intermediate sum and difference as `uint64`, so the verifier checks that neither leaves the 64-bit range. The range of `New`'s argument shows that the cast after the u128 product in `mul` loses nothing.

## Model

| member | source | states |
|---|---|---|
| Field.New | src/crypto/field.rs:14-18 | `new(v)` stores the residue of v: a value below P, congruent to v, and v itself when v < P; `From<u64>` (lines 68-72) is the same function |
| Field.Add | src/crypto/field.rs:78-85 | the sum with one conditional subtraction of P is (a + b) mod P, and fits in 64 bits |
| Field.Sub | src/crypto/field.rs:91-98 | the difference, adding P when b > a, is (a - b) mod P |
| Field.Mul | src/crypto/field.rs:104-106 | `mul`: the product of the two residues reduced modulo P before narrowing to 64 bits; its value is stated by `MulValue` |
| Field.MulValue | src/crypto/field.rs:104-106 | the product is (a · b) mod P |
| Field.Pow | src/crypto/field.rs:36-55 | `pow(0)` is one; for e >= 1 the loop returns a^(e+1), the base times a^e, and runs floor(log2 e) rounds |
| Field.PowerHalving | src/crypto/field.rs:44-50 | one round of square-and-multiply: b^n is b · (b²)^(n/2) for odd n and (b²)^(n/2) for even n |
| Field.Inverse | src/crypto/field.rs:57-64 | None exactly for zero; otherwise a^(P-1), which is what `pow(P - 2)` returns |
| Field.Div | src/crypto/field.rs:112-118 | for a non-zero divisor b, a · b^(P-1), that is a times what `inverse` returned |
| Field.NoZeroDivisors | src/crypto/field.rs:104-106 | under Fermat's little theorem, a product of non-zero residues is non-zero |
| Field.DivIsIdentity | src/crypto/field.rs:112-118 | under Fermat's little theorem, `a / b` is a for every non-zero b |
| Field.MulByInverseIsSelf | tests/integration_tests.rs:73-77 | `a * inverse(a)` is a, so it equals one exactly when a is one |
| Field.DivAfterMulOfTestValues | tests/integration_tests.rs:18-21 | with a = 123456789, b = 987654321, `(a * b) / b` is a · b, which differs from a |
| Field.PowThreeIsCubeOnlyForZeroOrOne | tests/integration_tests.rs:23-26 | under Fermat's little theorem, `pow(3)` = a^4 equals a · a · a if and only if a is zero or one |
| Field.PowThreeOfTestValue | tests/integration_tests.rs:23-26 | for the test's a = 123456789, `pow(3)` differs from a · a · a |
| Field.AddComm | src/crypto/field.rs:78-85 | addition is commutative |
| Field.AddAssoc | tests/integration_tests.rs:63 | addition is associative |
| Field.AddZero | tests/integration_tests.rs:70 | zero is the identity of addition on both sides |
| Field.SubAdd | src/crypto/field.rs:91-98 | (a - b) + b is a |
| Field.SubZeroIffEqual | src/crypto/field.rs:91-98 | a - b is zero if and only if a equals b |
| Field.MulComm | src/crypto/field.rs:104-106 | multiplication is commutative |
| Field.MulAssoc | tests/integration_tests.rs:64 | multiplication is associative |
| Field.MulOne | tests/integration_tests.rs:71 | one is the identity of multiplication on both sides |
| Field.MulZero | src/crypto/field.rs:104-106 | a product with zero is zero, on both sides |
| Field.MulDistributesOverAdd | tests/integration_tests.rs:67 | a · (b + c) is a · b + a · c |
| Field.PowerAdd | src/crypto/field.rs:36-55 | a^(m+n) is a^m · a^n |
| Field.PowerSquare | src/crypto/field.rs:48 | squaring the base doubles the exponent: (a²)^k is a^(2k) |
| Field.PowerOfProduct | src/crypto/field.rs:61-63 | (ab)^n is a^n · b^n |
| Field.PowerOfZero | src/crypto/field.rs:57-64 | 0^n is zero for n >= 1 |
| Merkle.ZeroDigest | src/crypto/merkle.rs:28-33 | the sentinel node of an empty tree is 32 zero bytes |
| Merkle.Sibling | src/crypto/merkle.rs:71-75 | the sibling is the node just before (even index) or just after (odd index) |
| Merkle.MerkleTree.constructor | src/crypto/merkle.rs:27-55 | no leaves give one zero node and leaf count 0; otherwise 2n-1 nodes with node n-1+i = H(leaf i) and every internal node the hash of its children |
| Merkle.MerkleTree.FillNodes | src/crypto/merkle.rs:35-52 | the two loops leave exactly the node vector defined top-down by `NodeHash` |
| Merkle.MerkleTree.FillLeaves | src/crypto/merkle.rs:40-44 | slots n-1 .. 2n-2 receive the leaf hashes |
| Merkle.MerkleTree.FillParents | src/crypto/merkle.rs:47-52 | filling from n-2 down to 0, each internal node becomes H(left ‖ right), reading only children that are already final |
| Merkle.BuiltNodesAreConsistent | src/crypto/merkle.rs:35-52 | the built nodes hash each leaf into its slot and make every internal node the hash of its children |
| Merkle.MerkleTree.Root | src/crypto/merkle.rs:57-59 | the root is node 0, the zero sentinel for an empty tree |
| Merkle.MerkleTree.GenerateProof | src/crypto/merkle.rs:61-86 | empty for an index that is not a leaf; otherwise the sibling hashes from the leaf up, one per level (Depth entries) |
| Merkle.ProofStep | src/crypto/merkle.rs:69-83 | one iteration of the loop keeps the collected prefix plus the remaining path equal to the whole path |
| Merkle.ProofLengthIsDepth | src/crypto/merkle.rs:77-79 | in a node vector of odd length the sibling guard never drops an element, so the path from node c has Depth(c) entries |
| Merkle.ProofFromCons | src/crypto/merkle.rs:69-83 | the path from a non-root node starts with its sibling's hash, followed by the path from its parent |
| Merkle.MerkleTree.VerifyProof | src/crypto/merkle.rs:88-108 | accepts exactly when folding the proof into H(leaf), choosing sides by index parity, gives the root; an empty proof accepts exactly when H(leaf) is the root |
| Merkle.RecomputeCons | src/crypto/merkle.rs:94-105 | one step of the fold: H(current ‖ x) for an even index, H(x ‖ current) for an odd one, then the index is halved |
| Merkle.RecomputeStep | src/crypto/merkle.rs:94-105 | when node and index parities agree, folding a node's first sibling lands on its parent |
| Merkle.AlignedPathReachesRoot | src/crypto/merkle.rs:88-108 | in a hash-consistent tree, the audit path of any node aligned with the index folds to the root |
| Merkle.LeafAligned | src/crypto/merkle.rs:67-75 | with 2^d leaves, every leaf's node index and leaf index agree in parity at every level |
| Merkle.LeafDepth | src/crypto/merkle.rs:196-223 | with 2^d leaves, every leaf is d levels below the root |
| Merkle.AlignedLeafRoundTrip | src/crypto/merkle.rs:88-108 | a leaf aligned with its index verifies against the root of any hash-consistent tree |
| Merkle.RoundTrip | src/crypto/merkle.rs:250-267 | with 2^d leaves, the audit path of every leaf verifies against the root |
| Merkle.RootOfOneLeaf | src/crypto/merkle.rs:153-164 | a one-leaf tree is [H(leaf)] and its audit path is empty |
| Merkle.RootOfTwoLeaves | src/crypto/merkle.rs:166-194 | a two-leaf root is H(H(l1) ‖ H(l2)); each leaf's path is the other leaf's hash |
| Merkle.ThreeLeavesSwapSides | src/crypto/merkle.rs:96-102 | with three leaves, leaf 0 verifies only if H(H(l0) ‖ n1) equals H(n1 ‖ H(l0)) |
| Merkle.ThreeLeavesRoundTripFails | src/crypto/merkle.rs:96-102 | a concrete three-leaf tree whose leaf 0 does not verify |
| Merkle.ProveAndVerify | src/crypto/merkle.rs:196-223 | building a tree over 2^d leaves, proving leaf i and verifying accepts, with a proof of d hashes |
| Merkle.ProveAndVerifyIn | src/crypto/merkle.rs:250-267 | the same round trip on any hash-consistent tree over 2^d leaves |
| ReedSolomon.DomainPoints | src/accumulator/reed_solomon.rs:59-61 | the domain has 256 points and point i has value i |
| ReedSolomon.ZeroTable | src/accumulator/reed_solomon.rs:64 | the initial table is 256 zeros |
| ReedSolomon.Weights | src/accumulator/reed_solomon.rs:47 | entry i is weighted by domain[i].pow(i) |
| ReedSolomon.Combine | src/accumulator/reed_solomon.rs:118-120 | entry k of the folded table is a[k] + alpha · b[k] |
| ReedSolomon.ReedSolomonAccumulator.constructor | src/accumulator/reed_solomon.rs:57-68 | a fresh array of 256 zeros, the domain 0 .. 255, degree 0 |
| ReedSolomon.ReedSolomonAccumulator.Interpolate | src/accumulator/reed_solomon.rs:28-42 | one result per point; entry i is evaluations[i] divided, as `div` computes, by the product of points[i] - points[j] over j ≠ i |
| ReedSolomon.ReedSolomonAccumulator.EntryAt | src/accumulator/reed_solomon.rs:33-39 | one entry of the result: the table entry divided by the point's product |
| ReedSolomon.ReedSolomonAccumulator.TermAt | src/accumulator/reed_solomon.rs:33-38 | the inner loop computes the product of differences to every other point, in order |
| ReedSolomon.ReedSolomonAccumulator.EvaluateAt | src/accumulator/reed_solomon.rs:44-50 | the sum over the whole table of evals[i] · domain[i].pow(i), whatever the point |
| ReedSolomon.ReedSolomonAccumulator.Accumulate | src/accumulator/reed_solomon.rs:70-95 | entry k becomes state[k] for k < min(\|state\|, 256), the rest are unchanged; degree is \|state\| uncapped; the proof holds the new table and the evaluation twice |
| ReedSolomon.ReedSolomonAccumulator.Verify | src/accumulator/reed_solomon.rs:97-112 | false for a proof longer than 256; otherwise true exactly when the reconstructed entries match the proof wherever both exist |
| ReedSolomon.ReedSolomonAccumulator.Fold | src/accumulator/reed_solomon.rs:114-124 | the table becomes old + alpha · other entry by entry; `other` is unchanged; degree becomes 256; the proof is accumulate's on the folded table |
| ReedSolomon.ReedSolomonAccumulator.AddScaled | src/accumulator/reed_solomon.rs:118-120 | the loop of `fold` leaves the table old + alpha · other |
| ReedSolomon.PartialTermWithRepeat | src/accumulator/reed_solomon.rs:34-37 | a repeated point makes the product of differences zero |
| ReedSolomon.PartialTermNonZero | src/accumulator/reed_solomon.rs:34-37 | under Fermat's little theorem, over distinct points every product of differences is non-zero |
| ReedSolomon.NonZeroTermsImplyDistinct | src/accumulator/reed_solomon.rs:28-42 | if no division hits zero, the points are distinct |
| ReedSolomon.DistinctImpliesNonZeroTerms | src/accumulator/reed_solomon.rs:28-42 | under Fermat's little theorem, distinct points mean no division hits zero |
| ReedSolomon.DomainPrefixHasNonZeroTerms | src/accumulator/reed_solomon.rs:105 | under Fermat's little theorem, `interpolate` over any prefix of the domain never divides by zero |
| ReedSolomon.InterpolationIsIdentity | src/accumulator/reed_solomon.rs:39 | under Fermat's little theorem, each reconstructed entry is the table entry itself |
| ReedSolomon.AcceptsIffAgrees | src/accumulator/reed_solomon.rs:97-112 | over a domain prefix, `verify` accepts exactly the proofs within 256 entries that agree with the table below both the degree and their length |
| ReedSolomon.EvaluationLinear | src/accumulator/reed_solomon.rs:114-124 | the evaluation of a folded table is the evaluation of the first plus alpha times that of the second |
| ReedSolomon.EvaluationLinearStep | src/accumulator/reed_solomon.rs:118-120 | linearity over the first n - 1 entries extends to the first n |
| ReedSolomon.LinearStep | src/accumulator/reed_solomon.rs:47 | one weighted term distributes over the combination a + alpha · b |
| ReedSolomon.EvaluationOfZeros | src/accumulator/reed_solomon.rs:44-50 | a table of zeros, such as a fresh accumulator's, evaluates to zero |
| ReedSolomon.EvaluationOfZerosStep | src/accumulator/reed_solomon.rs:47 | a zero entry adds nothing to the sum |
| ReedSolomon.AccumulateThenVerify | tests/integration_tests.rs:40-49 | accumulating a state of at most 256 entries yields a proof the accumulator accepts |
| ReedSolomon.FoldThenVerify | tests/integration_tests.rs:51-53 | folding yields a proof the folded accumulator accepts, whose challenge value is the first evaluation plus alpha times the second |
| ReedSolomon.AccumulatorScenario | tests/integration_tests.rs:33-54 | accumulate-verify on two fresh accumulators, then fold-verify: all three checks pass |

## Left out

- `src/concensus/density.rs` is not part of this model. It holds fork choice and block validation, which read the wall clock and use floating-point division.
- SHA-256 is not modelled. It is the function parameter `hash`, and nothing is assumed about it. The tamper-detection test (src/crypto/merkle.rs:226-247) rests on collision resistance and is not modelled.
- The primality of P is not proved. Fermat's little theorem for P is the hypothesis `FermatLittleTheorem`, required by the members that need it.
- `FieldElement::random` (src/crypto/field.rs:32-34) is not modelled. The values it would draw are caller-supplied parameters: the challenge points `c0`, `c1` and the coefficient `alpha`.
- `zero`, `one` and `value` (src/crypto/field.rs:20-30) are the constants `Zero` and `One` and the field `value`.
- Debug formatting and `print_tree` (src/crypto/merkle.rs:12-24, 110-135) are console output and are not modelled.
- The `Accumulator` trait (src/accumulator/mod.rs:7-15) is not a separate declaration. Its four operations are methods of `ReedSolomonAccumulator` directly. `src/lib.rs` and `src/consensus/mod.rs` only re-export.
- The unused constant `EXTENSION_FACTOR` (src/accumulator/reed_solomon.rs:7) is not modelled.
- The tests at tests/integration_tests.rs:21, :26, :30 and :76 do not hold for the code. The model proves their negations (`DivAfterMulOfTestValues`, `PowThreeOfTestValue`, `MulByInverseIsSelf`) instead of the assertions.
- Merkle.RoundTrip: proved only for a power-of-two leaf count. For other counts the round trip does not hold in general, as `ThreeLeavesRoundTripFails` shows.
- ReedSolomon.ReedSolomonAccumulator.Verify: requires a degree of at most 256 and non-zero products once the proof passes the length check, because the source panics otherwise.
- ReedSolomon.ReedSolomonAccumulator.Interpolate: requires at most 256 points and non-zero products, because the source panics otherwise.
- Field.Div: requires a non-zero divisor, because the source panics on zero.
- Word sizes: `usize` is modelled as an unbounded `nat`. Indices and `pow`'s exponent cannot approach its limit for the sizes involved. `u64` is modelled by the `uint64` subset type where a value enters `new`.
- The `Clone` of the proof and of the table, and `verify`'s iterator `zip`, are modelled by value sequences and an index loop.
