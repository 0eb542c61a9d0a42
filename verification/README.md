# Verified model of the e-voting core

A Dafny model of four parts of an end-to-end verifiable voting system, with proofs of what the
system relies on them for.

* **Joint-Feldman key generation and threshold ElGamal decryption** (`Groups`, `Polynomials`,
  `Lagrange`, `Threshold`, `Dealer`, `Recipient`, `KeyGeneration`, `Elgamal`, `Dlogeq`,
  `Decryption`, `ThresholdDecryption`, `Protocol`, `HonestRun`, `ReEncryption`, `CombineLengths`,
  `CombineErrors`, `CombineOrder`, `ShortVectors`, `UntypedCombine`, `WeightedKeys`,
  `CombineSoundness`, `MislabelledFactors`, `ChallengeBytes`, `DlogeqEquations`). Dealers hand out
  values of secret polynomials and publish their coefficients in the exponent; recipients check the
  shares and accumulate keys; enough recipients decrypt together. The headline result is
  `Protocol.DistributedDecryption`: the whole distributed run, with its accumulator loops, refines one
  central ElGamal decryption, for all polynomials, thresholds, positions and ciphertexts.
* **The ballot check** (`Pleq`, `PleqChallengeBytes`, `PleqEquations`, `Naoryung`,
  `CheckedCiphertexts`, `ElementCodec`, `BallotCheck`, `BallotSuccess`). A voter's randomizers are
  encoded, encrypted, decrypted and used to open the ballot without the secret key.
* **The bulletin wire format and its type registry** (`Serialization`, `ArraySerialization`,
  `Strings`, `Bulletins`).
* **The pruner of Tamarin proof scripts** (`Pruner`, `PrunerPasses`, `PrunerPaths`, `PrunerLines`,
  `PrunerFirstSuccess`, `PrunerExact`, `PrunerAgain`, `PrunerRun`). `PrunerRun.Prune` states the whole
  output by the lines of the script alone.

`Modular`, `Bytes`, `Hashing`, `Results` and `Permutations` hold what several of them share.
`dafny verify dfyconfig.toml` checks everything.

## How things are modelled

* A scalar is any integer that represents it modulo the group order `q`; `Same(q, a, b)` says that
  two integers are the same scalar. `q` is a prime above 2^32, so different 32-bit positions are
  different scalars.
* A group is a record of operations (`Groups.Context`) with the laws of a cyclic group of order `q`;
  proofs go through the discrete logarithm, which the laws make a bijection. The laws follow
  `traits/groups.rs`, except that its comment writes `x.exp(zero()) = x` where the code's zeroth power
  is the unit. `Consistency` gives an instance, so the laws do not contradict each other.
* Arrays whose length is a constant in the Rust types are sequences of arbitrary length, and the
  lengths that the types fix are written as preconditions (`Typed`, `WellFormed`, `AllWide`).
* Random scalars and nonces are arguments. A hash is the bytes fed to it followed by an arbitrary map
  to scalars that may fail; `HashTotal` says that it does not.
* Loops that update variables are methods with loops, proved equal to a function about which the
  results are then proved; `BulletinTypeRegistry` and `Hasher` are classes that are updated in place.

## Where the code and its comments differ, or a law has a condition

* `vk_factor` computes powers of the position in `u32`, which wraps around (and panics in builds with
  overflow checks). The share check is right exactly when the wrapped powers agree with the field's
  (`Recipient.HonestDealersAccepted`), which is to say when `position^(t-1)` is below 2^32, in every
  group of order at least 2^32 times the position (`HonestDealersAcceptedWithin32Bits`). Ten
  participants or a threshold of five are always safe, and eleven participants with threshold eleven
  are not (`SmallElectionsFit`, `ElevenOfElevenFails`).
* `combine` does not check that its participants are different; it is correct exactly when the
  positions are distinct (`Protocol.CombineCorrectExactly`). A position is a public 32-bit field, so it
  may also be zero, where the share is the secret itself: then only the number of zeros counts.
* `combine` takes each position from the first factor only and pairs lists up to the shortest. A
  vector that is too short leaves ciphertexts without a plaintext (`CombineLengths.CombinedLeft`), and
  hides the proofs that later trustees have behind its end. The order of the trustees decides
  whether combining succeeds exactly when all proofs up to the end of the shortest vector verify and
  some proof behind it, that has a ciphertext, does not (`ShortVectors.OrderMattersExactly`).
* `combine` does not check that the verification key at an index belongs to the position its factors
  name. Unless a proof of a false statement is accepted, the plaintexts are those of the secret behind
  the product of the verification keys, each raised to the Lagrange coefficient of the position its
  factors name (`CombineSoundness.CombineSound`). They are the joint secret's exactly when that
  product is the joint public key (`KeysDecryptExactly`), which anyone can check. Keys of the named
  positions are sufficient (`WeightedKeys.MatchingKeysWeigh`) and not necessary
  (`MislabelledFactors.ScaledSourcesDecrypt`); two honest participants who exchange their positions
  give a wrong plaintext (`MislabelledNotDecrypted`).
* `[T; N]::deser` reads every length from the start of the buffer, so an array is read back exactly
  when its elements have one length (`ArraySerialization.ArrayRoundTripExactly`); others are refused or
  misread (`DifferentLengths`). Arrays of group elements are of that kind
  (`ChallengeBytes.ElementsRoundTrip`).
* The bulletin registry's comments speak of three built-in types; two are registered. A type may be
  registered under a name that is not its own `type_name()`, hence the condition in
  `Bulletins.BulletinRoundTrip`. Equality of bulletins compares contents by their bytes alone, so
  equal bulletins can be written differently (`Bulletins.EqualButWrittenDifferently`).
* `String::deser` ignores what is behind the string, so bytes behind the previous hash and behind the
  signature of a bulletin are ignored, and so are bytes behind a string within its contents, which
  both built-in types have (`Bulletins.PaddedContents`). `AcceptedBytes` says which bytes are accepted,
  by any registry, and `RewrittenExactly` which of them are written back.
* `decode_ballot` says that a serialized ballot has 25 bytes; it has 26.
* The pruner's comment says that `qed` closes solve or simplify blocks, but only solve lines open a
  frame. It says that simplify is never printed right after `qed`; the flag is never taken back, so
  simplify is never printed after any printed `qed` (`PrunerPaths.SimplifyExactly`).

## Model

| member | source | states |
|---|---|---|
| `Groups.ExpAdd` | implementations/rust/workspace/cryptography/src/traits/groups.rs:148-159 | raising to s + t multiplies the powers, from the one-step law of exponentiation alone |
| `Groups.LogExp` | implementations/rust/workspace/cryptography/src/traits/groups.rs:148-159 | raising an element to a scalar multiplies its discrete logarithm, for any representative of the scalar |
| `Groups.LogMul` | implementations/rust/workspace/cryptography/src/traits/groups.rs:132-138 | the group operation adds discrete logarithms modulo the group order |
| `Groups.LogInv` | implementations/rust/workspace/cryptography/src/traits/groups.rs:140-146 | the inverse negates the discrete logarithm |
| `Consistency.AdditiveValid` | implementations/rust/workspace/cryptography/src/traits/groups.rs:120-166 | the laws asked of a group can be met: the integers modulo a prime above 2^32 satisfy all of them |
| `Consistency.LargerPrime` | implementations/rust/workspace/cryptography/src/traits/groups.rs:120-166 | such a prime exists, above any bound |
| `Modular.Inverse` | implementations/rust/workspace/cryptography/src/traits/groups.rs:317-323 | a scalar has an inverse exactly when it is not zero, and the inverse undoes multiplication |
| `Lagrange.DenominatorNotZero` | implementations/rust/workspace/cryptography/src/dkgd/recipient.rs:695-711 | for any list of positions, repeated or not, the denominator is not zero modulo the group order, so the `expect` never fires |
| `Lagrange.Lagrange` | implementations/rust/workspace/cryptography/src/dkgd/recipient.rs:687-712 | the loop over running products returns the Lagrange coefficient, for any list of positions |
| `Lagrange.Coefficient` | implementations/rust/workspace/cryptography/src/dkgd/recipient.rs:679-712 | the coefficient times the product of the differences is the product of the other positions |
| `Lagrange.InterpolationAtZero` | implementations/rust/workspace/cryptography/src/dkgd/recipient.rs:679-712 | every polynomial with at most n coefficients is recovered at zero from its values at any n distinct positions, weighted by the coefficients |
| `Threshold.RecoveryExact` | implementations/rust/workspace/cryptography/src/dkgd/recipient.rs:622-632 | for any list of positions, the weighted shares recover every secret if and only if no position is repeated or, when position zero is among them, it is there once (up to the group order) |
| `Threshold.CoefficientAtZero` | implementations/rust/workspace/cryptography/src/dkgd/recipient.rs:687-712 | when position zero is present its coefficient is one and all others are zero |
| `Threshold.RepeatedNotRecovered` | implementations/rust/workspace/cryptography/src/dkgd/recipient.rs:625-632 | with a repeated position and none that is zero, a polynomial whose secret is not recovered |
| `Threshold.FewSharesFixNothing` | implementations/rust/workspace/cryptography/src/dkgd/dealer.rs:144-199 | for any polynomial, fewer positions than coefficients, none of them zero, and any target secret, another polynomial of the same size has the same shares and that secret |
| `Threshold.ThresholdTight` | implementations/rust/workspace/cryptography/src/dkgd/dealer.rs:144-199 | shares at distinct positions decide the secret if and only if there are at least as many as coefficients or one of them is the secret itself |
| `Polynomials.ValueDivide` | implementations/rust/workspace/cryptography/src/dkgd/dealer.rs:164-199 | dividing a polynomial by x - a leaves its value at a as remainder, at every point |
| `Dealer.Eval` | implementations/rust/workspace/cryptography/src/dkgd/dealer.rs:189-199 | the loop with a running power computes the value of the polynomial |
| `Dealer.CommittedHonest` | implementations/rust/workspace/cryptography/src/dkgd/dealer.rs:159-162 | a dealer's checking values commit to its own polynomial |
| `Recipient.VerifyShares` | implementations/rust/workspace/cryptography/src/dkgd/recipient.rs:228-246 | the loop succeeds exactly when every share verifies, and then returns the products of the first checking values and of the verification key factors and the sum of the shares |
| `Recipient.VerificationKey` | implementations/rust/workspace/cryptography/src/dkgd/recipient.rs:256-268 | the loop returns the product of all dealers' factors for the position |
| `Recipient.JointPublicKey` | implementations/rust/workspace/cryptography/src/dkgd/recipient.rs:278-287 | the loop returns the product of all first checking values |
| `Recipient.ShareCheckExact` | implementations/rust/workspace/cryptography/src/dkgd/recipient.rs:387-434 | if the 32-bit powers are right, the only scalar accepted at a position is the value there of the polynomial that the checking values commit to, whoever made them |
| `Recipient.ShareCheckLog` | implementations/rust/workspace/cryptography/src/dkgd/recipient.rs:387-434 | whether or not the powers are right, the only scalar accepted is the sum of the committed coefficients times the 32-bit powers |
| `Recipient.WrappingPowExactly` | implementations/rust/workspace/cryptography/src/dkgd/recipient.rs:391-395 | the 32-bit power is the power modulo 2^32, as it is when each multiplication wraps around |
| `Recipient.HonestDealersAccepted` | implementations/rust/workspace/cryptography/src/dkgd/recipient.rs:391-402 | every honest dealer's share is accepted if and only if each 32-bit power of the position is the field's power |
| `Recipient.PowersAgreeWhenTheyFit` | implementations/rust/workspace/cryptography/src/dkgd/recipient.rs:391-395 | powers below 2^32 are right, and only those, whenever the group order is at least 2^32 times the position or above the largest power |
| `Recipient.HonestDealersAcceptedWithin32Bits` | implementations/rust/workspace/cryptography/src/dkgd/recipient.rs:387-434 | in a group of order at least 2^32 times the position, every honest dealer is accepted if and only if position^(t-1) is below 2^32; this decides every count and threshold |
| `Recipient.SmallElectionsFit` | implementations/rust/workspace/cryptography/src/dkgd/recipient.rs:391-395 | at most ten participants, or a threshold of at most five with fewer than a hundred participants, never leave 32 bits |
| `Recipient.ElevenOfElevenFails` | implementations/rust/workspace/cryptography/src/dkgd/recipient.rs:391-395 | eleven participants with threshold eleven leave 32 bits: in every group of order above 11^10 some honest dealer is rejected at position eleven |
| `KeyGeneration.JointKey` | implementations/rust/workspace/cryptography/src/dkgd/recipient.rs:278-287 | the product of the first checking values is the generator to the joint polynomial's value at zero |
| `KeyGeneration.JointVerificationKey` | implementations/rust/workspace/cryptography/src/dkgd/recipient.rs:256-268 | the product of the verification key factors is the generator to the joint polynomial's value at the position |
| `KeyGeneration.PartiesAgree` | implementations/rust/workspace/cryptography/src/dkgd/recipient.rs:228-287 | whatever shares passed the check, the recipient's secret key, verification key and joint public key are those of the polynomial that all checking values together commit to, and the two public ones are the products that the public computations return |
| `KeyGeneration.HonestKeyGeneration` | implementations/rust/workspace/cryptography/src/dkgd/recipient.rs:197-246 | with honest dealers nothing is rejected, and the keys are those of the sum of their polynomials |
| `KeyGeneration.DealerOrderIrrelevant` | implementations/rust/workspace/cryptography/src/dkgd/recipient.rs:228-246 | permuting the dealers' shares keeps success and all three keys |
| `Permutations.FoldPermuted` | implementations/rust/workspace/cryptography/src/dkgd/recipient.rs:235-245 | folding an exchangeable operation over a permuted list gives the same result |
| `Permutations.CoefficientPermuted` | implementations/rust/workspace/cryptography/src/dkgd/recipient.rs:687-712 | a Lagrange coefficient does not depend on the order of those present |
| `Elgamal.DecryptEncrypt` | implementations/rust/workspace/cryptography/src/cryptosystem/elgamal.rs:258-334 | decrypting with the secret key undoes encryption, for every message, width and randomness |
| `Elgamal.DecryptWithRExact` | implementations/rust/workspace/cryptography/src/cryptosystem/elgamal.rs:299-315 | randomness is accepted exactly when it is the ciphertext's exponents, and then the result is the secret key's decryption, honest ciphertext or not |
| `Elgamal.ReEncryptionChain` | implementations/rust/workspace/cryptography/src/cryptosystem/elgamal.rs:394-402 | any chain of re-encryptions of an encryption is one encryption with the summed randomness |
| `Elgamal.ReEncryptionKeepsPlaintext` | implementations/rust/workspace/cryptography/src/cryptosystem/elgamal.rs:394-402 | no chain of re-encryptions changes what any ciphertext decrypts to |
| `Dlogeq.Completeness` | implementations/rust/workspace/cryptography/src/zkp/dlogeq.rs:95-160 | every proof of a true statement verifies, and proving fails only when the challenge for its commitments cannot be hashed |
| `Dlogeq.SpecialSoundness` | implementations/rust/workspace/cryptography/src/zkp/dlogeq.rs:134-160 | two accepted responses to different challenges, for the same commitments, give one exponent that relates both statements at every component |
| `Dlogeq.FalseStatementOneChallenge` | implementations/rust/workspace/cryptography/src/zkp/dlogeq.rs:134-160 | for a false statement at most one challenge can be answered once the commitments are fixed |
| `Dlogeq.ResponseUnique` | implementations/rust/workspace/cryptography/src/zkp/dlogeq.rs:134-160 | for one challenge and base other than the unit, only one response is accepted |
| `DlogeqEquations.VerifyExactly` | implementations/rust/workspace/cryptography/src/zkp/dlogeq.rs:134-160 | for any proof and statement, verification fails only when the hash has no scalar, and otherwise answers true if and only if the response answers that very scalar at every base, in terms of logarithms |
| `DlogeqEquations.ProveExactly` | implementations/rust/workspace/cryptography/src/zkp/dlogeq.rs:95-119 | the prover commits to its random scalar at every base and answers the scalar that everything hashes to; it fails only when there is none |
| `ChallengeBytes.ChallengeDeterminesInput` | implementations/rust/workspace/cryptography/src/zkp/dlogeq.rs:164-209 | with injective fixed-width elements, two inputs of any widths and context lengths that feed the hash the same bytes are equal |
| `ChallengeBytes.SameArray` | implementations/rust/workspace/cryptography/src/utils/serialization/variable.rs:188-202 | arrays of any two widths that start the same stream before a tag are equal, because a length prefix starts with a zero byte and no tag does |
| `ChallengeBytes.ElementsRoundTrip` | implementations/rust/workspace/cryptography/src/utils/serialization/variable.rs:188-250 | arrays of fixed-width group elements are read back |
| `Hashing.UpdateHasher` | implementations/rust/workspace/cryptography/src/utils/hash.rs:50-57 | the hasher receives every slice in order, each followed by the tag at its index while there is one |
| `Decryption.Combine` | implementations/rust/workspace/cryptography/src/dkgd/recipient.rs:615-673 | the loop over trustees, with lists paired up to the shortest, returns the combination or the first error of a proof |
| `Decryption.DivisorsError` | implementations/rust/workspace/cryptography/src/dkgd/recipient.rs:630-660 | an error at one trustee is the result of the whole combination |
| `ThresholdDecryption.CombinedRows` | implementations/rust/workspace/cryptography/src/dkgd/recipient.rs:615-673 | with one factor for each trustee and ciphertext, combining succeeds exactly when all proofs verify, and divides every ciphertext by the product of its factors raised to their coefficients |
| `ThresholdDecryption.CombineWeighted` | implementations/rust/workspace/cryptography/src/dkgd/recipient.rs:615-673 | combining shares of any polynomial decrypts under the weighted sum of the shares, whoever is present |
| `ThresholdDecryption.HonestFactors` | implementations/rust/workspace/cryptography/src/dkgd/recipient.rs:352-376 | a recipient's factors are its share of each decryption, with proofs that verify |
| `ThresholdDecryption.ThresholdRefinesCentral` | implementations/rust/workspace/cryptography/src/dkgd/recipient.rs:615-673 | any recipients at distinct positions, at least as many as the threshold and in any order, decrypt every list of ciphertexts, honest or not, to what the joint secret decrypts it to |
| `Protocol.RunRecipient` | implementations/rust/workspace/cryptography/src/dkgd/recipient.rs:197-376 | one recipient verifies what it is dealt and decrypts partially; its key is its share of the joint polynomial, the joint public key it returns is the one anyone computes, and each error has its cause |
| `Protocol.DistributedDecryption` | implementations/rust/workspace/cryptography/src/dkgd/recipient.rs:197-673 | the whole run, from dealt shares to combined plaintexts: whatever the dealers did, all recipients get the same joint key, the result is decryption with the secret behind it, and the messages if they were encrypted with that key; it fails only if a share is rejected or a challenge cannot be hashed |
| `HonestRun.Run` | implementations/rust/workspace/cryptography/src/dkgd/tests.rs:69-116 | with honest dealers and hashes that succeed, the run always succeeds: all joint keys are the generator to the sum of the dealers' secrets, and the result is decryption with that sum, so the messages that were encrypted with the key |
| `Protocol.MessagesDecrypted` | implementations/rust/workspace/cryptography/src/dkgd/recipient.rs:278-287 | messages encrypted with the product of all first checking values are what decryption with the joint secret returns |
| `Protocol.PublishedKey` | implementations/rust/workspace/cryptography/src/dkgd/recipient.rs:278-287 | that product is the generator to the joint secret, whoever made the checking values |
| `ReEncryption.CentralDecryptionsKept` | implementations/rust/workspace/cryptography/src/cryptosystem/elgamal.rs:394-402 | chains of re-encryptions of a list of ciphertexts, honest or not, do not change what the list decrypts to |
| `ReEncryption.ThresholdDecryptionKept` | implementations/rust/workspace/cryptography/src/cryptosystem/elgamal.rs:394-402 | nor what any sufficient recipients combine, before or after, with any random scalars |
| `WeightedKeys.RowOfKeys` | implementations/rust/workspace/cryptography/src/dkgd/recipient.rs:615-673 | when each factor is the ciphertext to the logarithm of its key, for any keys and any sources, repeated or not, the quotient is what the logarithm of the keys' weighted product decrypts |
| `WeightedKeys.MatchingKeysWeigh` | implementations/rust/workspace/cryptography/src/dkgd/recipient.rs:615-673 | at least threshold many keys that belong to their different sources weigh the joint public key |
| `WeightedKeys.CoefficientScaled` | implementations/rust/workspace/cryptography/src/dkgd/recipient.rs:687-712 | multiplying all positions with one factor changes no coefficient |
| `CombineSoundness.CombineSound` | implementations/rust/workspace/cryptography/src/dkgd/recipient.rs:615-673 | for factors from anyone and of any lengths, under any keys and named sources, success means the decryptions of the secret behind the weighted product of the keys, or an accepted proof of a false statement |
| `CombineSoundness.CombineSoundUnderKey` | implementations/rust/workspace/cryptography/src/dkgd/recipient.rs:615-673 | when that product is the public key of a secret, success means that secret's decryptions, or an accepted proof of a false statement |
| `CombineSoundness.KeysDecryptExactly` | implementations/rust/workspace/cryptography/src/dkgd/recipient.rs:615-673 | under given sources and keys every accepted combination without a false proof decrypts with a secret if and only if the weighted product of the keys is the secret's public key |
| `CombineSoundness.FalseProofIsLuck` | implementations/rust/workspace/cryptography/src/zkp/dlogeq.rs:134-160 | such a proof has met the only challenge its commitments allow, which is what the statement, the commitments and the context hash to |
| `MislabelledFactors.MislabelledNotDecrypted` | implementations/rust/workspace/cryptography/src/dkgd/recipient.rs:622-660 | two honest factors under each other's position are accepted and combined to a wrong plaintext, as the weighted product of their keys is the generator to three and not to zero |
| `MislabelledFactors.ScaledSourcesDecrypt` | implementations/rust/workspace/cryptography/src/dkgd/recipient.rs:615-673 | keys under sources that are all multiplied with one factor still weigh the joint public key, so that the keys need not belong to their sources |
| `CombineLengths.CombinedLeft` | implementations/rust/workspace/cryptography/src/dkgd/recipient.rs:630-672 | for vectors of any lengths, success is that the proofs reached verify, and there are as many plaintexts as the shortest list has, so one for every ciphertext if and only if no vector is short |
| `CombineLengths.NextDivisorsPaired` | implementations/rust/workspace/cryptography/src/dkgd/recipient.rs:631-660 | what lies behind the shortest list is not looked at |
| `CombineErrors.CombinedError` | implementations/rust/workspace/cryptography/src/dkgd/recipient.rs:630-660 | a failed combination returns the error of the first proof that does not verify, trustee by trustee and ciphertext by ciphertext, among those looked at |
| `ShortVectors.SuccessExactly` | implementations/rust/workspace/cryptography/src/dkgd/recipient.rs:630-660 | some order of the trustees succeeds if and only if, for every trustee, all proofs up to the end of the shortest list verify |
| `ShortVectors.FailureExactly` | implementations/rust/workspace/cryptography/src/dkgd/recipient.rs:630-660 | some order of the trustees fails if and only if some trustee has a bad proof that has a ciphertext |
| `ShortVectors.OrderMattersExactly` | implementations/rust/workspace/cryptography/src/dkgd/recipient.rs:630-660 | for any factors, one order succeeds and another fails if and only if all proofs up to the end of the shortest list verify and some proof behind it, that has a ciphertext, does not |
| `ShortVectors.OrderDecidesSuccess` | implementations/rust/workspace/cryptography/src/dkgd/recipient.rs:630-660 | for any two ciphertexts there are factors, one vector short and one with a bad proof, that combine in one order and fail in the other |
| `Protocol.CombineCorrectExactly` | implementations/rust/workspace/cryptography/src/dkgd/recipient.rs:622-632 | combining is correct for all keys, ciphertexts and factors if and only if no position is repeated or, with position zero among them, that one is there once; it does not check this itself |
| `Protocol.UnrecoveredNotDecrypted` | implementations/rust/workspace/cryptography/src/dkgd/recipient.rs:622-672 | whenever the weighted shares are not the secret, some ciphertext is combined to the wrong plaintext |
| `Protocol.RepeatedNotDecrypted` | implementations/rust/workspace/cryptography/src/dkgd/recipient.rs:625-632 | with a repeated position and none that is zero there are keys and a ciphertext that are combined to the wrong plaintext |
| `CombineOrder.CombineOrderIrrelevant` | implementations/rust/workspace/cryptography/src/dkgd/recipient.rs:622-672 | for any factors, honest or not and of any lengths, permuting trustees together with their verification keys keeps the plaintexts, and keeps success unless a vector is short |
| `UntypedCombine.Combine` | implementations/rust/workspace/cryptography/src/dkgd/tests.rs:174-206 | the loop without proof checks, for any number of participants, returns the ciphertexts divided by the weighted products |
| `UntypedCombine.CheckedIsUnchecked` | implementations/rust/workspace/cryptography/src/dkgd/tests.rs:174-206 | whenever the checked combination succeeds, on vectors of any lengths, the unchecked one returns the same plaintexts |
| `UntypedCombine.UntypedDecrypts` | implementations/rust/workspace/cryptography/src/dkgd/tests.rs:174-229 | any number of distinct participants, at least the threshold, decrypt with the joint secret |
| `Pleq.PlEqCompleteness` | implementations/rust/workspace/cryptography/src/zkp/pleq.rs:108-171 | an honest proof verifies, and proving fails only when the challenge for its commitments cannot be hashed |
| `Pleq.PlEqSpecialSoundness` | implementations/rust/workspace/cryptography/src/zkp/pleq.rs:150-171 | two accepted responses to different challenges give randomness that both parts of the ciphertext share |
| `Pleq.PlEqFalseStatementOneChallenge` | implementations/rust/workspace/cryptography/src/zkp/pleq.rs:150-171 | when no randomness is shared by both parts of the ciphertext, at most one challenge can be answered once the commitments are fixed |
| `PleqEquations.VerifyPlEqExactly` | implementations/rust/workspace/cryptography/src/zkp/pleq.rs:150-171 | for any proof and ciphertext, verification fails only when the hash has no scalar, and otherwise answers true if and only if the responses answer that very scalar in both rows, in terms of logarithms |
| `PleqEquations.ProvePlEqExactly` | implementations/rust/workspace/cryptography/src/zkp/pleq.rs:108-139 | the prover commits to its scalars times the randomness, under both bases, and answers the scalar that everything hashes to; it fails only when there is none |
| `PleqEquations.FalseCiphertextIsLuck` | implementations/rust/workspace/cryptography/src/zkp/pleq.rs:150-171 | an accepted proof for a ciphertext whose parts share no randomness has met the only challenge its commitments allow, which is what everything hashes to |
| `PleqChallengeBytes.StatementDetermined` | implementations/rust/workspace/cryptography/src/zkp/pleq.rs:203-225 | with injective fixed-width elements, two statements of any widths and context lengths, nested commitments included, that feed the hash the same bytes are equal |
| `Naoryung.StripEncrypt` | implementations/rust/workspace/cryptography/src/cryptosystem/naoryung.rs:484-560 | stripping an encryption verifies and leaves the ElGamal encryption with the same randomness |
| `Naoryung.DecryptEncrypt` | implementations/rust/workspace/cryptography/src/cryptosystem/naoryung.rs:294-502 | an encryption decrypts to its message |
| `CheckedCiphertexts.StripExactly` | implementations/rust/workspace/cryptography/src/cryptosystem/naoryung.rs:541-558 | any ciphertext whose responses do not answer its hash is refused; of any other the ElGamal part is returned unchanged |
| `CheckedCiphertexts.DecryptExactly` | implementations/rust/workspace/cryptography/src/cryptosystem/naoryung.rs:294-317 | so it is for decryption, which then returns the plain ElGamal decryption |
| `CheckedCiphertexts.EncryptExactly` | implementations/rust/workspace/cryptography/src/cryptosystem/naoryung.rs:484-503 | encryption fails only when the hash has no scalar, and otherwise encrypts the message under both keys with a proof for the given nonces |
| `ElementCodec.JoinSplit` | implementations/rust/workspace/cryptography/src/groups/ristretto255/group.rs:246-294 | joining the chunks of bytes of any length gives back the bytes |
| `ElementCodec.BytesRoundTrip` | implementations/rust/workspace/cryptography/src/groups/ristretto255/group.rs:83-154 | bytes of any length survive encoding into elements, whenever points are found |
| `ElementCodec.ScalarElements` | implementations/rust/workspace/cryptography/src/groups/ristretto255/group.rs:206-226 | a scalar takes two elements and is decoded from them |
| `ElementCodec.SplitAt` | implementations/rust/workspace/cryptography/src/groups/ristretto255/group.rs:246-271 | every byte of every chunk is the one at its place, or zero behind the end |
| `ElementCodec.JoinAt` | implementations/rust/workspace/cryptography/src/groups/ristretto255/group.rs:276-294 | every joined byte is the one at its place in its chunk, or zero behind the last |
| `ElementCodec.EncodeExactly` | implementations/rust/workspace/cryptography/src/groups/ristretto255/group.rs:118-138 | encoding succeeds if and only if a point is found for every chunk, and gives these points |
| `BallotCheck.EncodeBallot` | implementations/rust/workspace/protocol/src/cryptography.rs:220-246 | the loop fills a fixed buffer with the serialized ballot, padded with zeros, and encodes it |
| `BallotCheck.BallotRoundTrip` | implementations/rust/workspace/protocol/src/cryptography.rs:220-269 | every ballot that can be encoded decodes to itself |
| `BallotCheck.BallotCheckExact` | implementations/rust/workspace/protocol/src/cryptography.rs:403-430 | for any cryptogram and randomizers: a cryptogram whose responses do not answer its hash, a wrong number of randomizers and scalars that are not its exponents are refused, each with its own error; everything else gives what the election secret key would decode |
| `BallotCheck.VerifyCiphertextProofExactly` | implementations/rust/workspace/protocol/src/cryptography.rs:440-451 | the check of a cryptogram's proof never fails, and is true if and only if its responses answer the scalar that its statement, commitments and context hash to |
| `BallotCheck.RandomizersUnique` | implementations/rust/workspace/protocol/src/cryptography.rs:403-430 | no two different lists of randomizers are accepted for one cryptogram |
| `BallotCheck.EncryptRandomizers` | implementations/rust/workspace/protocol/src/cryptography.rs:465-507 | the loop encodes all randomizers into one vector, with the first error returned, and encrypts it only at the fixed width |
| `BallotCheck.DecryptRandomizers` | implementations/rust/workspace/protocol/src/cryptography.rs:516-551 | the loop decodes the decrypted elements pair by pair, with the first error returned |
| `BallotCheck.PairsRoundTrip` | implementations/rust/workspace/protocol/src/cryptography.rs:472-545 | flattening randomizers into elements and pairing elements into randomizers are inverse |
| `BallotCheck.RandomizersRoundTrip` | implementations/rust/workspace/protocol/src/cryptography.rs:465-551 | the authority recovers the encrypted randomizers |
| `BallotCheck.BallotCheckRoundTrip` | implementations/rust/workspace/protocol/src/cryptography.rs:358-551 | encrypting a ballot and its randomizers, decrypting the randomizers and opening the ballot with them gives back the ballot, for every ballot, context and key pair, if the encodings and hashes succeed |
| `BallotSuccess.EncryptBallotExactly` | implementations/rust/workspace/protocol/src/cryptography.rs:358-390 | a ballot is encrypted if and only if a point is found for its 30 bytes and the hash has a scalar; the cryptogram and the kept randomizers carry its style, and the ciphertext encrypts that point with these randomizers |
| `BallotSuccess.EncryptRandomizersExactly` | implementations/rust/workspace/protocol/src/cryptography.rs:465-507 | randomizers are encrypted if and only if points are found for all, there is one, and the hash has a scalar; each failure has its own error |
| `BallotSuccess.DecodedExactly` | implementations/rust/workspace/protocol/src/cryptography.rs:256-269 | an element is decoded to a ballot if and only if the first 26 bytes behind it are that ballot's serialization |
| `BallotSuccess.ReceivedExactly` | implementations/rust/workspace/protocol/src/cryptography.rs:516-551 | from any cryptogram whose responses answer its hash the authority gets the one scalar behind the decrypted pair, or an error if its bytes are no scalar |
| `BallotSuccess.RandomizersRefused` | implementations/rust/workspace/protocol/src/cryptography.rs:516-551 | it refuses every cryptogram whose responses do not answer its hash |
| `BallotSuccess.BallotCheckSucceeds` | implementations/rust/workspace/protocol/src/cryptography.rs:358-551 | the whole ballot check succeeds and shows the ballot whenever points are found for the ballot and the randomizer and hashing does not fail |
| `Serialization.SplitPrefixed` | implementations/rust/workspace/protocol/src/bulletins.rs:107-124 | splitting undoes prefixing a field with its length |
| `Serialization.SplitOnlyPrefixed` | implementations/rust/workspace/protocol/src/bulletins.rs:107-124 | whatever can be split is a field behind its own length |
| `ArraySerialization.CutArray` | implementations/rust/workspace/cryptography/src/utils/serialization/variable.rs:218-250 | the loop cuts the buffer with the length read from its start |
| `ArraySerialization.ArrayRoundTripExactly` | implementations/rust/workspace/cryptography/src/utils/serialization/variable.rs:188-250 | a serialized array is cut back into its elements if and only if they all have the same length, because the length is read from the whole buffer each time |
| `ArraySerialization.ArrayAccepted` | implementations/rust/workspace/cryptography/src/utils/serialization/variable.rs:218-250 | something is read back, right or wrong, if and only if the lengths add up to that many times the first one |
| `ArraySerialization.DifferentLengths` | implementations/rust/workspace/cryptography/src/utils/serialization/variable.rs:188-250 | an array of two elements that is refused, and one of three that is misread |
| `Bulletins.BulletinTypeRegistry.constructor` | implementations/rust/workspace/protocol/src/bulletins.rs:252-262 | a new registry holds the two built-in types, each with its own deserializer, and nothing else |
| `Bulletins.BulletinTypeRegistry.Register` | implementations/rust/workspace/protocol/src/bulletins.rs:287-316 | a call succeeds if and only if the name is neither built in nor taken, each refusal has its own error, and only a success changes the registry |
| `Bulletins.RegistryRuns` | implementations/rust/workspace/protocol/src/bulletins.rs:264-338 | after any sequence of registrations a built-in name is decoded as at the start, and any other name by its first registration |
| `Bulletins.CallResults` | implementations/rust/workspace/protocol/src/bulletins.rs:287-316 | in any sequence of registrations a call succeeds if and only if its name is not built in and no earlier call, successful or not, has it |
| `Bulletins.UnknownTypeRefused` | implementations/rust/workspace/protocol/src/bulletins.rs:325-338 | a bulletin of a type that is not built in and that no call registered is refused as of unknown type |
| `Bulletins.BulletinRoundTrip` | implementations/rust/workspace/protocol/src/bulletins.rs:151-224 | reading back what was written returns the bulletin if and only if the registry maps the contents' type name to a deserializer that undoes their serialization |
| `Bulletins.SerializationInjective` | implementations/rust/workspace/protocol/src/bulletins.rs:151-211 | equal bytes mean equal type name, election hash, content bytes, timestamp, previous hash and signature |
| `Bulletins.EqualityAndBytes` | implementations/rust/workspace/protocol/src/bulletins.rs:93-211 | two bulletins are written the same if and only if they compare equal and their contents have the same type name |
| `Bulletins.EqualButWrittenDifferently` | implementations/rust/workspace/protocol/src/bulletins.rs:93-211 | two bulletins that compare equal and are written differently |
| `Bulletins.TrailingBytesIgnored` | implementations/rust/workspace/protocol/src/bulletins.rs:216-223 | bytes behind a bulletin do not change how it is read |
| `Bulletins.AcceptedParts` | implementations/rust/workspace/protocol/src/bulletins.rs:172-224 | bytes that any registry accepts consist of a type name, the fields, the contents bytes that the registered deserializer read, and ignored bytes behind the previous hash and the signature |
| `Bulletins.AcceptedBytes` | implementations/rust/workspace/protocol/src/bulletins.rs:172-224 | a bulletin is read from exactly the bytes that consist of such parts, for any registry and any deserializers |
| `Bulletins.RewrittenExactly` | implementations/rust/workspace/protocol/src/bulletins.rs:151-224 | writing what was read gives back the bytes if and only if nothing is ignored and the contents write their own type name and the bytes they were read from |
| `Bulletins.RefusedBecause` | implementations/rust/workspace/protocol/src/bulletins.rs:172-224 | bytes are refused only because they are malformed, name a type that is not registered, or have contents that their own deserializer refuses |
| `Strings.Utf8Exactly` | implementations/rust/workspace/cryptography/src/utils/serialization/variable.rs:703-715 | exactly the encodings of sequences of Unicode scalar values are accepted as strings |
| `Bulletins.PaddedContents` | implementations/rust/workspace/cryptography/src/utils/serialization/variable.rs:703-715 | contents that are a string, padded with a byte, are accepted by a new registry and written back without it |
| `Pruner.ParseInv` | utils/tamarin/prune_tamarin_exists_trace.py:81-130 | before every line, the frame stack is a chain of parents, children follow and know their parents, and nothing is kept inside a frame that is not |
| `Pruner.KeptDescIsKeep` | utils/tamarin/prune_tamarin_exists_trace.py:133-134 | the search for a kept descendant finds exactly the frame's own flag |
| `PrunerRun.Parse` | utils/tamarin/prune_tamarin_exists_trace.py:81-130 | the loop over mutable stacks and flags computes the state of the first pass |
| `PrunerRun.Emit` | utils/tamarin/prune_tamarin_exists_trace.py:137-208 | the loop over mutable stacks, flags and output computes what the second pass prints |
| `PrunerRun.Prune` | utils/tamarin/prune_tamarin_exists_trace.py:81-217 | in either mode, the loops of the two passes print, in order, exactly the lines that the script's own lines call for |
| `PrunerPasses.PassesAgree` | utils/tamarin/prune_tamarin_exists_trace.py:104-208 | before every line the second pass has the frame and case stacks the first pass had |
| `PrunerPasses.OpenedAtExact` | utils/tamarin/prune_tamarin_exists_trace.py:98-103 | every solve line opens one frame, numbered in opening order, and no other line opens any |
| `PrunerPasses.FramesGrow` | utils/tamarin/prune_tamarin_exists_trace.py:98-130 | no later line takes back a keep flag or changes where a frame was opened, closed or belongs |
| `PrunerPasses.OpenOnStackAlways` | utils/tamarin/prune_tamarin_exists_trace.py:98-130 | the frames on the stack are exactly those not closed |
| `PrunerLines.StateOfLines` | utils/tamarin/prune_tamarin_exists_trace.py:98-130 | before every line, the frame stack, the depth each frame remembers and the case stack are what the lines alone say |
| `PrunerLines.ActiveExactly` | utils/tamarin/prune_tamarin_exists_trace.py:104-130 | a case is active before a line if and only if there have been more active cases than before it ever since it opened |
| `PrunerLines.QedClosesCases` | utils/tamarin/prune_tamarin_exists_trace.py:120-127 | a qed that closes the block of a solve line leaves the first of the active cases, as many as were active before that solve line |
| `PrunerPaths.Output` | utils/tamarin/prune_tamarin_exists_trace.py:170-205 | a line other than simplify is printed exactly when the first pass's flags say so: kept frame for solve and qed, kept frame and case for case, some kept frame and all active cases kept for others |
| `PrunerPaths.SimplifyExactly` | utils/tamarin/prune_tamarin_exists_trace.py:153-208 | a simplify line is printed exactly when no qed line was printed before and either its innermost frame is kept or only qed lines came before |
| `PrunerPaths.OutputNested` | utils/tamarin/prune_tamarin_exists_trace.py:137-208 | in either mode the printed lines are in order and well nested: each printed qed closes the innermost printed solve still open, at the line that closed it in the script, and what stays open is what the script leaves open |
| `PrunerExact.PrintedExactly` | utils/tamarin/prune_tamarin_exists_trace.py:81-208 | whether a line is printed, in either mode and for every keyword, stated by the lines alone: by the blocks that are open and the cases that are active at the successes that mark |
| `PrunerExact.KeptAtTheSuccess` | utils/tamarin/prune_tamarin_exists_trace.py:81-130 | in first-success mode what is kept is what is open and active at the first success |
| `PrunerFirstSuccess.FrameKeptExactly` | utils/tamarin/prune_tamarin_exists_trace.py:104-112 | a frame is kept if and only if it was open at a success that marks |
| `PrunerFirstSuccess.CaseKeptExactly` | utils/tamarin/prune_tamarin_exists_trace.py:104-130 | a case is kept if and only if it was active at a success that marks, where active is decided by the lines alone |
| `PrunerFirstSuccess.NothingWithoutSuccess` | utils/tamarin/prune_tamarin_exists_trace.py:170-205 | without any success nothing but simplify lines is printed |
| `PrunerFirstSuccess.SolvesOnPath` | utils/tamarin/prune_tamarin_exists_trace.py:104-208 | in first-success mode the printed solve lines are exactly those whose frames are open at the first success, all before it |
| `PrunerFirstSuccess.QedsFollow` | utils/tamarin/prune_tamarin_exists_trace.py:104-208 | a qed line is printed if and only if it closes a frame open at the first success, and no printed one comes before it |
| `PrunerFirstSuccess.QedsInnermostFirst` | utils/tamarin/prune_tamarin_exists_trace.py:104-208 | the t-th printed qed line closes the t-th innermost frame open at the first success, and the frames without one are never closed |
| `PrunerFirstSuccess.SuccessLineSurvives` | utils/tamarin/prune_tamarin_exists_trace.py:201-205 | the first success line, when it has no keyword, is printed if and only if it lies inside a frame |
| `PrunerFirstSuccess.CasesOnPath` | utils/tamarin/prune_tamarin_exists_trace.py:178-182 | a case line is printed if and only if its case is active, by the lines alone, at the first success and its innermost frame is open there |
| `PrunerAgain.PruningAgain` | utils/tamarin/prune_tamarin_exists_trace.py:81-208 | when the first success is a line of its own inside a frame, pruning what was printed prints every line of it again |
| `PrunerAgain.OpenAsKept` | utils/tamarin/prune_tamarin_exists_trace.py:81-208 | at every line, the printed lines so far have as many open frames as the script has kept ones |

## Left out

- Decryption.Combine: the Rust code panics on an empty factor vector and on a ciphertext type of another width; both are preconditions here, the second because the types exclude it.
- Dlogeq.ResponseUnique: covers a changed response only, not a proof with other commitments.
- BallotSuccess.BallotCheckSucceeds: the encoding of 30 bytes as a point and of a scalar as 32 bytes are arbitrary functions with a round-trip law, so whether a point is found is a hypothesis.
- Serialization.SplitPrefixed: the overflow of a length as a machine word and a buffer that is too short are one error here, as both end the reading.
- ArraySerialization.ArrayRoundTripExactly: is about the byte chunks handed to the elements' own deserialization, which is left out.
- PrunerRun.Parse: frames are kept in a sequence in opening order instead of objects that refer to each other, and cases are known by their lines; aliasing is not captured.
- PrunerRun.Emit: the index of frames by opening line is a search of that sequence instead of a dictionary filled by walking the forest from its roots.
- Pruner input: regular expressions, arguments and files are left out; a line is its keyword and whether it is a success.
- Error messages: only the kind of an error is modelled.
- Curve arithmetic, point encoding, SHA-3, Ed25519 signatures and random numbers: arbitrary functions with laws, or arguments.
- Computational security: hardness, zero knowledge, chosen-ciphertext security and the random oracle are not expressible here; only algebraic statements are proved.
- Public key augmentation: the second Naor-Yung public key is an arbitrary element.
- Key pair generation, message structs, context strings and plain wrappers: single expressions without an own law.
- `decrypt_ballot` does not compare the cryptogram's ballot style with the ballot's; nothing is claimed about it.
- `zkp/schnorr.rs`: unused by the protocol and an easier form of the discrete logarithm equality proof.
- Shuffle proofs, voter authorization, participant actors and the trustee protocols: not part of this model.
