# Verification of the confidential-bridge core

This project models the cryptographic core and the coordinator state machines of the confidential
bridge in Dafny and proves properties of the model for all inputs and all runs.
`dafny verify dfyconfig.toml` checks it.

## What is modelled

- **Big integers and decimals** (`BigUint.dfy`, `Decimals.dfy`, `SpdzAdapter.dfy`): the hand-written
  limb arithmetic with its machine-word widths, the Lagrange coefficient computed with an inverse by
  Fermat, and the centred decimals of the MPC program. `Digits.dfy`, `ModArith.dfy`,
  `PrimeField.dfy` and `Lagrange.dfy` hold the mathematics: positional notation, residues, Fermat's
  little theorem, interpolation at zero.
- **The transfer proof** (`TransferForm.dfy`, `FiatShamir.dfy`, `TransferSigma.dfy`,
  `TransferProof.dfy`, `Conservation.dfy`, `Prng.dfy`): psi, f, prover and verifier for every ell and
  n; exact completeness, extraction, conservation of amounts.
- **The threshold prover** (`NormalizeSigma.dfy`, `DkBases.dfy`, `Threshold.dfy`,
  `ThresholdProof.dfy`, `ThresholdShares.dfy`, `BalanceDecrypt.dfy`, `TwistedElGamal.dfy`,
  `RangeCommitments.dfy`, `Chunks.dfy`): workers and coordinator together against the single prover.
- **Encodings and what they bind** (`Bcs.dfy`, `BcsMessages.dfy`, `Encoding.dfy`, `CaRegistration.dfy`,
  `CaRegistrationBinding.dfy`, `ChallengeBinding.dfy`).
- **Coordinator concurrency** (`InFlightLock.dfy`, `Submit.dfy`, `Maintenance.dfy`,
  `ObservedDeposits.dfy`): transition systems whose steps are what runs between two awaits; the
  classes beside them refine the steps.

Conventions. The group order q is a parameter with the hypothesis that it is prime; `PrimeField.Q` is
the order L of section 5.1 of RFC 8032. ristretto255 (section 4 of RFC 9496) is a cyclic group of
prime order, so a point is represented by its discrete logarithm, a residue modulo q: point addition
is addition and scalar multiplication is multiplication of residues. Compression and canonical
decompression of points are modelled by the canonical 32-byte encoding of that residue, which has the
one property the code relies on, one encoding per point. Hash functions are uninterpreted parameters.
A panic or a thrown error is an error value.

## What the proofs found

- `chunks_to_amount` reports an overflow of its sum, but a chunk shifted past bit 128 loses its high
  bits without an error (`Chunks.RecomposeTruncates`). It returns the chunks' value exactly when no
  shift reaches bit 128 and the value is below 2^128 (`Chunks.RecomposeExactly`).
- The comment at `operator-services/coordinator/src/server.ts:7531-7536` says that a transaction
  that aborted on chain is recorded as incomplete so that retries are not short-circuited. With a
  chain node configured the recovery branch takes every such retry first and reports the same
  transaction again; it is never submitted anew (`Submit.SettledIsFinal`, `Submit.AbortSettles`).
- The final write uses `link`, which refuses any existing file. Over an incomplete stub, which the
  route itself writes for an unfinished finalize transcript, a confirmed submit leaves no record and
  a retry broadcasts again (`Submit.AtMostOnceExactly`, `Submit.StubMakesUnsafe`).
- A submitter that throws after its broadcast (`operator-services/relayer/src/submit_journal.ts:7-9`)
  leaves no record, so a retry can lead to a second real acceptance even from an empty path. At most
  one acceptance, lost ones included, is certain exactly when a transaction is already on record
  (`Submit.AtMostOnceEverExactly`, `Submit.LostReplyTwice`).
- `derive_dk_base_points` is documented to return exactly positions 0 and 17; it drops a base that is
  the identity (`DkBases.CanonicalBases` has the exact condition, `DkBases.BaseDropped` an input).
- The observed-deposit scan depends on the directory's listing order. For artifacts whose hashes bind
  their cursor it is independent of it exactly when the retries at each cursor carry one hash
  (`ObservedDeposits.OrderOfHonestArtifacts`; in general `ObservedDeposits.OrderIrrelevant`); two
  retries with different hashes give two different accepted vectors (`ObservedDeposits.OrderMatters`).
- The JavaScript ULEB128 writer loses the high part of lengths of 2^32 and more
  (`Bcs.ReadWriteUleb`), and `pow_mod` returns 1 for exponent 0 modulo 1.
- The safety-net `break` of `modulo`, the zero-denominator and zero-coefficient checks of
  `normalize_sigma_partial.rs` and the identity check on a worker's partials are dead code.

## Model

| member | source | states |
|---|---|---|
| BigUints.Normalize | operator-services/crypto-worker-rust/src/mpc_spdz_adapter.rs:979-986 | strips exactly the high zero limbs and keeps the value |
| BigUints.BigUint.FromU64 | operator-services/crypto-worker-rust/src/mpc_spdz_adapter.rs:908-914 | normalised limbs of any u64 |
| BigUints.BigUint.FromBytesLe | operator-services/crypto-worker-rust/src/mpc_spdz_adapter.rs:915-927 | value of any byte string, little-endian, in normalised limbs |
| BigUints.BigUint.ToBytesLe | operator-services/crypto-worker-rust/src/mpc_spdz_adapter.rs:928-940 | shortest little-endian bytes; their value is the number |
| BigUints.BigUint.Cmp | operator-services/crypto-worker-rust/src/mpc_spdz_adapter.rs:987-997 | orders normalised numbers as integers, scanning limbs from the top |
| BigUints.BigUint.Add | operator-services/crypto-worker-rust/src/mpc_spdz_adapter.rs:998-1014 | exact sum; the u64 carry never overflows |
| BigUints.BigUint.SubBig | operator-services/crypto-worker-rust/src/mpc_spdz_adapter.rs:1015-1034 | exact difference when a >= b; the i64 borrow never overflows |
| BigUints.BigUint.MulSmall | operator-services/crypto-worker-rust/src/mpc_spdz_adapter.rs:1035-1048 | exact product with a 32-bit factor; no u64 overflow |
| BigUints.BigUint.DivModSmall | operator-services/crypto-worker-rust/src/mpc_spdz_adapter.rs:1049-1059 | exact quotient and remainder; the u64 accumulator and the u32 quotient limb never overflow |
| BigUints.BigUint.SubMod | operator-services/crypto-worker-rust/src/mpc_spdz_adapter.rs:1060-1079 | a - b mod m, never negative, for every a, b and m > 0 |
| BigUints.BigUint.MulMod | operator-services/crypto-worker-rust/src/mpc_spdz_adapter.rs:1080-1093 | a*b mod m for every a, b and m > 0 |
| BigUints.BigUint.ShlLimbs | operator-services/crypto-worker-rust/src/mpc_spdz_adapter.rs:1094-1099 | multiplication by 2^(32 n) |
| BigUints.BigUint.Modulo | operator-services/crypto-worker-rust/src/mpc_spdz_adapter.rs:1100-1129 | terminates with the remainder for every m > 0; the safety-net break is dead code |
| BigUints.Overshoot | operator-services/crypto-worker-rust/src/mpc_spdz_adapter.rs:1106-1127 | why the break is dead: the shifted divisor overshoots by less than one bit |
| BigUints.BigUint.PowMod | operator-services/crypto-worker-rust/src/mpc_spdz_adapter.rs:1130-1146 | base^exp mod m for every exponent; 1 for exponent 0 even when m = 1 |
| BigUints.BigUint.BitLen | operator-services/crypto-worker-rust/src/mpc_spdz_adapter.rs:1147-1158 | the least k with value < 2^k |
| Decimals.ToDecimal | operator-services/crypto-worker-rust/src/mpc_spdz_adapter.rs:941-957 | the shortest decimal notation of any number |
| Decimals.ParseDecimal | operator-services/crypto-worker-rust/src/mpc_spdz_adapter.rs:958-975 | the value of a digit string, nothing for any other string |
| Decimals.ParseInvertsPrint | operator-services/crypto-worker-rust/src/mpc_spdz_adapter.rs:941-975 | parsing inverts printing for every natural |
| Decimals.PrintInvertsParse | operator-services/crypto-worker-rust/src/mpc_spdz_adapter.rs:941-975 | printing gives back a digit string exactly when it has no leading zero |
| Decimals.SignedRoundTrip | operator-services/crypto-worker-rust/src/mpc_spdz_adapter.rs:617-658 | the same for signed notation |
| Decimals.FindOpenM | operator-services/crypto-worker-rust/src/mpc_spdz_adapter.rs:660-683 | the payload of the first line that carries the marker and a decimal |
| Decimals.PrintedLineCarriesValue | operator-services/crypto-worker-rust/src/mpc_spdz_adapter.rs:660-683 | a printed value, signed or not, is found in its line |
| SpdzAdapter.ScalarFromDecimal | operator-services/crypto-worker-rust/src/mpc_spdz_adapter.rs:617-651 | v mod Q for every signed decimal v; an error for every other string |
| SpdzAdapter.ScalarToDecimal | operator-services/crypto-worker-rust/src/mpc_spdz_adapter.rs:653-658 | the decimal notation of a canonical scalar |
| SpdzAdapter.EitherNotationReadsBack | operator-services/crypto-worker-rust/src/mpc_spdz_adapter.rs:617-658 | a scalar comes back from its canonical and from its centred notation |
| PrimeField.QIsL | operator-services/crypto-worker-rust/src/mpc_spdz_adapter.rs:519-520 | Q is 2^252 + 27742317777372353535851937790883648493 |
| PrimeField.FermatInverse | operator-services/crypto-worker-rust/src/mpc_spdz_adapter.rs:878-879 | a * a^(p-2) = 1 modulo any prime p, for a not 0 mod p |
| PrimeField.FermatNat | operator-services/crypto-worker-rust/src/mpc_spdz_adapter.rs:878-879 | Fermat's little theorem, by the binomial theorem |
| SpdzAdapter.ComputeLagrangeCoefficientAtZero | operator-services/crypto-worker-rust/src/mpc_spdz_adapter.rs:853-892 | the Lagrange coefficient at zero for any slot list; an error exactly for an index past its end |
| Lagrange.CoefficientUnique | operator-services/crypto-worker-rust/src/mpc_spdz_adapter.rs:853-892 | the coefficient is the one residue whose product with the denominator is the numerator |
| Lagrange.CoefficientsSumToOne | operator-services/crypto-worker-rust/src/mpc_spdz_adapter.rs:853-892 | for distinct slots the coefficients add up to one |
| Lagrange.Reconstruct | operator-services/crypto-worker-rust/src/mpc_spdz_adapter.rs:853-892 | for distinct slots and any polynomial of degree below their number, the weighted values add up to the value at zero |
| SpdzAdapter.DistributedInversion | operator-services/crypto-worker-rust/src/mpc_spdz_adapter.rs:478-497 | the q_i add up to the inverse of dk; the points h*q_i add up to ek with dk*ek = h; h*q_i times m is the published h*r_i |
| BcsMessages.Writer.WriteU8 | operator-services/deop-protocol/src/bcs.ts:19-24 | appends one u8 field or fails, exactly outside 0..255 |
| BcsMessages.Writer.WriteU64 | operator-services/deop-protocol/src/bcs.ts:26-35 | appends one u64 field or fails, exactly outside the u64 range |
| BcsMessages.Writer.WriteUleb128 | operator-services/deop-protocol/src/bcs.ts:37-47 | appends the ULEB128 bytes that 32-bit shifts produce |
| BcsMessages.Writer.WriteVector | operator-services/deop-protocol/src/bcs.ts:49-52 | appends one byte-vector field |
| BcsMessages.Writer.WriteVectorVector | operator-services/deop-protocol/src/bcs.ts:62-65 | appends one list of byte vectors |
| BcsMessages.Writer.WriteVectorVectorVector | operator-services/deop-protocol/src/bcs.ts:67-70 | appends one list of lists of byte vectors |
| BcsMessages.Writer.WriteAddress | operator-services/deop-protocol/src/bcs.ts:72-78 | appends 32 raw bytes or fails, exactly for another length |
| Bcs.UlebIs | operator-services/deop-protocol/src/bcs.ts:37-47 | one byte below 128, two below 16384, low bits first |
| Bcs.ReadWriteUleb | operator-services/deop-protocol/src/bcs.ts:37-47 | a length reads back exactly when it is below 2^32 |
| Bcs.WriteReadUleb | operator-services/deop-protocol/src/bcs.ts:37-47 | an accepted length has one encoding |
| Bcs.ReadWrite | operator-services/deop-protocol/src/bcs.ts:12-83 | any field, lists nested to any depth, reads back as itself with what follows it left over |
| Bcs.WriteRead | operator-services/deop-protocol/src/bcs.ts:12-83 | what a field reader accepts is what the writer writes |
| Bcs.ReadWriteRecord | operator-services/deop-protocol/src/bcs.ts:12-83 | the same for whole records |
| Bcs.RecordsInjective | operator-services/deop-protocol/src/bcs.ts:12-83 | records of the same kinds with the same bytes are equal |
| BcsMessages.EncodeDeposit | operator-services/deop-protocol/src/bcs.ts:111-135 | the literal bytes of the deposit, chunk by chunk, or fails exactly when a field is out of range |
| BcsMessages.EncodeWithdraw | operator-services/deop-protocol/src/bcs.ts:85-109 | the literal bytes of the withdrawal, chunk by chunk, or fails exactly when a field is out of range |
| BcsMessages.EncodeCaPayload | operator-services/deop-protocol/src/bcs.ts:137-158 | the literal bytes of the payload, chunk by chunk, or fails exactly when an address has the wrong length |
| BcsMessages.DepositDecodeEncode | operator-services/deop-protocol/src/bcs.ts:111-135 | decoding inverts encoding of deposits |
| BcsMessages.DepositEncodeDecode | operator-services/deop-protocol/src/bcs.ts:111-135 | bytes that decode as a deposit are its encoding |
| BcsMessages.WithdrawDecodeEncode | operator-services/deop-protocol/src/bcs.ts:85-109 | decoding inverts encoding of withdrawals |
| BcsMessages.WithdrawEncodeDecode | operator-services/deop-protocol/src/bcs.ts:85-109 | bytes that decode as a withdrawal are its encoding |
| BcsMessages.CaPayloadDecodeEncode | operator-services/deop-protocol/src/bcs.ts:137-158 | decoding inverts encoding of payloads |
| BcsMessages.CaPayloadEncodeDecode | operator-services/deop-protocol/src/bcs.ts:137-158 | bytes that decode as a payload are its encoding |
| BcsMessages.DomainsDisjoint | operator-services/deop-protocol/src/constants.ts:10-11 | no deposit has the bytes of a withdrawal, whatever the messages |
| FiatShamir.WriteUleb128 | operator-services/crypto-worker-rust/src/transfer_sigma_reference.rs:108-114 | the ULEB128 bytes of any u32 |
| FiatShamir.BcsFiatShamirInputs | operator-services/crypto-worker-rust/src/transfer_sigma_reference.rs:158-184 | the challenge preimage, lengths cast to 32 bits |
| FiatShamir.FiatShamirIsRecord | operator-services/crypto-worker-rust/src/transfer_sigma_reference.rs:71-184 | below 2^32 entries the preimage is a BCS record |
| FiatShamir.FiatShamirInjective | operator-services/crypto-worker-rust/src/transfer_sigma_reference.rs:71-184 | one preimage, one domain, statement and commitment |
| ChallengeBinding.ChallengeIs | operator-services/crypto-worker-rust/src/transfer_sigma_reference.rs:71-212 | the challenge as two hash rounds over the literal bytes: domain, type name, number of responses, statement, commitment, and the suffix byte 0 |
| ChallengeBinding.ChallengeBinds | operator-services/crypto-worker-rust/src/transfer_sigma_reference.rs:158-212 | transcripts that differ in the domain, the number of responses, the statement or the commitment have different challenges under some hash |
| ChallengeBinding.VerifierChallenge | operator-services/crypto-worker-rust/src/transfer_sigma_reference.rs:595-641 | acceptance is the right shape and every position checked with the challenge of the proof's own commitment |
| ChallengeBinding.VerifierBinds | operator-services/crypto-worker-rust/src/transfer_sigma_reference.rs:600-608 | two proofs with different commitments are checked with different challenges under some hash |
| ChallengeBinding.ProveAndVerify | operator-services/crypto-worker-rust/src/transfer_sigma_reference.rs:517-641 | prover and verifier together: an honest proof is accepted if and only if the witness is valid or the challenge is zero |
| TransferSigma.ComputeBPowers | operator-services/crypto-worker-rust/src/transfer_sigma_reference.rs:216-224 | the powers of 2^16 modulo q, one of them even for count 0 |
| TransferSigma.PsiTransfer | operator-services/crypto-worker-rust/src/transfer_sigma_reference.rs:363-439 | psi position by position for every ell and n; errors exactly for auditors and a wrong witness length |
| TransferSigma.BalancePoint | operator-services/crypto-worker-rust/src/transfer_sigma_reference.rs:409-423 | the balance equation of position 2*ell+1 |
| TransferSigma.FTransfer | operator-services/crypto-worker-rust/src/transfer_sigma_reference.rs:447-506 | the target, position by position |
| TransferForm.PsiLinear | operator-services/crypto-worker-rust/src/transfer_sigma_reference.rs:879-895 | psi(a + e*b) = psi(a) + e*psi(b) at every position |
| TransferSigma.ProveTransferSingleParty | operator-services/crypto-worker-rust/src/transfer_sigma_reference.rs:517-572 | commitment psi(alpha), response alpha + e*w with e from the transcript; the three errors |
| TransferSigma.VerifyTransferSingleParty | operator-services/crypto-worker-rust/src/transfer_sigma_reference.rs:578-641 | accepts exactly well-shaped proofs that satisfy every equation; tells a wrong length and a non-point met first from a failed equation |
| TransferProof.HonestProofAccepted | operator-services/crypto-worker-rust/src/transfer_sigma_reference.rs:517-641 | an honest proof is accepted if and only if e*psi(w) = e*f everywhere |
| TransferProof.CompleteExactly | operator-services/crypto-worker-rust/src/transfer_sigma_reference.rs:517-641 | ... if and only if the witness is valid or the challenge is zero |
| TransferProof.TwoTranscripts | operator-services/crypto-worker-rust/src/transfer_sigma_reference.rs:578-641 | responses to one commitment under two challenges determine a valid witness, at every position |
| TransferProof.AcceptedTwice | operator-services/crypto-worker-rust/src/transfer_sigma_reference.rs:578-641 | the same for two runs of the verifier |
| Conservation.NewBalanceOpens | operator-services/crypto-worker-rust/src/transfer_sigma_reference.rs:397-407 | a valid witness opens the new balance chunks |
| Conservation.AmountOpens | operator-services/crypto-worker-rust/src/transfer_sigma_reference.rs:425-436 | sender and recipient decrypt the same amount |
| Conservation.ConservedModQ | operator-services/crypto-worker-rust/src/transfer_sigma_reference.rs:409-423 | old balance = w[1..] + amount w[1+2*ell..] modulo q, for every ell and n |
| Conservation.RelationOfEncryptions | operator-services/crypto-worker-rust/src/transfer_sigma_reference.rs:363-506 | for a statement given by what its ciphertexts encrypt, the witness [dk, a, r, v, x] is valid if and only if dk*ek = H and the old value is the new value plus the amount modulo q; every ell and n, literal positions |
| Conservation.Conserved | operator-services/crypto-worker-rust/src/transfer_sigma_reference.rs:478-484 | the same over the integers for 8 and 4 chunks and any 64-bit old chunks, in terms of w[1..9] and w[17..21] |
| Conservation.AcceptedTransferConserves | operator-services/crypto-worker-rust/src/transfer_sigma_reference.rs:578-641 | conservation from two accepted proofs |
| Conservation.EncryptedBalanceConserved | operator-services/crypto-worker-rust/src/transfer_sigma_reference.rs:409-641 | the same when the old chunks are encryptions under the statement's sender key, with no hypothesis on the extracted key |
| Prng.CounterPrng.Read | operator-services/crypto-worker-rust/src/transfer_sigma_reference.rs:784-792 | reading continues the one byte stream of the seed, whatever is cached |
| ChallengeBinding.FirstBlock | operator-services/crypto-worker-rust/src/transfer_sigma_reference.rs:770-781 | the stream starts with the digests of the seed and the big-endian counters 0 and 1 |
| Prng.CounterPrng.TryNextScalar | operator-services/crypto-worker-rust/src/transfer_sigma_reference.rs:824-838 | one sampling round: rejects above q, accepts q as zero |
| Prng.BigintBeGt | operator-services/crypto-worker-rust/src/transfer_sigma_reference.rs:842-852 | compares big-endian numbers |
| Prng.CounterPrng.Skip | operator-services/crypto-worker-rust/src/transfer_sigma_reference.rs:800-804 | moves the cursor without reading |
| Prng.StreamSplits | operator-services/crypto-worker-rust/src/transfer_sigma_reference.rs:784-804 | skipping and reading lead to the same continuation |
| Chunks.ChunkedAmountToChunks | operator-services/crypto-worker-rust/src/twisted_elgamal_reference.rs:56-89 | the base-2^bits digits of the amount, or an error exactly when it does not fit or a shift overflows |
| Chunks.ChunksToAmount | operator-services/crypto-worker-rust/src/twisted_elgamal_reference.rs:93-106 | the sum of the shifted chunks, bits past 2^128 lost, or an error; the chunks' exact value if and only if no shift reaches bit 128 and it fits in 128 bits |
| Chunks.RecomposeExactly | operator-services/crypto-worker-rust/src/twisted_elgamal_reference.rs:93-106 | recomposition returns the exact value of the chunks if and only if the width is at most 64, bits*(count-1) is below 128 and the value is below 2^128 |
| Chunks.RecomposeTruncates | operator-services/crypto-worker-rust/src/twisted_elgamal_reference.rs:101-104 | eight chunks worth 2^128, the last 2^16, are recomposed to zero instead of an overflow error |
| Chunks.SplitRecompose | operator-services/crypto-worker-rust/src/twisted_elgamal_reference.rs:56-106 | recomposing a split gives the amount |
| Chunks.RecomposeSplit | operator-services/crypto-worker-rust/src/twisted_elgamal_reference.rs:56-106 | splitting a recomposed amount gives the chunks if each fits its width |
| TwistedElGamal.OpeningOfEncryption | operator-services/crypto-worker-rust/src/twisted_elgamal_reference.rs:116-139 | with sk*pk = H the opening of an encryption of v is v*G |
| TwistedElGamal.ChunksDecrypt | operator-services/crypto-worker-rust/src/twisted_elgamal_reference.rs:143-160 | each chunk opens to its value and no other below q |
| TwistedElGamal.AggregatePartials | operator-services/crypto-worker-rust/src/twisted_elgamal_reference.rs:311-365 | per-leg sums, the value term added once; exact shape errors |
| TwistedElGamal.AggregateIsEncryption | operator-services/crypto-worker-rust/src/twisted_elgamal_reference.rs:292-365 | partials of shares aggregate to the encryption under their sum, for both recipients |
| TwistedElGamal.AggregateHonest | operator-services/crypto-worker-rust/src/twisted_elgamal_reference.rs:311-365 | the aggregation run on honest partials |
| TwistedElGamal.HonestPokVerifies | operator-services/crypto-worker-rust/src/twisted_elgamal_reference.rs:377-467 | every honest proof of a share verifies |
| TwistedElGamal.PokExtract | operator-services/crypto-worker-rust/src/twisted_elgamal_reference.rs:426-467 | two accepted proofs with one nonce give one scalar for all bases |
| ChallengeBinding.PokChallengeIs | operator-services/crypto-worker-rust/src/twisted_elgamal_reference.rs:483-510 | the challenge as one hash round over domain, context, nonce points and partial, an absent recipient leg omitted |
| ChallengeBinding.PokChallengeBinds | operator-services/crypto-worker-rust/src/twisted_elgamal_reference.rs:471-510 | it binds context, nonce points and partial, for contexts of one length |
| RangeCommitments.AggregateBlindingShares | operator-services/crypto-worker-rust/src/bulletproof_reference.rs:364-393 | per-chunk sums of the shares; exact errors |
| RangeCommitments.AggregatePartialRangeCommitments | operator-services/crypto-worker-rust/src/bulletproof_reference.rs:309-352 | v*G plus the sum of the partials per chunk; exact errors |
| RangeCommitments.AggregateBoth | operator-services/crypto-worker-rust/src/bulletproof_reference.rs:279-393 | the two aggregates agree: the commitments are aptos_commit of the aggregated blindings, byte for byte |
| RangeCommitments.SharedPoint | operator-services/crypto-worker-rust/src/bulletproof_reference.rs:164-180 | the same for one chunk |
| NormalizeSigma.NormalizeSelectedSlots | operator-services/crypto-worker-rust/src/normalize_sigma_partial.rs:218-249 | accepts exactly five strictly ascending slots below seven that contain the own one |
| NormalizeSigma.LagrangeAtZeroForSlot | operator-services/crypto-worker-rust/src/normalize_sigma_partial.rs:251-273 | the same coefficient as the big-integer code, never zero; the denominator check never fires |
| NormalizeSigma.Handle | operator-services/crypto-worker-rust/src/normalize_sigma_partial.rs:446-541 | alpha + e*(lambda*dk), or the first failing check |
| NormalizeSigma.SharesAddUp | operator-services/crypto-worker-rust/src/normalize_sigma_partial.rs:527 | for every sharing the workers' shares add up to alpha + e*dk |
| BalanceDecrypt.Handle | operator-services/crypto-worker-rust/src/balance_decrypt.rs:463-507 | partials of the chain's points, only if every requested point equals them; otherwise the first mismatch |
| BalanceDecrypt.MatchIsBytes | operator-services/crypto-worker-rust/src/balance_decrypt.rs:466-492 | a requested chunk matches if and only if it is the encoding of the chain's point, byte for byte |
| BalanceDecrypt.ThresholdDecrypts | operator-services/crypto-worker-rust/src/balance_decrypt.rs:499-507 | C minus the weighted partials is v*G for every sharing of the key |
| DkBases.PsiOfUnit | operator-services/crypto-worker-rust/src/transfer_sigma_reference.rs:1022-1031 | the key contributes at positions 0 and 2*ell+1 only |
| DkBases.DeriveDkBasePoints | operator-services/crypto-worker-rust/src/transfer_sigma_reference.rs:1040-1085 | the non-identity key bases in ascending order; an error exactly when there are none |
| DkBases.CanonicalBases | operator-services/crypto-worker-rust/src/transfer_sigma_reference.rs:1028-1031 | the base set is {0, 17} if and only if ek and the weighted old D chunks are both non-zero |
| DkBases.BaseDropped | operator-services/crypto-worker-rust/src/transfer_sigma_reference.rs:1070-1077 | a statement whose old D chunks are the identity: position 17 is dropped, {0} is the only base set |
| ThresholdShares.AggregateThreshold | operator-services/crypto-worker-rust/src/transfer_sigma_reference.rs:961-1007 | per-index sums over any number of parties |
| ThresholdShares.AggregatedCommitment | operator-services/crypto-worker-rust/src/transfer_sigma_reference.rs:923-971 | the sum of the parties' psi is psi of the sum of their nonces |
| ThresholdShares.AggregatedResponse | operator-services/crypto-worker-rust/src/transfer_sigma_reference.rs:978-1007 | the sum of the response shares is the response of the sums |
| ThresholdShares.AggregateProof | operator-services/crypto-worker-rust/src/transfer_sigma_reference.rs:923-1007 | for any number of parties the aggregates form the single prover's proof for the summed witness; accepted iff that witness is valid or e = 0 |
| ThresholdProof.PartialDkCommitments | operator-services/crypto-worker-rust/src/lib.rs:9677-9705 | a worker's partials; refused exactly for a zero nonce, never the identity otherwise |
| Threshold.SumWorkers | operator-services/coordinator/src/server.ts:5241-5270 | the workers' sum at one position, or why there is none |
| Threshold.AssembleCommitments | operator-services/coordinator/src/server.ts:5239-5320 | A_full position by position; the exact failure condition and which error comes first |
| Threshold.AggregateScalarsModN | operator-services/coordinator/src/server.ts:8979-9008 | the sum modulo the order; errors exactly for no input and a wrong length |
| ThresholdProof.WorkerSumHonest | operator-services/coordinator/src/server.ts:5241-5270 | honest partials add up to base times the whole nonce |
| ThresholdProof.AssembleHonest | operator-services/coordinator/src/server.ts:5229-5322 | the assembled commitment is psi of the nonce that no party holds |
| ThresholdProof.WorkerShare | operator-services/crypto-worker-rust/src/normalize_sigma_partial.rs:446-541 | the handler of the worker at position j of the slots returns the share that the assembled response takes from it |
| ThresholdProof.AssembleResponse | operator-services/coordinator/src/server.ts:5607-5621 | the assembled response is alpha + e*w |
| ThresholdProof.FinalizeHonest | operator-services/coordinator/src/server.ts:5229-5621 | the assembled proof is the single prover's; the plain verifier accepts it iff the witness is valid or e = 0 |
| InFlightLock.InFlight.TryAcquire | operator-services/coordinator/src/server.ts:701-729 | one look at the slot: wait, busy, or acquire; one Poll step of the machine below |
| InFlightLock.InFlight.Release | operator-services/coordinator/src/server.ts:725-728 | empties the slot whoever holds it; one Finish or ReleaseAgain step |
| InFlightLock.ExclusiveFromStart | operator-services/coordinator/src/server.ts:884-914 | at most one holder, and the slot is occupied exactly while there is one, over every interleaving |
| InFlightLock.BusyNeverAcquires | operator-services/coordinator/src/server.ts:886-902 | a busy reply is final |
| InFlightLock.BusyMeansHeld | operator-services/coordinator/src/server.ts:886-902 | busy is only replied while another request holds the lock |
| InFlightLock.PollExactly | operator-services/coordinator/src/server.ts:884-907 | busy exactly on an occupied slot after the deadline, waiting exactly before it, acquired exactly on a free slot |
| InFlightLock.SecondReleaseExactly | operator-services/coordinator/src/server.ts:908-913 | a second release is harmless exactly while nobody holds the lock |
| InFlightLock.SecondReleaseBreaks | operator-services/coordinator/src/server.ts:908-913 | a run in which a second release lets two requests hold it |
| Submit.Coordinator.Submit | operator-services/coordinator/src/server.ts:7140-7696 | the handler is a run of the step machine and replies once; reply and record for every case of the old record, the input and the outcomes |
| Submit.Coordinator.Recover | operator-services/coordinator/src/server.ts:7219-7391 | recovery of a half-finished submit: completed if and only if the chain reports success |
| Submit.Coordinator.Broadcast | operator-services/coordinator/src/server.ts:7419-7669 | relayer, confirmation and record, for every outcome |
| Submit.Coordinator.Persist | operator-services/coordinator/src/server.ts:8464-8524 | link refuses an existing path, rename replaces it |
| Submit.CompletedIsFinal | operator-services/coordinator/src/server.ts:7152-7211 | a completed artifact never changes, over every run with crashes |
| Submit.CompletedMeansSuccess | operator-services/coordinator/src/server.ts:7152-7696 | a completed reply repeats an artifact of the initial disk recorded for the input of a session, or the run has seen the chain succeed with that transaction or a simulated submission return it |
| Submit.RecordMeansSuccess | operator-services/coordinator/src/server.ts:7351-7372 | the same for every completed artifact on disk |
| Submit.OneTransactionPerRequest | operator-services/coordinator/src/server.ts:7152-7211 | all completed replies for a request carry one transaction hash |
| Submit.SettledIsFinal | operator-services/coordinator/src/server.ts:7219-7296 | once a transaction is on record no retry calls the relayer, even if it aborted on chain |
| Submit.AtMostOnceExactly | operator-services/coordinator/src/server.ts:7630-7669 | at most one real acceptance in the runs that lose none, if and only if the path is empty or holds a candidate with a chain node configured, or holds a completed artifact |
| Submit.AtMostOnceEverExactly | operator-services/coordinator/src/server.ts:7430-7451 | with lost acceptances included (the submitter throws after the broadcast, or a crash), at most one if and only if a transaction is already on record |
| Submit.LostReplyTwice | operator-services/coordinator/src/server.ts:7430-7451 | a run with two acceptances, both lost, from any path without such a record, the empty one included |
| Submit.AbortSettles | operator-services/coordinator/src/server.ts:7531-7560 | a run from the empty disk whose transaction aborts on chain and settles the path |
| Submit.StubMakesUnsafe | operator-services/coordinator/src/server.ts:7393-7417 | the route itself can write the stub that makes a path unsafe |
| Maintenance.NormalizeTxHashes | operator-services/coordinator/src/bridge_maintenance_pipeline.ts:371-381 | character by character: every entry that is white space, 0x, 64 hex digits and white space is there in lower case, nothing else, and nothing twice |
| Maintenance.NormalizedExactly | operator-services/coordinator/src/bridge_maintenance_pipeline.ts:371-381 | exactly the well-formed hashes |
| Maintenance.AddHashesExactly | operator-services/coordinator/src/bridge_maintenance_pipeline.ts:371-381 | each of them once |
| Maintenance.MergedHashes | operator-services/coordinator/src/bridge_maintenance_pipeline.ts:190-205 | the merged rerun context holds, up to normalization, the hashes triggered before it and the new ones, in order |
| Maintenance.NewestRepoRootWins | operator-services/coordinator/src/bridge_maintenance_pipeline.ts:190-205 | the newest non-empty repoRoot of the merged triggers |
| Maintenance.NewestStateRootWins | operator-services/coordinator/src/bridge_maintenance_pipeline.ts:190-205 | the newest stateRoot that is present |
| Maintenance.NextRunGetsMerged | operator-services/coordinator/src/bridge_maintenance_pipeline.ts:123-205 | the contexts triggered during a run are merged in order into the one the next run starts with |
| Maintenance.Pipeline.TriggerBridgeMaintenance | operator-services/coordinator/src/bridge_maintenance_pipeline.ts:123-151 | starts a run or queues one rerun |
| Maintenance.Pipeline.DrainPipelineRuns | operator-services/coordinator/src/bridge_maintenance_pipeline.ts:162-182 | starts the queued rerun or clears both slots |
| Maintenance.NextRunGetsAll | operator-services/coordinator/src/bridge_maintenance_pipeline.ts:123-205 | at most one run; the next one gets exactly the hashes triggered meanwhile, de-duplicated and in order |
| Maintenance.IdleMeansDone | operator-services/coordinator/src/bridge_maintenance_pipeline.ts:123-205 | when idle, every well-formed hash has been handed to a run |
| Maintenance.EveryHashReachesRun | operator-services/coordinator/src/bridge_maintenance_pipeline.ts:123-205 | when idle, every triggered entry that reads as a hash, character by character, has been handed to a run |
| Maintenance.RunsGetOnlyTriggered | operator-services/coordinator/src/bridge_maintenance_pipeline.ts:123-205 | and a run is handed nothing else |
| Maintenance.GapLosesHash | operator-services/coordinator/src/bridge_maintenance_pipeline.ts:147-150 | a trigger between drain exit and finally would be lost |
| ObservedDeposits.FindObservedProvenance | operator-services/coordinator/src/server.ts:9222-9316 | a vector exactly when every cursor is covered and the first hashes differ; entry i has depositCount i+1 |
| ObservedDeposits.OrderIrrelevant | operator-services/coordinator/src/server.ts:9249-9311 | the result is the same for every listing order if and only if nothing is asked for, a cursor is uncovered, the retries at each cursor carry one hash, or no choice of retries is accepted |
| ObservedDeposits.OrderOfHonestArtifacts | operator-services/coordinator/src/server.ts:9249-9311 | when hashes bind the cursor and every cursor is covered: if and only if the retries at each cursor carry one hash |
| ObservedDeposits.OrderMatters | operator-services/coordinator/src/server.ts:9290-9311 | two retries at one cursor are accepted in both orders, with different vectors |
| CaRegistration.AssembleTranscript | operator-services/deop-protocol/src/ca_registration_v2.ts:227-360 | accepts exactly the well-formed inputs; which error the others get |
| CaRegistration.EverySlotContributes | operator-services/deop-protocol/src/ca_registration_v2.ts:302-325 | the contribution slots are exactly the selected slots |
| CaRegistrationBinding.PreimageIs | operator-services/deop-protocol/src/ca_registration_v2.ts:152-208 | the layout of the preimage |
| CaRegistrationBinding.PreimageBinds | operator-services/deop-protocol/src/ca_registration_v2.ts:152-208 | well-formed inputs with one preimage have the same epoch, chain and hashes and, up to order, the same slots and contributions |
| CaRegistration.OrderIndependent | operator-services/deop-protocol/src/ca_registration_v2.ts:152-208 | the hash preimage is the same under every permutation of slots and of contributions |
| Encoding.EncodeDecode | operator-services/crypto-worker-rust/src/transfer_sigma_reference.rs:342-346 | canonical and reducing decoding give back an encoded residue |
| Encoding.DecodeEncode | operator-services/crypto-worker-rust/src/transfer_sigma_reference.rs:342-346 | canonical decoding accepts one encoding per residue |

## Left out

- Hex parsing, JSON parsing, request validators, HTTP routing, subprocesses, HPKE and file permissions: adapters around the modelled code. `hexToBytes` has already been applied to the fields of messages; in the registration model hex normalisation is a parameter.
- Bulletproof proving and verifying, FROST, SHA-2 and keccak internals, and the probability that a challenge is zero or collides.
- Primality of the concrete Q, and the concrete points G and H: hypotheses that q is prime and G is not zero stand for them.
- Chunks.ChunkedAmountToChunks: a shift by 128 or more is the error ShiftOverflow, which stands for the panic of a checked build; a build without overflow checks masks the shift instead.
- Chunks.ChunksToAmount: the same for its left shift.
- BigUints.BigUint.FromBytesLe: the limb is assembled by addition of disjoint bytes where the source uses bitwise or.
- TransferSigma.PsiTransfer: a statement with fewer points than the layout needs is excluded; the source panics on it.
- TransferSigma.VerifyTransferSingleParty: the same, and statement points are canonical residues, as decompression guarantees.
- Prng.CounterPrng.TryNextScalar: one round of the rejection loop; the loop itself has no termination bound.
- ThresholdProof.FinalizeHonest: the user's and the workers' parts are hypotheses about what honest parties send (ThresholdProof.PartialDkCommitments and ThresholdProof.WorkerShare show that the workers' code sends them); their transport and the transcript-hash comparisons are not modelled.
- ChallengeBinding.PokChallengeBinds: contexts of different lengths are excluded, since neither the context nor the optional leg carries a length; the protocol fixes both per chunk class.
- CaRegistration.AssembleTranscript: a field that the hex parser itself rejects is refused with InvalidShape, like one of the wrong length.
- Submit.Coordinator.Submit: response bodies, event resynchronisation and the maintenance trigger are not modelled; the tmp-file retry loop of the atomic write is one step; the submit lock serialises sessions within one process, and a second coordinator process is outside the model.
- Submit.IsCandidate: the source also requires the recorded txHash to be a non-empty string; the model's transaction hashes have no empty one, so a record with an empty hash, which the route never writes unless the relayer returns one, is outside the model.
- Maintenance.Pipeline.DrainPipelineRuns: a rejected run is not modelled, since the pipeline catches its own errors; the logger is left out, and lower-casing is ASCII, the only case folding that can produce a hex digit.
- ObservedDeposits.FindObservedProvenance: the identity test on an artifact is a parameter; a fractional depositCount, which is never looked up, counts as no match; the transcript paths returned beside the hashes, which no caller reads, are not modelled.
- InFlightLock.InFlight.TryAcquire: the clock is the parameter that says whether the deadline has passed.
- bcs_serialize_transfer_session, build_statement, the per-position parity verifier, verify_partial_against_shares: fixed-width or repeated forms of what is modelled.
- canonical_transcript_bytes: colon-separated fields may themselves contain colons, so it is not injective in general and nothing is claimed for it.
