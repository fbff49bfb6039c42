# Private set union over Curve25519: a verified model

This project models the algorithmic core of a private set union system and proves what it is
for. Each module follows one part of the system.

* **Field and curve library.** Residues modulo p = 2^255 - 19 are integers compared by
  congruence (`Arith`). `FieldAlgorithms` has the addition chains, inversion and the merged
  square root of a ratio; `EdwardsCodec` point compression and the passage between the Edwards
  and Montgomery forms; `Ladder` the Montgomery ladder, derived from the chord and tangent law
  with every exceptional case; `Recoding` and `BasepointTable` the signed-digit recodings and
  fixed-base multiplication; `BatchInvert` simultaneous inversion for field elements and, in
  Montgomery form, for scalars; `Clamping` the clamped secret keys.
* **Item encoding.** `Feistel`, `Elligator` and `Mapping`: a keyed permutation of 32-byte
  blocks, the inversion-free Elligator 2 map and its inverse, and the search over the eight
  torsion cosets that undoes hashing. `MappingRules` spells out formats, signs and the order of
  the search.
* **Arguments of knowledge.** `ShuffleArgument`, `KnownShuffle`, `AdaptedShuffle` and
  `BatchSoundness`: Pedersen multi-commitments, the known-content and adapted shuffle arguments
  and the batched Diffie-Hellman argument, for honest and dishonest provers. `ShuffleSoundness`
  and `ShuffleTightness` settle how many challenges the verifier's final check accepts;
  `ShuffleExtraction` and `ShuffleVerdicts` turn accepting verdicts into an opening of the
  commitment or two openings of one commitment, and `ShuffleLines`, `ShuffleRelation` and
  `ShuffleWitness` into the secret key and permutation of the whole shuffle. `Provers` says what
  honest provers send, `Transcripts` what their challenges bind, and `Cofactor` deals with points
  outside the subgroup of order l. `Permutation` has both shuffles of the system.
* **Protocols.** `TwoSided`, `TwoSidedProof` and `UnionTheorem`: the four-round two-party union
  as a state machine over two message queues, for every schedule. `AnyPartner`: one party of it
  against a partner that sends anything. `OneSided`: the one-sided
  variants over ideal oblivious transfer; `Lines` shows that both point encodings they use fit,
  and `OneSidedMalicious` adds the per-item proofs.
* **Field switching.** `Edabits` (adder and bit conversion), `FaultyDabits` (the dabit test),
  `DabitSoundness` (what that test detects), `ConversionCheck` (the cut-and-choose over both),
  `ConversionSoundness` (how many wrong values an accepted check needs) and `ConversionQueue`
  (the queues that batch the checks).
* **Circuits.** `Netlist`, `Translator` and `Bristol`: the Verilog to Bristol Fashion
  translator, the meaning it preserves, and the reader of what it prints. `BristolGrammar` says
  which files the reader accepts, and `TranslatorExample` works a small module through.

The supporting modules `Arith`, `Powers`, `Folds`, `Fermat`, `Groups`, `Squares` and
`Polynomials` prove the number and group theory used: Euclid's inverse, Fermat's little theorem,
that i and 2 are nonsquares, integer multiples and multiscalar sums in an abelian group, and that
a polynomial with as many roots modulo a prime as coefficients vanishes. `Wrappers` holds the
option and result types.

Everything rests on a few stated hypotheses, which appear as preconditions: p and the subgroup
order l are prime; the points form an abelian group of exponent dividing 8 l with affine
coordinates on the curve; for the ladder, the group adds by chords and tangents. The arguments of
knowledge are stated for any encoding that decodes to the same point; `UnionIsCorrect` and
`CompressedIsLine` derive that for compressed points. Hash functions, expanders and the block
cipher are arbitrary functions, and every random draw is an argument, so each theorem holds for
all of them.

Results where the code and its description differ:

* The shuffle arguments are complete exactly when n >= 2 or the first blinder is zero, because
  at n = 1 the entry delta_0 is overwritten with zero (`FinalCheckCompleteness`,
  `KnownCompleteness`, `AdaptedCompleteness`). No condition on the challenge is needed: with e = 0
  both sides of the final comparison vanish.
* The zero representative of the Elligator map is not recovered by the inverse
  (`ZeroIsNotRecovered`). An item that no other is confused with comes back exactly when the low
  255 bits of its encryption lie strictly between 0 and p, so neither zero nor the values from p
  to 2^255 - 1 do (`RecoveryRoundTrip`).
* The conversion queues never check the first conversion of a bit width, because the push
  creates an empty queue and drops the item (`FirstPushIsNotKept`, `AllCheckedOnlyIfNone`).
* The known-content verifier compares e^n times a polynomial of degree n in the challenge e, so
  two accepted challenges do not force the products to agree. Whatever the products, any n nonzero
  challenges are accepted together for suitable committed vectors (`AnyChallengesAccepted`); where
  the products differ, a set of nonzero challenges can be accepted exactly when it has at most n
  elements (`AcceptableUpToN`).
* The verifiers decompress points without testing that they lie in the subgroup of order l, so
  soundness holds for the points multiplied by 8 and not for the points themselves
  (`TorsionUnnoticed`, `TorsionKeyAnswered`, `TorsionCommitmentOpened`).
* The receiver of the malicious one-sided protocol recomputes every challenge, but the comparison
  with the received one is disabled in the code. `CheckLoop` returns what it would decide.
* A repetition of the dabit test is meant to pass when an even number of wrong dabits is selected.
  For everything a prover can commit it does so exactly when the bit c1, the masks, the selected
  wrong dabits whose value has the parity of their bit, and the wraps of tau around p add up to an
  even number (`CountsExactly`). The code checks that the committed products are those of the masks
  and not that they are zero, that the masks are bits, or that dabit values are; so the dabit
  (0, 2) passes under honest masks for every selection (`OutsideValuePasses`), and the dabit (0, 1)
  passes the whole test under the mask -1 (`WrongDabitAccepted`). Were the products also zero, a
  wrong bit-valued dabit would pass for exactly one choice of selections in 2^38
  (`TestSoundness`).
* The starting carries of the adder are committed by the prover and nothing opens them or checks
  that they are zero. Every sum is therefore exact only up to its starting carry
  (`BitAddCarry`), a conversion passes when its error and its partner's add up to that carry
  (`PassesIffErrorsCancel`), and a conversion that is off by one can pass with right partners
  (`StartingCarryPasses`). Conversions with any other error need wrong partners in every bucket
  (`WrongForFarOff`).
* The scalar batch inversion, outside its debug assertion, turns every entry and the result to
  zero when any input is zero (`ScalarBatchInvert`).

## Model

| member | source | states |
|---|---|---|
| `UnionTheorem.UnionIsCorrect` | src/twosided.rs:218-366 | for any cipher key, key bytes, permutations, coins and schedules, over compressed points of the curve, with n >= 2 items per side that can be recovered and told apart: no check rejects, nobody crashes or blocks, and each output is the other's items minus one's own |
| `UnionTheorem.SettingIsValid` | curve25519-dalek/src/edwards.rs:194-241 | point compression meets everything the protocol and the arguments ask of an encoding |
| `Clamping.ClampedKey` | curve25519-dalek/src/scalar.rs:1386-1391 | a clamped string is 8k with 2^251 <= k < 2^252, and clamping is idempotent |
| `Clamping.ClampedBelow255` | curve25519-dalek/src/scalar.rs:1386-1391 | a clamped string is below 2^255, the range of the ladder |
| `Clamping.ClampedValue` | curve25519-dalek/src/scalar.rs:1386-1391 | for the value v of the input, the clamped value is 2^254 + 8 ((v / 8) mod 2^251) |
| `TwoSidedProof.EveryRunIsCorrect` | src/twosided.rs:218-366 | every schedule keeps the network correct: safe, never blocked before both return, right outputs |
| `TwoSidedProof.EveryRunIsSafe` | src/twosided.rs:218-366 | the invariant of all reachable states: inboxes and queues are consecutive pieces of two fixed scripts |
| `TwoSidedProof.NeverBlocks` | src/twosided.rs:229-340 | until both have returned some party can move, every step makes progress or changes nothing, and eighteen moves end the run |
| `TwoSidedProof.NewPartyIsHonest` | src/twosided.rs:41-73 | keys, inverse keys, permutation pair and hint of a new party satisfy the relations the protocol needs, and it keeps its input, permutations, weights and nonce |
| `TwoSidedProof.MatchMeansCommon` | src/twosided.rs:149-191 | an unblinded point is among the other party's points exactly when its item is common |
| `TwoSidedProof.FinishHonest` | src/twosided.rs:194-215 | the last step recovers exactly the items not in one's own set |
| `TwoSidedProof.ExpectedIsDifference` | src/twosided.rs:396-437 | the output is, as a multiset, the other's items without one's own |
| `AnyPartner.EveryRunAsSpecified` | src/twosided.rs:218-366 | one party against a partner that sends anything at any time: it sends round 3 only after the digest matched, round 4 only after the shuffle proof was accepted, and returns items only after the last proof was accepted; what it sends and returns is described point by point, and it ends without items exactly at a failed digest, a rejected proof or a message of the wrong kind |
| `AnyPartner.RefusalStops` | src/twosided.rs:97-191 | where the third or fourth message may not be sent, the next move ends the run: without items for a failed digest or proof, with a crash otherwise, and nothing more is sent or read |
| `AnyPartner.NothingLost` | src/twosided.rs:218-366 | what has been read and what waits is what the partner sent, in order |
| `AnyPartner.AnswerThree` | src/twosided.rs:97-146 | round 3 is computed if and only if the points decode, their digest is that of round 1 and the sizes fit; the points are multiplied by the key and reordered by the inverse permutation |
| `AnyPartner.AnswerFour` | src/twosided.rs:149-191 | round 4 is computed if and only if the points decode and their shuffle proof is accepted; it names exactly the positions that do not match, with their unblinded points |
| `AnyPartner.FourthMeansFork` | src/twosided.rs:149-191 | a party that sends round 4 under three choices of its weights has received an answer to the known-content challenge, and the key, third and point equations hold up to points of order dividing 8 |
| `AnyPartner.AnswerEnd` | src/twosided.rs:194-215 | items are returned if and only if indices and points are in order and the last proof is accepted |
| `TwoSided.GenLoop` | src/twosided.rs:76-94 | the loop yields the blinded points, their encodings and the digest over them |
| `TwoSided.FilterLoop` | src/twosided.rs:171-187 | the loop keeps exactly the unmatched positions, with their points and encodings |
| `TwoSided.RevealLoop` | src/twosided.rs:206-212 | one recovered item per received point, in order |
| `KnownShuffle.KnownProver` | src/aok.rs:182-254 | the prover's loops build the proof of the specification |
| `KnownShuffle.VerifyKnown` | src/aok.rs:258-322 | the verifier computes the specified verdict: responses are zipped to the shorter vector, and it panics exactly where decoding, the commitment's length or an index fails |
| `KnownShuffle.KnownCompleteness` | src/aok.rs:144-322 | honest proofs are accepted for every weight and challenge if and only if n >= 2 or d_0 = 0, otherwise rejected |
| `KnownShuffle.KnownVerdictMeans` | src/aok.rs:258-322 | for every proof: accepted if and only if the points decode, the zipped responses fit, the batched commitment equation holds and the recursion ends at e prod(m_i - x); rejected exactly where one of the equations fails first |
| `Provers.KnownHintIs` | src/aok.rs:144-179 | the blinders delta start with d_0, end with zero and are the draws in between, and the two commitments are those to d and to -delta_i d_(i+1) |
| `Provers.KnownProofIs` | src/aok.rs:182-254 | the honest proof entry by entry: each response is the challenge times a secret plus its blinder, and the challenges hash everything sent before |
| `KnownShuffle.FoldLoop` | src/aok.rs:305-311 | the loop computes the F recursion |
| `ShuffleTightness.AcceptableUpToN` | src/aok.rs:304-319 | for every a, m and x whose products prod(a_i - x) and prod(m_i - x) differ and all distinct nonzero challenges: some committed vectors with this a are accepted at all of them if and only if there are at most n |
| `ShuffleTightness.AnyChallengesAccepted` | src/aok.rs:304-319 | any n nonzero challenges are accepted together, for every a, m and x |
| `ShuffleSoundness.FewChallengesAccepted` | src/aok.rs:304-319 | for fixed committed vectors, more than n accepted nonzero challenges force the products to agree |
| `ShuffleSoundness.AgreeIffRearranged` | src/aok.rs:312-315 | the products agree modulo l at n different x if and only if a is a rearrangement of m modulo l |
| `ShuffleSoundness.SoundUnlessRearranged` | src/aok.rs:304-319 | for fixed committed vectors, unless a is a rearrangement of m modulo l, more than n challenges are accepted for fewer than n values of x |
| `ShuffleExtraction.ExtractionIsSound` | src/aok.rs:258-322 | from transcripts with n first and n + 1 second challenges each, the extractor computes an opening of c to a rearrangement of m or two openings of one commitment |
| `ShuffleVerdicts.KnownSoundness` | src/aok.rs:258-322 | the same from proofs that the verifier accepts under several transcript hashes, each for two weights |
| `ShuffleWitness.ShuffleIsSound` | src/aok.rs:450-571 | soundness of the shuffle: transcripts for challenge vectors z that span, more than 2 n^2 values of delta each and the known-content trees below, determine s and a permutation with pk = s G and h_pi(i) = s g_i up to points of order dividing 8, or two openings of one commitment are among those computed from them |
| `ShuffleWitness.VerdictIsFork` | src/aok.rs:450-571 | a shuffle proof accepted under three pairs of weights meets every condition that such a transcript must |
| `ShuffleWitness.RoundExtracts` | src/aok.rs:450-571 | one round gives openings of c_pi, c_z and c_d, the key, x = s zeta + d, and a permutation along which zeta reads z |
| `ShuffleLines.LinesMatch` | src/aok.rs:497-530 | if zeta_i + delta p_i rearranges z_j + delta j for more than 2 n^2 values of delta, p is a permutation pi and zeta_i = z_pi(i) |
| `ShuffleRelation.RelationHolds` | src/aok.rs:563-568 | the equation over g and h for spanning vectors z, with one key, permutation and blinding, forces h_pi(i) = s g_i for every i |
| `ShuffleVerdicts.AdaptedIsCorrect` | src/aok.rs:450-571 | a shuffle proof accepted under three pairs of weights answers the known-content challenge for z_i + delta i, and its third commitment equation holds |
| `ShuffleExtraction.ExtractOpenings` | src/aok.rs:287-302 | two accepting responses to different challenges open c and c_d, up to points of order dividing 8, to vectors a and d with both responses of the form e a + d |
| `ShuffleExtraction.ExtractOpeningsInSubgroup` | src/aok.rs:287-302 | for c of order l the openings are exact |
| `ShuffleExtraction.TorsionCommitmentOpened` | src/aok.rs:287-302 | a commitment moved by a point of order dividing 8 is answered at the challenges 8 and 16 and commits to nothing |
| `ShuffleArgument.FInvariant` | src/aok.rs:304-311 | F_i = e a_i + delta_i at every step, and F_i = 0 after the first division when e = 0 |
| `ShuffleArgument.FinalCheckCompleteness` | src/aok.rs:304-319 | the final comparison holds if and only if n >= 2 or d_0 = 0 |
| `ShuffleArgument.KnownCommitments` | src/aok.rs:290-302 | the two commitment equations of an honest proof |
| `AdaptedShuffle.AdaptedCompleteness` | src/aok.rs:325-571 | when h[pi(i)] = s g[i], the verifier accepts the prover's proof if and only if n >= 2 or the first blinder is zero |
| `AdaptedShuffle.AdaptedVerdictMeans` | src/aok.rs:450-571 | for every proof: accepted if and only if the points decode, the sizes fit, and the final comparison, the key equation, the batched equation and the equation over g and h hold; rejected exactly where one of them fails first |
| `AdaptedShuffle.DerivedMeans` | src/aok.rs:450-496 | the challenges and commitments the verifier derives, each as a hash or sum of what it received |
| `Provers.AdaptedHintIs` | src/aok.rs:325-362 | c_pi commits to the permutation, c_d to d, each under its own draw |
| `Provers.AdaptedProofIs` | src/aok.rs:365-447 | the honest shuffle proof: every commitment, the responses s z_pi(i) + d_i, s delta + u and (s r_z + r_d) delta + u_2, and the known-content proof for z_i + delta i |
| `AdaptedShuffle.ReindexedSum` | src/aok.rs:563-568 | the sum over g and h collapses to the committed blinding after reindexing by the permutation |
| `BatchSoundness.BatchSound` | src/aok.rs:544-561 | over the whole group, up to points of order dividing 8: if one of the first two equations fails, fixing the other weight leaves at most one accepting value modulo l; if both hold, so does the third |
| `BatchSoundness.BatchSoundInSubgroup` | src/aok.rs:544-561 | the same with exact equations when the combined commitments have order l |
| `BatchSoundness.TorsionUnnoticed` | src/aok.rs:544-561 | an error of order dividing 8 in the first commitment is accepted at the weights 8 and 16 |
| `BatchSoundness.DdhCompleteness` | src/aok.rs:574-651 | honest batched Diffie-Hellman proofs verify |
| `BatchSoundness.DdhVerdictMeans` | src/aok.rs:610-651 | for every proof: panics if and only if the point does not decode or the lengths differ, and otherwise accepts if and only if the two sides of the equation are equal |
| `BatchSoundness.DdhSoundness` | src/aok.rs:610-651 | from two proofs with one commitment that the verifier accepts under two transcript hashes with equal weights and different challenges: s with 8 (pk + sum a_i h_i) = s 8 (G + sum a_i g_i) |
| `BatchSoundness.DdhResponseUnique` | src/aok.rs:610-651 | with an honest statement and commitment, where G + sum a_i g_i is not zero, a response is accepted if and only if it is the honest one modulo l |
| `Provers.DdhProofIs` | src/aok.rs:574-607 | the commitment is r (G + sum a_i g_i) and the response delta s + r |
| `Provers.DdhIsSimulated` | src/aok.rs:574-607 | zero knowledge: when the hash answers delta, the honest proof with response z is one that can be written down without the key, and every z is the response of some nonce |
| `BatchSoundness.DdhSpecialSoundness` | src/aok.rs:610-651 | two accepting answers to different challenges give s with 8 (pk + sum a_i h_i) = s 8 (G + sum a_i g_i), for all points |
| `BatchSoundness.DdhSpecialSoundnessInSubgroup` | src/aok.rs:610-651 | without the factor 8 for points of order l |
| `BatchSoundness.TorsionKeyAnswered` | src/aok.rs:610-651 | a key s G + T with T of order dividing 8 answers the challenges 8 and 16 and is no multiple of G |
| `Cofactor.OpensExactly` | src/aok.rs:287-302 | on points of order l an opening up to the cofactor is an opening |
| `Transcripts.SigmaBinds` | src/twosided.rs:76-114 | under a hash without collisions equal digests of round 1 mean equal keys and points |
| `Transcripts.ChallengeZBinds` | src/aok.rs:384-398 | equal seeds of z mean equal keys, point lists and first commitments |
| `Transcripts.ChallengeDeltaBinds` | src/aok.rs:413-422 | equal delta mean equal responses x modulo l, commitments and seeds |
| `Transcripts.KnownXBinds` | src/aok.rs:193-199 | equal first challenges mean equal commitments and known vectors modulo l |
| `Transcripts.KnownEBinds` | src/aok.rs:220-226 | equal second challenges mean equal commitments and first challenges |
| `Transcripts.DdhSeedBinds` | src/aok.rs:585-595 | equal weights of the Diffie-Hellman argument mean equal keys and points |
| `Transcripts.DdhDeltaBinds` | src/aok.rs:600-603 | equal challenges of it mean equal commitments and seeds |
| `Permutation.RandomPermutation` | src/aok.rs:123-141 | for every sequence of draws, perm and inv end as mutually inverse tables |
| `Permutation.SwapStep` | src/aok.rs:132-138 | each exchange keeps the tables mutually inverse |
| `Permutation.EveryArrangementDrawn` | src/aok.rs:123-141 | every permutation is the result of some draws |
| `Permutation.FisherYatesDrawsUnique` | src/aok.rs:123-141 | draws that differ anywhere from position 1 up give different permutations |
| `Permutation.GeneratePermutation` | swanky-dev/diet-mac-and-cheese/src/edabits.rs:77-89 | the in-place loop computes the specified rearrangement |
| `Permutation.SattoloIsOneCycle` | swanky-dev/diet-mac-and-cheese/src/edabits.rs:77-89 | positions always move along one single cycle |
| `Permutation.SattoloMovesEverything` | swanky-dev/diet-mac-and-cheese/src/edabits.rs:77-89 | among two or more distinct elements no slot keeps its own |
| `Permutation.EveryCycleDrawn` | swanky-dev/diet-mac-and-cheese/src/edabits.rs:77-89 | every arrangement that moves the entries along one single cycle through all slots is the result of some valid draws |
| `Permutation.SattoloDrawsUnique` | swanky-dev/diet-mac-and-cheese/src/edabits.rs:77-89 | valid draws that differ anywhere from position 1 up arrange different entries differently |
| `Feistel.MutualInverses` | src/mapping.rs:163-202 | encryption and decryption undo each other for any round function |
| `Feistel.ThreeRounds` | src/mapping.rs:141-181 | encryption as equations in the cipher: with K_i the encrypted block i 0...0, three times (L, R) becomes (R, L xor AES_{K_i}(R xor K_i)) |
| `Feistel.XorBlockBit` | src/mapping.rs:168-178 | a bit of the exclusive or is set if and only if the two bits differ |
| `Feistel.EncryptBlock` | src/mapping.rs:163-181 | the in-place rounds compute the permutation |
| `Feistel.DecryptBlock` | src/mapping.rs:184-202 | the in-place rounds compute the inverse permutation |
| `Elligator.FormsAgree` | src/mapping.rs:214-247 | the inversion-free map equals the library's Elligator encoding on every field element |
| `Elligator.FieldToMontOnCurve` | curve25519-dalek/src/montgomery.rs:256-276 | every image is the coordinate of a curve point, so conversion to Edwards form succeeds |
| `Elligator.MontToFieldFinds` | src/mapping.rs:251-284 | for r nonzero the inverse returns r0, r1 with r among their signed values |
| `Elligator.ZeroIsNotRecovered` | src/mapping.rs:251-284 | the image of zero is refused by the inverse |
| `Elligator.RepresentativesMapBack` | src/mapping.rs:251-284 | both representatives of an accepted on-curve coordinate map back to it |
| `Mapping.HashIsDefined` | src/mapping.rs:37-45 | hashing an item never fails and lands on the Elligator image |
| `Mapping.RecoverFromPoint` | src/mapping.rs:49-63 | the loop returns the first match over the eight cosets, or zeros |
| `Mapping.CheckBytesInPlace` | src/mapping.rs:66-79 | both top-bit variants are decrypted and their padding compared in order |
| `Mapping.RecoveryFinds` | src/mapping.rs:49-112 | from any point that equals the hash up to torsion, a match is found |
| `Mapping.RecoveryIsSound` | src/mapping.rs:49-112 | any match hashes to the input or its opposite, up to torsion |
| `Mapping.RecoveryRoundTrip` | src/mapping.rs:37-112 | for an item no other is confused with, and every torsion shift of its hash, the item comes back if and only if the low 255 bits of its encryption lie in (0, p) |
| `MappingRules.HashReads` | src/mapping.rs:37-45 | the hashed element is the encryption of the item followed by sixteen zero bytes, read without its bit 255 |
| `MappingRules.HashIsEven` | src/mapping.rs:287-289 | of the two points with the hashed coordinate, hashing takes the one whose x is even |
| `MappingRules.RepresentativesAre` | src/mapping.rs:251-284 | the two representatives are the even r0, r1 with 2 u r0^2 = -(u + a) and 2 (u + a) r1^2 = -u |
| `MappingRules.CheckItemIsFirst` | src/mapping.rs:66-112 | the item comes from the first of r0, -r0, r1, -r1, each without and then with bit 255, that decrypts to sixteen bytes and their padding |
| `MappingRules.SearchIsFirst` | src/mapping.rs:49-63 | the search takes the first of the eight torsion translates with a match |
| `FieldAlgorithms.Pow22501Correct` | curve25519-dalek/src/field.rs:121-155 | the chain computes the powers 2^250 - 1 and 11 |
| `FieldAlgorithms.ChainExponents` | curve25519-dalek/src/field.rs:206-229 | the chains compute the powers p - 2 and (p - 5)/8 |
| `FieldAlgorithms.InvertCorrect` | curve25519-dalek/src/field.rs:206-215 | the inverse of every nonzero element, zero at zero |
| `FieldAlgorithms.SqrtRatioCorrect` | curve25519-dalek/src/field.rs:243-289 | the nonnegative root of u/v or of i u/v with the flag that says which, in all four cases of the contract |
| `FieldAlgorithms.SqrtRatioUnique` | curve25519-dalek/src/field.rs:230-289 | the four-case contract determines flag and root: whatever satisfies it is what the routine returns |
| `FieldAlgorithms.IIsNonsquare` | curve25519-dalek/src/field.rs:230-242 | i and -i have no square root, so the flag is determined |
| `MappingRules.NegativeIsLowBit` | curve25519-dalek/src/field.rs:101-104 | an element is negative when the lowest bit of its first byte is set |
| `EdwardsCodec.DecompressCompress` | curve25519-dalek/src/edwards.rs:194-241 | decompression undoes compression on every curve point |
| `EdwardsCodec.EncodeDecode` | curve25519-dalek/src/edwards.rs:194-241 | what decodes is on the curve, and re-encodes to the same string if and only if y is reduced and the sign bit of x = 0 is clear |
| `EdwardsCodec.DecodeEncode` | curve25519-dalek/src/edwards.rs:566-575 | the affine form of the same round trip |
| `EdwardsCodec.CurveConstantsAreValid` | curve25519-dalek/src/backend/serial/u64/constants.rs:35-103 | the library's constants satisfy the relations assumed of a, d and i |
| `Mapping.DecodeEncodePoint` | curve25519-dalek/src/edwards.rs:194-241 | every group element is decoded back from its 32-byte encoding |
| `EdwardsCodec.ToEdwardsCorrect` | curve25519-dalek/src/montgomery.rs:217-247 | conversion succeeds exactly for coordinates of curve points and gives a point of that coordinate |
| `EdwardsCodec.ToEdwardsOfMontgomeryU` | curve25519-dalek/src/montgomery.rs:217-247 | converting a point's coordinate back gives the point up to sign |
| `EdwardsCodec.ToMontgomeryIsMontgomeryU` | curve25519-dalek/src/edwards.rs:553-563 | the projective quotient is (1 + y)/(1 - y) |
| `Ladder.DifferentialLaw` | curve25519-dalek/src/montgomery.rs:328-381 | x(P+Q) x(P-Q) (xQ - xP)^2 = (xP xQ - 1)^2 from the chord law |
| `Ladder.DoublingLaw` | curve25519-dalek/src/montgomery.rs:328-381 | x(2P) 4 f(x) = (x^2 - 1)^2 from the tangent law |
| `Ladder.DoubleStep` | curve25519-dalek/src/montgomery.rs:343-381 | the step takes u(P) to u(2P), identity and points of order two included |
| `Ladder.AddStep` | curve25519-dalek/src/montgomery.rs:343-381 | the step takes u(P), u(Q), u(P-Q) to u(P+Q) in every case with u(P-Q) nonzero |
| `Ladder.LadderStep` | curve25519-dalek/src/montgomery.rs:172-181 | the pair holds [k]D and [k+1]D in the order given by the last bit |
| `Ladder.MulBitsBe` | curve25519-dalek/src/montgomery.rs:161-189 | the loop with its conditional swaps computes the ladder function |
| `Ladder.LadderPairHolds` | curve25519-dalek/src/montgomery.rs:172-181 | after any bits with value k the pair holds [k]D and [k+1]D, or the degenerate pair when u = 0 |
| `Ladder.LadderIsCorrect` | curve25519-dalek/src/montgomery.rs:161-189 | for every bit string and every point the ladder takes u_0(D) to the encoding of u_0([n]D), on the curve and on its twist, u = 0 included |
| `Ladder.MulUIsCorrect` | curve25519-dalek/src/montgomery.rs:400-405 | multiplication by any scalar below 2^255 |
| `Ladder.AffineOfRep` | curve25519-dalek/src/montgomery.rs:322-325 | reading off the affine coordinate of a represented point |
| `Recoding.Naf` | curve25519-dalek/src/scalar.rs:849-973 | for widths 2 to 8: digits sum to the scalar with no carry left, nonzero digits are odd and below 2^(w-1) in size, and any w consecutive digits hold at most one nonzero |
| `Recoding.NonAdjacentForm` | curve25519-dalek/src/scalar.rs:928-972 | the loop over windows, from 64-bit words |
| `Recoding.WindowIsBits` | curve25519-dalek/src/scalar.rs:937-947 | the buffer holds the scalar's bits at the position, across word boundaries |
| `Recoding.DigitFits` | curve25519-dalek/src/scalar.rs:961-967 | the wrapping i8 arithmetic gives the intended digit, also at w = 8 |
| `Recoding.NafIsUnique` | curve25519-dalek/src/scalar.rs:849-921 | the form is unique: two forms of the same width, length and value are equal, so the loop computes the only one |
| `Recoding.AsRadix16` | curve25519-dalek/src/scalar.rs:985-1018 | 64 digits in [-8, 8), the last at most 8, that sum to the scalar |
| `Recoding.AsRadix2w` | curve25519-dalek/src/scalar.rs:1059-1116 | the same for w = 5 to 8, with the final carry in its own digit at w = 8 |
| `Recoding.LastCarry` | curve25519-dalek/src/scalar.rs:1097-1113 | below 2^255 no carry leaves the last window for w < 8 |
| `Recoding.Radix2w` | curve25519-dalek/src/scalar.rs:1059-1116 | all widths 4 to 8 from the scalar's bytes, and zeros beyond the size hint |
| `BasepointTable.LookupFrom` | curve25519-dalek/src/window.rs:107-116 | entry j is (j+1) P |
| `BasepointTable.Select` | curve25519-dalek/src/window.rs:54-76 | the masked scan returns x P for every signed x in range, -128 included |
| `BasepointTable.MulByPow2` | curve25519-dalek/src/edwards.rs:1192-1202 | k doublings give 2^k P |
| `BasepointTable.Create` | curve25519-dalek/src/edwards.rs:953-963 | table i is the lookup table of 2^(2wi) B |
| `BasepointTable.OddEvenSplit` | curve25519-dalek/src/edwards.rs:1018-1030 | the odd digits shifted by one digit plus the even digits are the value |
| `BasepointTable.MulBase` | curve25519-dalek/src/edwards.rs:1014-1031 | for every group, scalar and width the table gives [scalar] B |
| `BasepointTable.CreateAndMul` | curve25519-dalek/src/edwards.rs:953-1031 | a fresh table multiplies its own basepoint |
| `BatchInvert.FieldBatchInvert` | curve25519-dalek/src/field.rs:161-196 | zeros stay, every other entry becomes its inverse, entry by entry equal to the plain inversion |
| `BatchInvert.MontgomeryInvert` | curve25519-dalek/src/scalar.rs:1150-1202 | the chain raises to l - 2 within Montgomery form |
| `BatchInvert.ScalarConstants` | curve25519-dalek/src/scalar.rs:1150-1202 | the chain's exponent is l - 2 for the actual l |
| `BatchInvert.MontgomeryMulForms` | curve25519-dalek/src/scalar.rs:788-837 | Montgomery products of Montgomery forms, and of a plain and a Montgomery form |
| `BatchInvert.ScalarInvert` | curve25519-dalek/src/scalar.rs:1205-1208 | the inverse of a nonzero scalar, zero at zero, the same residue as the power l - 2 the arguments invert by |
| `BatchInvert.ScalarBatchInvert` | curve25519-dalek/src/scalar.rs:788-837 | every entry becomes its inverse and the product of all inverses is returned; all zero if some input is |
| `OneSided.RunUnion` | src/onesided.rs:252-308 | the three messages are the two lists under the clamped keys and the receiver's list under the sender's key in permuted order; the marks say exactly which sender items are common and the receiver obtains the others, so it ends with the union |
| `OneSided.IndicatorMeansCollision` | src/onesided.rs:60-125 | an item is marked exactly when its cleared hash equals a receiver's, up to sign on the Montgomery line |
| `OneSided.IndicatorMeansCommon` | src/onesided.rs:60-125 | with hashes that tell the sets apart, marked means common |
| `OneSided.Compare` | src/onesided.rs:109-124 | the indicator loop tests membership |
| `OneSided.GenLoop` | src/onesided.rs:60-69 | the loop yields blinded and original points |
| `OneSided.ObtainedIsDifference` | src/onesided.rs:298-303 | ideal transfer delivers the sender's items minus the receiver's, in order |
| `OneSidedMalicious.ChallengeIsRecomputed` | src/onesided.rs:361-458 | for every unmatched item the recomputed truncated challenge equals the one sent |
| `OneSidedMalicious.ItemProofIs` | src/onesided.rs:361-377 | the challenge is the low half of the digest of H(x), y and H(x)^(8r), and the two halves sent are those of the number below l that is r - c k modulo l |
| `OneSidedMalicious.MatchMeans` | src/onesided.rs:434-458 | checking tests that the point decodes and that c is the low half of the digest of H(x), y and z (8 H(x)) + c y |
| `OneSidedMalicious.ProveLoop` | src/onesided.rs:361-377 | one proof (c, z0, z1) per item |
| `OneSidedMalicious.CheckLoop` | src/onesided.rs:434-458 | whether every unmarked position recomputes to the challenge received |
| `OneSidedMalicious.ItemSpecialSoundness` | src/onesided.rs:434-458 | against any sender: two matching responses with one rebuilt commitment and different challenges give s with 8 y = s 8 (8 H(x)) |
| `OneSidedMalicious.RunWithProofs` | src/onesided.rs:348-460 | the whole run with an honest sender: marks are exactly the common items, after the transfer of items, c, z0 and z1 every recomputed challenge is the one received, and the receiver ends with the union |
| `Lines.MontgomeryIsLine` | src/onesided.rs:25-125 | Montgomery coordinates multiplied by the ladder meet the encoding's requirements, the multiplication law derived from the ladder |
| `Lines.CompressedIsLine` | src/onesided.rs:128-249 | compressed Edwards points meet them too, signs included |
| `Lines.KeysAreSetUp` | src/onesided.rs:43-90 | parties made from any key bytes and permutation are set up as the protocol needs |
| `OneSided.SecretScalarIsKey` | src/onesided.rs:44-50 | the stored scalar is the clamped key divided by 8 modulo l |
| `Edabits.BitAddCarry` | swanky-dev/diet-mac-and-cheese/src/edabits.rs:229-416 | for any starting carries and products that the prover commits: the products sent to the check all hold if and only if each is the one of its carry and bits, and then every sum is exact up to its starting carry; mismatched batches are refused |
| `Edabits.SumIsUnique` | swanky-dev/diet-mac-and-cheese/src/edabits.rs:229-416 | the exact sum and its carry are functions of the two bit strings and the starting carry |
| `Edabits.ConvertBit2Field` | swanky-dev/diet-mac-and-cheese/src/edabits.rs:150-223 | each output is the opened bit plus or minus the dabit's value |
| `Edabits.ConvertedBitCorrect` | swanky-dev/diet-mac-and-cheese/src/edabits.rs:150-223 | the converted bit is right if and only if the dabit is |
| `Edabits.ConvLoop` | swanky-dev/diet-mac-and-cheese/src/edabits.rs:876-959 | accepts if and only if the products of the addition are right and every value sent to the zero check vanishes; that value is the two errors less the starting carry, less 2^m times the dabit error, signed by the actual carry of the two bit strings |
| `Edabits.CheckedValueWithCorrectDabit` | swanky-dev/diet-mac-and-cheese/src/edabits.rs:876-959 | with a correct dabit it is the sum of the two errors less the starting carry |
| `ConversionCheck.Conv` | swanky-dev/diet-mac-and-cheese/src/edabits.rs:962-1064 | for any committed edabits, dabits, masks, starting carries and products: accepts if and only if the parameters fit, the dabit test passes, and after both shuffles the opened edabits are right and in every bucket the products are right and the checked values zero; no conversions are accepted at once |
| `ConversionCheck.PassesIffErrorsCancel` | swanky-dev/diet-mac-and-cheese/src/edabits.rs:876-959 | with correct dabits and the right products a conversion passes its bucket if and only if the two errors add up to the starting carry |
| `ConversionCheck.PartnersAgree` | swanky-dev/diet-mac-and-cheese/src/edabits.rs:1036-1062 | in an accepted run with correct dabits a conversion and its partner are right together when the addition starts without a carry, and one of them is wrong when it starts with one |
| `ConversionCheck.HonestConversionAccepted` | swanky-dev/diet-mac-and-cheese/src/edabits.rs:962-1064 | an honest prover is accepted under every shuffle and selection |
| `ConversionCheck.StartingCarryPasses` | swanky-dev/diet-mac-and-cheese/src/edabits.rs:244-259 | a wrong conversion with right partner, dabit and product passes its bucket under a starting carry, which nothing opens |
| `ConversionSoundness.PositionsDiffer` | swanky-dev/diet-mac-and-cheese/src/edabits.rs:1036-1062 | different conversions or buckets use different positions, all before the opened ones |
| `ConversionSoundness.WrongRandomEdabits` | swanky-dev/diet-mac-and-cheese/src/edabits.rs:962-1064 | in an accepted run with right dabits and without starting carries exactly numBucket random edabits are wrong for each wrong conversion |
| `ConversionSoundness.WrongForFarOff` | swanky-dev/diet-mac-and-cheese/src/edabits.rs:962-1064 | whatever else is committed, in an accepted run with right dabits at least numBucket random edabits are wrong for each conversion whose error is neither 0 nor 1 |
| `ConversionSoundness.DabitsRight` | swanky-dev/diet-mac-and-cheese/src/edabits.rs:962-1064 | if conversions and random edabits are right and additions start without a carry, an accepted run leaves no dabit wrong |
| `ConversionSoundness.FewChoicesAccept` | swanky-dev/diet-mac-and-cheese/src/edabits.rs:962-1064 | with a wrong bit-valued dabit and bit masks the whole check accepts for at most one in 2^38 of the choices of selections |
| `FaultyDabits.NoWraparound` | swanky-dev/diet-mac-and-cheese/src/edabits.rs:91-122 | accepted parameters give n + 2^gamma < 2^(gamma+1) <= 2^(bits-1) < p |
| `FaultyDabits.ParametersAre` | swanky-dev/diet-mac-and-cheese/src/edabits.rs:91-122 | gamma is the bit length of n + 1, and the parameters are accepted if and only if field elements have more than 2 gamma bits |
| `FaultyDabits.SelectedAdds` | swanky-dev/diet-mac-and-cheese/src/edabits.rs:722-792 | the selected sum adds over concatenation and counts an entry exactly if it is selected |
| `FaultyDabits.MaskSumHorner` | swanky-dev/diet-mac-and-cheese/src/edabits.rs:794-854 | each mask weighs twice the one before it, the first one |
| `FaultyDabits.TauRange` | swanky-dev/diet-mac-and-cheese/src/edabits.rs:745-866 | with bit masks and bit-valued dabits the opened sum does not wrap around p |
| `FaultyDabits.CountsExactly` | swanky-dev/diet-mac-and-cheese/src/edabits.rs:606-866 | for any committed values and masks the verdict agrees with the parity of the selected wrong dabits if and only if c1, the masks, the selected hidden dabits and the wraps of tau sum to an even number; bit-valued dabits are never hidden |
| `FaultyDabits.BitMasksCount` | swanky-dev/diet-mac-and-cheese/src/edabits.rs:745-866 | with bit masks and bit-valued dabits a repetition passes if and only if "an even number of wrong dabits is selected" and "c1 is the lowest mask" are both true or both false |
| `FaultyDabits.ZeroProductsMeanBits` | swanky-dev/diet-mac-and-cheese/src/edabits.rs:606-698 | reduced masks are bits if and only if all products c(1-c) vanish modulo the prime |
| `DabitSoundness.OutsideValuePasses` | swanky-dev/diet-mac-and-cheese/src/edabits.rs:745-866 | the dabit (0, 2) passes for every selection under honest masks, without a wrap |
| `DabitSoundness.WrongDabitAccepted` | swanky-dev/diet-mac-and-cheese/src/edabits.rs:606-869 | the dabit (0, 1) passes every repetition and the product check under the masks (-1, 0), for every choice of selections |
| `DabitSoundness.HalfAccepted` | swanky-dev/diet-mac-and-cheese/src/edabits.rs:700-866 | with bit masks and a wrong bit-valued dabit, exactly half of all selections pass a repetition |
| `DabitSoundness.TestSoundness` | swanky-dev/diet-mac-and-cheese/src/edabits.rs:517-872 | if all committed products are zero, a wrong bit-valued dabit passes all repetitions for exactly one in 2^38 of the choices of selections |
| `DabitSoundness.RightDabitsIgnoreSelection` | swanky-dev/diet-mac-and-cheese/src/edabits.rs:745-866 | without a wrong dabit the verdict does not depend on the selection: it is whether c1 is the lowest mask |
| `FaultyDabits.Fdabit` | swanky-dev/diet-mac-and-cheese/src/edabits.rs:517-872 | for any committed values: refuses exactly the bad parameters and otherwise returns whether every repetition passes and every mask product is right |
| `FaultyDabits.HonestDabitsPass` | swanky-dev/diet-mac-and-cheese/src/edabits.rs:517-872 | honest dabits pass whatever is selected |
| `Edabits.ConvertBitsToField` | swanky-dev/diet-mac-and-cheese/src/edabits.rs:42-50 | doubling and adding from the top gives the integer of the bits |
| `ConversionQueue.Backend.Convert` | swanky-dev/diet-mac-and-cheese/src/backend_multifield.rs:316-350 | one conversion extends the run and keeps the state the run's state, every queue below 2 x 10321 |
| `ConversionQueue.Backend.FinalizeConv` | swanky-dev/diet-mac-and-cheese/src/backend_multifield.rs:626-693 | the remaining checks, width by width in increasing order; the length assertion holds |
| `ConversionQueue.RunConserves` | swanky-dev/diet-mac-and-cheese/src/backend_multifield.rs:203-350 | in every run checked plus waiting items are exactly the kept ones |
| `ConversionQueue.RunIsBatched` | swanky-dev/diet-mac-and-cheese/src/backend_multifield.rs:316-350 | queues stay below 2 x 10321 and never fall below 10321 once a check has fired |
| `ConversionQueue.EveryKeptItemIsCheckedOnce` | swanky-dev/diet-mac-and-cheese/src/backend_multifield.rs:626-693 | after finalize each kept item has been checked exactly once |
| `ConversionQueue.UnsafeOnlyWhenFew` | swanky-dev/diet-mac-and-cheese/src/backend_multifield.rs:626-693 | a check is below the safe sizes if and only if its width kept fewer than 1024 items in all |
| `ConversionQueue.FirstPushIsNotKept` | swanky-dev/diet-mac-and-cheese/src/backend_multifield.rs:210-215 | the first push of a width leaves an empty queue |
| `ConversionQueue.AllCheckedOnlyIfNone` | swanky-dev/diet-mac-and-cheese/src/backend_multifield.rs:210-215 | the checks cover all conversions of a width if and only if there were none; otherwise all but the first |
| `ConversionQueue.RunInBlocks` | swanky-dev/diet-mac-and-cheese/src/backend_multifield.rs:316-350 | for every run with batching, in closed form: check number i of a width took its kept items 10321 (i + 1) to 10321 (i + 2) with parameter 4, and the first 10321 and those past the last full block still wait |
| `ConversionQueue.RunWithoutBatching` | swanky-dev/diet-mac-and-cheese/src/backend_multifield.rs:316-350 | one check with parameter 5 per conversion, of nothing for the first of a width and of the conversion itself for every other |
| `ConversionQueue.FinalLogOf` | swanky-dev/diet-mac-and-cheese/src/backend_multifield.rs:626-693 | the last checks of one width are those of its queue |
| `ConversionQueue.FinalLogInOrder` | swanky-dev/diet-mac-and-cheese/src/backend_multifield.rs:626-693 | the last checks go through the widths in increasing order |
| `ConversionQueue.FinalChecksAre` | swanky-dev/diet-mac-and-cheese/src/backend_multifield.rs:626-693 | a queue of fewer than 10321 items is checked with parameter 5, one of up to 11344 with parameter 4, and a longer one in two parts |
| `Netlist.ExecComputesSolution` | swanky-dev/zkv/vg2bf.py:417-442 | every solution of the Verilog equations is what the emitted circuit computes on driven wires |
| `Netlist.ExecSolves` | swanky-dev/zkv/vg2bf.py:417-442 | what the emitted circuit computes solves every Verilog equation |
| `Netlist.EmittedWellDriven` | swanky-dev/zkv/vg2bf.py:366-408 | gates read only wires driven earlier and no wire has two drivers |
| `Netlist.NameTableNumbers` | swanky-dev/zkv/vg2bf.py:162-168 | distinct names get distinct numbers below the wire count |
| `Translator.TranslationIsCorrect` | swanky-dev/zkv/vg2bf.py:312-476 | for every accepted module with fewer than 10^10 gates: the file reads back as the emitted gates, every wire has one driver before its uses, input i is wire i and output k is the k-th of the last wires, what the circuit computes solves the Verilog equations, and for every solution of them the last wires carry the values of the driven outputs |
| `Translator.WireNumbers` | swanky-dev/zkv/vg2bf.py:448-476 | inputs have the first numbers and outputs the last, in order |
| `TranslatorExample.NandEmission` | swanky-dev/zkv/vg2bf.py:312-476 | the negated conjunction of two inputs over an internal wire becomes AND(0, 1, 2) and INV(2, 3) |
| `TranslatorExample.NandFile` | swanky-dev/zkv/vg2bf.py:312-476 | its file, character by character |
| `Translator.Program.Translate` | swanky-dev/zkv/vg2bf.py:448-476 | accepts exactly the good modules and leaves the printed circuit in the file |
| `Translator.Program.EmitGate` | swanky-dev/zkv/vg2bf.py:417-442 | prints exactly the specified gate or fails |
| `Translator.Program.Wire` | swanky-dev/zkv/vg2bf.py:392-408 | looks up the first pin with the label and applies the check of that label |
| `Translator.Program.RegisterWires` | swanky-dev/zkv/vg2bf.py:162-173 | succeeds exactly when no name repeats and numbers the names in order |
| `Translator.PatchedFile` | swanky-dev/zkv/vg2bf.py:357-359 | patching the count over the padded zero gives the file with that count, below 10^10 gates |
| `Translator.FileRoundTrip` | swanky-dev/bristol-fashion/src/lib.rs:299-390 | the reader parses a printed circuit back to exactly its gates and sizes |
| `Bristol.Reader.Read` | swanky-dev/bristol-fashion/src/lib.rs:299-390 | the reader accepts exactly the grammar and returns what it denotes |
| `Bristol.ReadGate` | swanky-dev/bristol-fashion/src/lib.rs:237-369 | one gate line: kind last, arities checked, nothing left over |
| `BristolGrammar.FilesAre` | swanky-dev/bristol-fashion/src/lib.rs:299-390 | the accepted files and what they denote: counts, sizes, an empty line, as many gates as announced, then empty lines only |
| `BristolGrammar.GatesAre` | swanky-dev/bristol-fashion/src/lib.rs:237-369 | the accepted gate lines of the five kinds and what they denote, field by field |
| `BristolGrammar.SizesAre` | swanky-dev/bristol-fashion/src/lib.rs:306-324 | a count followed by exactly that many numbers |
| `BristolGrammar.NumbersAre` | swanky-dev/bristol-fashion/src/lib.rs:162-168 | the numbers below 2^64 with or without one plus sign, and nothing else |
| `BristolGrammar.TokensSplit` | swanky-dev/bristol-fashion/src/lib.rs:145-154 | words end at white space and nowhere else |
| `BristolGrammar.SpacesAre` | swanky-dev/bristol-fashion/src/lib.rs:145-154 | white space is the 25 characters of Unicode's White_Space property |
| `BristolGrammar.LinesSplit` | swanky-dev/bristol-fashion/src/lib.rs:145-160 | lines end at line feeds, and a last line needs none |
| `Bristol.DecIsNumeral` | swanky-dev/zkv/vg2bf.py:424-438 | decimal notation is read back to its number |

## Left out

- Byte strings of points and field elements are their little-endian integers; limb arithmetic, curve models, SIMD backends, Straus and Pippenger multiplication are not modelled.
- Hashing (Blake2s), expansion (ChaCha), AES and oblivious transfer are arbitrary functions or ideal; probabilities are not stated, and zero knowledge only of the Diffie-Hellman argument.
- Primality of 2^255 - 19 and of l, the group laws of the curve and, for the ladder, the chord and tangent law are hypotheses.
- Sockets, threads, serialisation, timing and benchmarks are not modelled; rounds are typed messages on lossless ordered queues.
- Cutting an input byte vector into 16-byte items is not modelled: a party's input is a sequence of items.
- Permutation.SattoloMovesEverything: stated for distinct elements, because equal elements can coincide after moving.
- ConversionSoundness.WrongRandomEdabits: the exact count needs additions without starting carries, which the code does not enforce.
- ConversionCheck.Conv: edabits, dabits, masks, starting carries and products are whatever the prover committed, and the shuffle draws are arguments; message authentication codes and the per-bucket parallel channels are not modelled.
- FaultyDabits.Fdabit: the multiplication check on the mask products and the opening of committed values are ideal.
- ShuffleVerdicts.KnownSoundness: that nobody finds two openings of one commitment is a hardness assumption and is not stated; neither is how often a prover must be rerun to get the transcripts.
- ShuffleWitness.ShuffleIsSound: takes the transcripts as given, for as many items as generators and fewer than l; how a prover is rerun for them is not stated.
- Bristol.Reader.Read: all error variants are one error, and text that is not UTF-8 and the memory reserved for announced counts are not modelled.
- Translator.Program.Translate: starts from parsed declarations and gates; the Verilog tokenizer and the warning about unused wires are not modelled.
- Translator.Program.EmitGate: the per-kind counts printed in the closing summary are not modelled.
- Netlist.ExecComputesSolution: a wire that nothing drives has no value to compare.
- ConversionQueue.Backend.Convert: a failing check would end the run; the log records checks that were started.
- Ristretto, the circuit IR, memory and RAM plugins, command lines and build scripts are not modelled.
