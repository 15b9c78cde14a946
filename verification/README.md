# Shielded transfers, verified

This project models the production path of a shielded Gradido transfer and proves what the path is
for: the decay arithmetic and the circuit that proves it, one action and one bundle, the ledger over
whole runs, and the signing device with the encodings around it. The four layers are composed: the
chip theorem is used by the action, the action by the bundle, the bundle by the supply theorem of
the ledger, and the honest path runs from `build` through the device back to the verifier.

## How it is modelled

* **Integers.** `u64`, `u128` and `u32` are natural numbers with explicit bounds; wrap-around and
  truncation are written out where the program has them (`ToScalar`, `ReadVarint`, `DecodeSlot`), and
  `StepFitsU128` / `RoundFitsU128` show that the 128-bit products do not overflow.
* **Circuit.** A cell is an integer below the Pallas base modulus `P`, a gate is an integer polynomial
  that vanishes modulo `P`, a lookup is membership in the table, a range check is the running sum it
  emits. Products in constraints, and multiples of points, are repeated addition (`Times`, `Mul`), equal
  to multiplication by `TimesIsProduct` and `MulIsProduct`; this keeps nonlinear arithmetic out of the
  proofs. That `P` and `Q` have no zero divisors is a hypothesis. A proof is a witness satisfying the
  constraints.
* **Hashes.** Poseidon, MerkleCRH and the memo hash are arbitrary functions. They are not assumed
  injective, which would contradict their types; a theorem that needs it says that the queries the
  parties evaluated (`Known`) do not collide, and that no note commitment among them is 2, the empty
  leaf.
* **Points.** The curve group is cyclic of prime order, so a point is its discrete logarithm modulo
  `Q`. Coordinates and compressed encodings are functions with the stated laws.
* **Signatures and proofs.** An accepted proof comes with the witnesses it was made from, an accepted
  binding signature with its key (`Extractor`). That a bundle balances is derived from this, from the
  circuit, and from the absence of a relation between `V` and `R` in the one pair of scalars the
  bundle would give away.
* **Consistency.** `SupplyIsInhabited` exhibits hashes, a verifier and a run with an accepted spend of
  value for which all of these hypotheses hold together.
* **Ledger.** `AnchorHistory`, `NullifierSet`, `CommitmentTree` and `Ledger` are classes whose methods
  are proved against a state machine on values; `Replay` drives the objects through a run. The bridge
  tree is the list of its leaves.
* **Loops.** The traces of `decay.rs`, the table, the assignment of both chains, `read_varint`,
  `fields`, the two body parsers, `review`, `build`, `authorize`, `insert_all`, `verify` and `apply`
  are methods with loops, each proved equal to the function the lemmas speak about.
* **Randomness and clocks** are parameters.

Where the documentation and the code disagree, the model follows the code. README.md:173-175 says bit
chain and window chain agree exactly below ten billion GDD; that was only measured, and
`DifferBelowTenBillion` gives an amount of 15221.1981 GDD for which they differ, and within a year they
agree on every amount exactly when the two factors are the same number (`AgreeWhenFactorsDo`). `build`
accepts a memo whose commitment is the field element 0 (src/bundle.rs:273-276) and the device refuses
it (src/signer.rs:174-178). So the device does not accept everything that was built: `HonestTransfer`
shows that it does if and only if every memo that was given has a commitment other than 0, and
`ZeroMemoIsRefused` is the refused input.

## Modules

`Arithmetic`, `Widths`, `Field`, `Group`, `Bytes`, `Hashing` are the ground. `NativeDecay`, `DecayExact`,
`DecayProperties`, `RangeCheck`, `DecayChip` are layer one; `Notes`, `Merkle`, `ActionCircuit`,
`ActionComplete`, `Balance`, `Bundles` layer two; `TreeState`, `LedgerMachine`, `Runs`, `Supply`,
`SampleRun` layer three; `Protobuf`, `Wire`, `TransferBodies`, `NoteEncryption`, `Signer`, `SigningRequests`, `Pipeline`,
`PipelineComplete` layer four.

## Model

| member | source | states |
|---|---|---|
| NativeDecay.ShiftTraceOf | src/decay.rs:84-92 | The quotient and remainder of the value by the power of two it names, below it, with nothing left from the limit on |
| NativeDecay.ComputeDecayTrace | src/decay.rs:94-127 | The trace of the bit chain: every array holds the prefix of the chain it stands for, and the result and last remainder divide the rounded product |
| NativeDecay.ComputeBitChain | src/decay.rs:100-112 | The loop fills bits, factors and remainders with the prefixes of the bit chain |
| NativeDecay.ComputeWindowFactor | src/decay.rs:165-173 | The inner loops give the factor of one table entry as the bit chain of the shifted digit |
| NativeDecay.ComputeWindowTable | src/decay.rs:161-178 | The table holds exactly the factor of every digit of every window |
| NativeDecay.ComputeWindowedTrace | src/decay.rs:197-233 | The trace of the window chain, with its digits, factors, prefixes and remainders |
| NativeDecay.ComputeWindowedChain | src/decay.rs:204-219 | The loop fills the five windows with the prefixes of the window chain |
| NativeDecay.StepFitsU128 | src/decay.rs:107-108 | No product of a chain step overflows 128 bits |
| NativeDecay.RoundFitsU128 | src/decay.rs:114-115 | The rounded product stays below 2^127 and the result fits and never exceeds the shifted value |
| NativeDecay.DecayNeverGains | src/decay.rs:129-132 | Neither decay exceeds the value |
| DecayExact.FactorsNear | src/decay.rs:134-142 | Both factors lie below the untruncated product by less than the number of set bits of the remainder |
| DecayExact.ExactIncrement | src/decay.rs:26-53 | One second more lowers the untruncated factor by at least 24 units, more than all truncations together |
| DecayProperties.FactorsDecrease | src/decay.rs:94-238 | One second more within a year gives a strictly smaller factor in both chains |
| DecayProperties.DecayNextSecond | src/decay.rs:94-238 | One second more never makes either decay larger, across bit carries, window carries and year boundaries |
| DecayProperties.DecayMonotone | src/decay.rs:94-238 | Both decays never increase with time |
| DecayProperties.DecayValueMonotone | src/decay.rs:94-238 | Both decays never decrease with the value |
| DecayProperties.LastSecond | src/decay.rs:18-53 | In the last second of a year the bit factor is above 2^63 + 24 and the window factor above 2^63, so a new year never enlarges a value |
| DecayProperties.DecayDifference | src/decay.rs:134-142 | For every value and duration the two variants differ by at most 11 units, and by at most 1 below 2^59 |
| DecayProperties.AgreeOnTwoBits | src/decay.rs:94-238 | They are equal when the remainder has at most two set bits |
| DecayProperties.AgreeOnOneWindow | src/decay.rs:94-238 | They are equal when all set bits of the remainder lie in one window |
| DecayProperties.AgreeWhenFactorsDo | src/decay.rs:94-238 | For every duration below a year they are equal for all values below 2^63 if and only if the two factors of the duration are the same |
| DecayProperties.DifferBelowTenBillion | README.md:173-175 | A concrete amount below ten billion GDD for which the two variants differ |
| RangeCheck.ShortCheckExact | src/circuit/range.rs:28-30 | The short check holds exactly below 2^bits |
| RangeCheck.StrictWordsExact | src/circuit/range.rs:31-34 | A strict running sum exists exactly below 2^(10 words) |
| RangeCheck.TopBits | src/circuit/range.rs:31-35 | A running sum with a short check on its last element exists exactly below 2^bits |
| RangeCheck.CheckBitsExact | src/circuit/range.rs:20-36 | For every width below 254 and every cell, the emitted constraints are satisfiable if and only if the cell has that many bits |
| DecayChip.LoadTable | src/circuit/decay_chip.rs:213-243 | The loaded rows are exactly the neutral row, the powers of two and the window factors |
| DecayChip.RangeCheckedExact | src/circuit/decay_chip.rs:245-249 | The 70-bit range check is exact |
| DecayChip.RemainderCheckedExact | src/circuit/decay_chip.rs:252-254 | The 64-bit remainder check is exact |
| DecayChip.QuotientUnique | src/circuit/decay_chip.rs:251-254 | Over the field, quotient and remainder are the integer ones once the remainder has exactly 64 bits |
| DecayChip.WindowLookup | src/circuit/decay_chip.rs:183-197 | Whatever row a window lookup hits, the factor is that of the digit |
| DecayChip.WindowRowSound | src/circuit/decay_chip.rs:103-122 | A satisfied window row takes off one digit and multiplies by its factor |
| DecayChip.WindowAccumulators | src/circuit/decay_chip.rs:391-431 | The accumulators hold what is left of a remainder below 2^25 |
| DecayChip.WindowChainSound | src/circuit/decay_chip.rs:391-431 | The satisfied window chain computes the native window chain |
| DecayChip.BitRowSound | src/circuit/decay_chip.rs:124-143 | A satisfied bit row multiplies exactly when the bit is set |
| DecayChip.BitChainSound | src/circuit/decay_chip.rs:355-388 | The satisfied bit chain computes the native bit chain |
| DecayChip.DurationSound | src/circuit/decay_chip.rs:146-157 | With 40-bit times, the note is not from the future and years and remainder are the integer division |
| DecayChip.ShiftSound | src/circuit/decay_chip.rs:159-181 | The shift is right for every assignment, although the flag is not unique for 63 to 70 years |
| DecayChip.BigIsFree | src/circuit/decay_chip.rs:159-181 | For 63 to 70 years both values of the flag satisfy the constraints |
| DecayChip.RoundSound | src/circuit/decay_chip.rs:199-207 | The rounded cell is the integer rounding |
| DecayChip.DecayChipSound | src/circuit/decay_chip.rs:83-352 | Every satisfying assignment over the field has the integer decay of the note in its result cell, windowed or bit by bit |
| DecayChip.AssignWindowChain | src/circuit/decay_chip.rs:391-431 | The cells assigned row by row are those of the native trace |
| DecayChip.AssignBitChain | src/circuit/decay_chip.rs:355-388 | The same for the bit chain |
| DecayChip.WindowCellsHold | src/circuit/decay_chip.rs:391-431 | The native window trace satisfies every row, lookup and range check |
| DecayChip.BitCellsHold | src/circuit/decay_chip.rs:355-388 | The native bit trace satisfies every row and range check |
| DecayChip.TailComplete | src/circuit/decay_chip.rs:287-352 | The native values satisfy duration, shift and rounding |
| DecayChip.DecayChipComplete | src/circuit/decay_chip.rs:259-352 | For every value below 2^63 and every note that is not from the future there is a satisfying assignment with the native decay |
| Group.MulInjective | src/keys.rs:165-168 | For a point other than the identity, equal multiples have equal scalars |
| Notes.AddressDeterminesKey | src/keys.rs:123-135 | Two keys that own one address have the same ivk, nk, rivk and ak_x |
| Notes.FromParts | src/note.rs:192-240 | A note is made exactly for parts the circuit can open and an address point other than the identity |
| Notes.PackExact | src/note.rs:97-105 | The packed elements are below the modulus and can be taken apart again |
| Notes.ElementsInjective | src/note.rs:109-124 | Two notes hash the same elements only if they agree in everything but the diversifier |
| Notes.CommitmentBinds | src/note.rs:126-128 | The commitment binds every committed field |
| ActionCircuit.CommitExact | src/circuit/note_chip.rs:81-144 | The chip's constraints hold exactly for parts of exact width and their native packing |
| ActionCircuit.CommitIsNative | src/circuit/note_chip.rs:102-165 | The chip hashes the elements of the native commitment |
| ActionCircuit.NetSound | src/circuit/action_slice.rs:353-370 | The gate makes the short scalar the integer net value, without wrap-around |
| ActionCircuit.AnchorOrZero | src/circuit/action_slice.rs:366-369 | A spend of value has its root equal to the anchor |
| ActionCircuit.ActionSound | src/circuit/action_slice.rs:442-588 | A satisfied action decays the committed value to now, has the integer net, widths in range, and value 0 or the anchor as root |
| ActionCircuit.OneNoteOneNullifier | src/circuit/action_slice.rs:475-517 | Two satisfying spends expose the same nullifier if and only if they spend the same commitment |
| ActionCircuit.SameNoteSameKey | src/circuit/action_slice.rs:475-501 | Spends of one commitment are spends of one note under one nullifier key and one ak_x |
| ActionComplete.NetComplete | src/circuit/action_slice.rs:564-569 | The assigned magnitude and sign satisfy the gate and are the net value |
| ActionComplete.ActionHasWitness | src/circuit/action_slice.rs:278-315 | The native values of an honest action satisfy the whole circuit and fill the witness |
| Merkle.PathFolds | src/tree.rs:145-153 | The sibling path of every position folds to the root |
| Merkle.MembershipExact | src/circuit/action_slice.rs:599-613 | A leaf and a path fold to the root if and only if they are the padded leaf and the sibling path at that position |
| Merkle.RootDeterminesLeaves | src/tree.rs:137-142 | Trees with the same root have the same padded leaves |
| Merkle.EmptyRoots | src/tree.rs:75-84 | The table holds the recursively defined roots of empty subtrees |
| Merkle.EmptySubtree | src/tree.rs:50-55 | A subtree behind the last leaf has the root the table gives it |
| Balance.ToScalarExact | src/signature.rs:42-48 | For differences of 64-bit values the scalar is not truncated |
| Balance.NativeCommitmentAgrees | src/signature.rs:51-53 | The native value commitment is the one the circuit opens |
| Balance.CommitmentsAdd | src/signature.rs:90-97 | The sum of value commitments commits to the sums |
| Balance.BindingBalances | src/signature.rs:87-97 | Whoever knows the sum as a multiple of R has committed to values that cancel |
| Balance.NetsAdd | src/circuit/action_slice.rs:353-370 | The nets of satisfied actions add up to decayed minus created |
| Balance.BundleConservation | src/circuit/action_slice.rs:353-370 | If the actions satisfy the circuit and the nets cancel modulo the group order, decayed and created value are the same integer, and no more than was spent |
| Bundles.FirstUnsigned | src/bundle.rs:611-620 | The first action without a valid spend signature, or none exactly when all are signed |
| Bundles.VerifyBundleCrypto | src/bundle.rs:604-634 | Accepted exactly with the fixed counts and sizes, valid spend signatures, binding signature and proof |
| Bundles.AcceptedConserves | src/bundle.rs:604-634 | An accepted bundle creates exactly the decayed value of what it spends |
| TreeState.AnchorHistory.constructor | src/tree.rs:167-170 | A new history is empty, for every capacity above 0 |
| TreeState.AnchorHistory.Push | src/tree.rs:172-185 | The deque stays the last roots pushed and the counts their multiset, without a zero count, as long as the root is among the last capacity roots fewer than 2^32 times |
| TreeState.SmallCapacity | src/tree.rs:160-162 | With a capacity below 2^32 no count can overflow |
| TreeState.AnchorHistory.Contains | src/tree.rs:187-189 | A root is found if and only if it is among the last capacity roots pushed |
| TreeState.CountsPop | src/tree.rs:173-181 | Taking the oldest root off decrements its count or removes it |
| TreeState.CountsPush | src/tree.rs:182-184 | Adding a root increments its count, below 2^32 |
| TreeState.ConflictFree | src/tree.rs:206-218 | A list has no conflict exactly when its nullifiers are unspent and pairwise distinct |
| TreeState.NullifierSet.InsertAll | src/tree.rs:208-218 | All nullifiers are inserted or none, and the error is the first conflict |
| TreeState.CommitmentTree.Append | src/tree.rs:108-117 | A leaf is appended at the next position and marked exactly if its witness is to be kept, or the full tree is unchanged |
| TreeState.CommitmentTree.Witness | src/tree.rs:145-152 | Exactly a marked position has a path, and it folds the leaf there to the current root |
| LedgerMachine.VerdictOk | src/bundle.rs:555-574 | A bundle is accepted exactly with room, a recent anchor, distinct unspent nullifiers and valid cryptography |
| LedgerMachine.InsertSucceeds | src/bundle.rs:576-581 | After verification inserting the nullifiers cannot fail |
| LedgerMachine.Ledger.constructor | src/bundle.rs:538-543 | A new ledger has the empty root as its only anchor |
| LedgerMachine.Ledger.AddNote | src/bundle.rs:546-551 | One marked leaf and one root more, or an error and no change |
| LedgerMachine.Ledger.Seal | src/bundle.rs:585-586 | Sealing makes the root of the tree the newest anchor, and no count overflows |
| LedgerMachine.Ledger.Verify | src/bundle.rs:555-574 | The answer is the verdict, check by check, and nothing changes |
| LedgerMachine.Ledger.Apply | src/bundle.rs:578-588 | Either an error and no change, or all nullifiers, all leaves, none of them marked, and one root more |
| LedgerMachine.Ledger.AppendNotes | src/bundle.rs:582-584 | With room checked no append fails |
| Runs.SpendTakesLeaf | src/bundle.rs:562-573 | A proven spend of value under an anchor of the ledger is of a leaf of the ledger |
| Runs.InvariantSealed | src/bundle.rs:578-588 | Sealing a transaction keeps the invariant |
| Runs.RunInvariant | src/bundle.rs:537-589 | In every reachable state all anchors are roots of earlier trees, all accepted actions are proven, took leaves of the tree, and have pairwise distinct nullifiers that make up the set |
| Runs.SizesCount | src/bundle.rs:555-588 | Over a run the tree has one leaf per added note and two per accepted bundle, the set two nullifiers per accepted bundle |
| Runs.NoDoubleSpend | src/bundle.rs:555-588 | Over a run no nullifier is accepted twice, without any cryptographic assumption |
| Runs.Advance | src/bundle.rs:546-588 | The object makes the step of the state machine |
| Runs.Replay | src/bundle.rs:537-589 | The object goes through the states of the run |
| Supply.ActionValues | src/circuit/action_slice.rs:485-555 | The opening of the spent and of the created commitment shows the value in the cells |
| Supply.TotalIsAccounted | src/bundle.rs:546-588 | All value in the tree came in from outside or out of decayed spends |
| Supply.UnspentTake | src/bundle.rs:578-588 | Taking one more leaf takes exactly its value |
| Supply.SupplyConserved | src/bundle.rs:537-589 | Over every run, unspent value plus what decay took equals the value brought in, so unspent value never exceeds it |
| Supply.NullifierMeansSpent | src/bundle.rs:565-572 | The nullifier of any satisfying spend is in the set if and only if an accepted action spent that commitment |
| SampleRun.SupplyIsInhabited | src/bundle.rs:537-589 | There are hashes, a verifier and a run that meet the hypotheses of the supply theorems, in which five units come in and an accepted bundle spends them |
| Protobuf.ReadWritten | src/wire.rs:316-327 | Reading a varint inverts writing it, for every 64-bit number |
| Protobuf.ReadVarintLoop | src/wire.rs:316-327 | The loop, with its truncation in the tenth group, is the specification |
| Protobuf.FieldsLoop | src/wire.rs:331-352 | The loop over the fields is the specification and always consumes input |
| Protobuf.FieldsBack | src/wire.rs:331-352 | Reading the fields of an encoding gives them back |
| Protobuf.MessageBack | src/wire.rs:39-85 | Decoding an encoded message gives it back, left-out defaults included |
| Wire.ReadBaseExact | src/wire.rs:108-110 | A field element is read from its canonical 32 bytes only |
| Wire.ReadPointExact | src/wire.rs:114-122 | A point is read from its canonical bytes only and is not the identity |
| Wire.ShieldedExact | src/wire.rs:124-209 | The message of anchor and actions is the only one that reads back as them |
| Wire.DecodeShieldedExact | src/wire.rs:252-266 | Bytes decode to anchor and actions if and only if these are well-formed and the bytes are their encoding |
| Wire.DecodeExact | src/wire.rs:246-285 | Bytes decode to a bundle if and only if it is well-formed and they are its encoding |
| Wire.WellFormedHasCoordinates | src/wire.rs:112-122 | What the wire lets through has coordinates, as the verifier demands |
| TransferBodies.ParseTimestampLoop | src/wire.rs:401-416 | The loop over the time stamp's fields is the specification |
| TransferBodies.ParseTransferBodyLoop | src/wire.rs:360-397 | The loop over the body's fields is the specification, first error included |
| TransferBodies.SlotsExact | src/wire.rs:373-387 | The loop succeeds exactly on allowed fields without repetition and collects their values |
| TransferBodies.BodyExact | src/wire.rs:354-397 | A body is accepted if and only if it has only the allowed fields, each singular one at most once, one time stamp, one bundle and no other community |
| TransferBodies.TimestampBack | src/wire.rs:399-416 | A time stamp reads back exactly below 2^40 seconds |
| TransferBodies.TransferBodyBack | src/wire.rs:436-445 | An encoded body reads back with no memos, and fails exactly for a late time stamp or an empty bundle |
| NoteEncryption.NotePlaintextBytes | src/note_encryption.rs:156-170 | The buffer filled range by range is the plaintext |
| NoteEncryption.PlaintextBack | src/note_encryption.rs:266-300 | Parsing the plaintext with the note's transmission key rebuilds the identical note, seed, address and memo |
| NoteEncryption.PlaintextInjective | src/note_encryption.rs:156-170 | A plaintext determines the opening it was made from |
| NoteEncryption.AddressBack | src/note_encryption.rs:85-93 | A note made by from_parts carries its address |
| NoteEncryption.CiphertextsDetermine | src/note_encryption.rs:302-318 | Ciphertexts under one outgoing viewing key determine note, address and memo |
| NoteEncryption.RecipientDecrypts | src/note_encryption.rs:320-327 | The recipient rebuilds exactly the note, address and memo that were encrypted |
| Signer.ReviewLoop | src/signer.rs:126-206 | The review with its early returns is the specification |
| Signer.ReviewActions | src/signer.rs:137-201 | The loop over the actions is the specification, first error included |
| Signer.ReviewExact | src/signer.rs:126-206 | A request is accepted if and only if every opening and every alpha is right and at least one alpha was sent; the review then shows the foreign outputs of positive value and the own value |
| Signer.FirstFault | src/signer.rs:137-201 | The review answers with the first fault of an opening behind actions that are in order |
| Signer.OneOpening | src/signer.rs:141-178 | An action has only one opening the device accepts |
| Signer.ReviewIsFunctionOfBody | src/signer.rs:125-206 | Two accepted requests with the same body show the same time, payments, change and hash |
| Signer.NothingHidden | src/signer.rs:180-191 | Payments and change are together the value of all created notes |
| Signer.ReviewedIsMoved | src/signer.rs:18-21 | For a body the node accepts, payments and change are together the decayed value of the spent notes |
| SigningRequests.OpeningExact | src/signer.rs:307-332 | An opening is read from its own message only |
| SigningRequests.DecodeExact | src/signer.rs:266-345 | Bytes decode to a request if and only if it is well-formed, they are its encoding, and they are at most 64 KiB |
| Pipeline.AddressesArePoints | src/bundle.rs:206-224 | No valid key has the identity as an address, so a dummy note can always be made |
| Pipeline.SumSpends | src/bundle.rs:262-269 | The loop over the spends, first error included |
| Pipeline.SumCreated | src/bundle.rs:270-280 | The loop over the outputs, first error included |
| Pipeline.PadPlan | src/bundle.rs:285-295 | Padding gives one spend and one output per action, dummies behind the real ones |
| Pipeline.BuildEach | src/bundle.rs:305-358 | The loop over the actions is the specification, first error included |
| Pipeline.BuildBundle | src/bundle.rs:244-378 | The build with its checks, its loops and a failing prover is the specification |
| Pipeline.AuthorizeBundle | src/bundle.rs:461-498 | The loop takes and checks the device signatures in order and signs for the dummies |
| PipelineComplete.PlanBalances | src/bundle.rs:262-295 | A build that passes its checks has a padded plan that balances |
| PipelineComplete.BuiltCommitment | src/bundle.rs:328-329 | The published value commitment opens to the net value of the action |
| PipelineComplete.BuiltHasWitness | src/bundle.rs:305-358 | The public inputs of every built action have a witness |
| PipelineComplete.BindingKeyIsKnown | src/bundle.rs:488 | The nets of the padded actions cancel, so the binding key is the sum of the blindings |
| PipelineComplete.BodyReadsBack | src/bundle.rs:435-438 | A body around well-formed actions carries exactly them |
| PipelineComplete.SpendSigsVerify | src/bundle.rs:471-487 | Every signature that is collected verifies under the rerandomised key of its action |
| PipelineComplete.FirstUncommitted | src/signer.rs:174-178 | None exactly when every memo that was given has a commitment other than 0, and otherwise the first output whose memo has not |
| PipelineComplete.ZeroCommitment | src/bundle.rs:273-276 | For a memo that commits to 0 the check of build holds and the check of review does not |
| PipelineComplete.BuiltFault | src/signer.rs:137-178 | The device finds no fault with a built action, except exactly a memo whose commitment is 0 |
| PipelineComplete.DeviceAnswers | src/signer.rs:126-206 | The device shows what was asked for, or refuses the first memo that commits to 0 |
| PipelineComplete.HonestTransfer | src/bundle.rs:243-499 | Whenever a build for the device's own notes succeeds, review accepts if and only if every given memo has a commitment other than 0, and then shows exactly the foreign outputs of positive value; in any case authorize gives a bundle the cryptographic checks accept |
| PipelineComplete.ZeroMemoIsRefused | src/signer.rs:174-178 | A build with a memo that commits to 0 is refused, with the index of the first such output |

## Left out

- The proof system: key generation, proving, verification, transcripts and floor planning are one predicate, "a satisfying witness exists" and "the prover's proof verifies".
- Curve arithmetic, Poseidon, Sinsemilla, BLAKE2b, ChaCha20-Poly1305, RedPallas and the bridge tree are functions with the stated laws; the exceptional case of Sinsemilla, which stops the program, is not modelled.
- Hiding, unlinkability and the quality of randomness are not functional properties.
- `full_viewing_key`: the resampling loop for a zero `ivk` ends only with probability one; keys enter as values that satisfy what the loop guarantees.
- `MerklePath`: the gadget is the native fold with a 32-bit position; its decomposition into cells belongs to the library.
- `CommitmentTree`: rewinding to a checkpoint and the pruning of the bridge tree are not modelled, `witness` is the sibling path of the current leaves.
- `WITH_DECAY` off and the epoch and anchored variants of the benchmark are not the production circuit.
- `src/circuit/value_balance.rs`, `src/prover.rs`, `src/address.rs`, the sealed memo of `src/memo.rs`, `src/ffi.rs` and `src/wasm.rs` would add only easier members.
- `recover`, `creation_address`, `FullViewingKey::from_bytes` and `sighash` without a body would add only easier members.
- AnchorHistory.Push: asks that a root is not among the anchors 2^32 times; there the program's 32-bit count would overflow.
- Time locks and note expiry are not enforced by the program.
- AgreeOnOneWindow: a sufficient condition for exact agreement at every duration; `AgreeWhenFactorsDo` is exact below a year, and later the amounts are too small for every difference of the factors to show.
- DecayDifference: bounds the difference by 11 and 1; that 11 is attained is not claimed.
- DecodeShieldedExact: where the bytes are refused, which of the two protobuf errors is reported is that of this decoder; prost may call the same bytes undecodable or not canonical.
- VerifyBundleCrypto: the conversion of a point into a verification key never fails here, and a value commitment without coordinates, which stops the program, is excluded by `HasCoordinates`.
- HonestTransfer: asks that no published `rk` or `cv_net` came out as the identity, which happens with negligible probability.
- Build: that the prover succeeds on an honest build is not claimed; the proof it returns verifies by `CompleteProver`.
