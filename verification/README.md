# A verified model of the ledger, oracle and harness cores

This project models six cores of a double-entry ledger and streaming-database code base and proves
properties of them. Each core has its own modules.

- **The IR circuit** (`CircuitSpec.dfy`, `Circuit.dfy`): nodes with access-checked fields in a mutable
  circuit, a worklist topological sort with delay edges and repeated inputs, recursive anchor resolution,
  path-wise conservation transparency, and a reachability closure.
- **The reference oracle and its differential harness** (`Chain.dfy`, `ReferenceOracle.dfy`,
  `OracleAnswers.dfy`, `Schedules.dfy`, `FaultCampaigns.dfy`, `Differential.dfy`): an append-only,
  hash-chained history with a commit rule, holds and folds; a seeded schedule generator; fault campaigns;
  the comparison harness and the mirror it is held to.
- **The comparator** (`Universe.dfy`, `ComparatorOracle.dfy`, `Arms.dfy`, `ComparatorAnswers.dfy`,
  `Replica.dfy`, `Runs.dfy`, `Probe.dfy`, `ProbeAnswers.dfy`): a generated universe, an indexed oracle with
  binary search, the six queries, the bracket of epochs a lagging replica's answer can be for, the run loop,
  and the race analysis of the probe.
- **The interpreter's ledger** (`PostingSets.dfy`, `InterpLedger.dfy`): a transaction state machine with
  checked 128-bit sums, and the canonical bytes of a posting set.
- **SCRAM-SHA-256** (`Base64.dfy`, `KeyDerivation.dfy`, `Scram.dfy`): base64, HMAC, PBKDF2 and the client's
  side of the exchange, against a conforming server.
- **Summary lines and the fit** (`SummaryLine.dfy`, `Fit.dfy`): a print/parse pair, and least squares.

`Prelude.dfy`, `Bytes.dfy` and `Text.dfy` hold the shared vocabulary. `dafny verify dfyconfig.toml` checks
everything.

Objects whose methods change their fields are classes (`Circuit`, `Checked`, the oracles, `Lcg`, `Rng`,
`Recorder`, `Ledger`), and loops are loops; each such method is proved equal to, or exactly characterised
by, a function or predicate on values, and the theorems are about those.

## What is abstract

- The hash is any function from bytes to 32 bytes, and `utf8` any function from text to bytes. Nothing is
  assumed of them: where a collision would break a property, the collision is an outcome.
- A random generator is any stream of words (`Universe`), or the source's own step on its own state
  (`Schedules`). Zipf weights are any numbers.
- `Op::derive_key` and the rest of `operator.rs` are not part of this model: an operator carries its
  conserving verdict as a Boolean and the kinds the graph algorithms tell apart.
- What a system under test, a server or a replica answers is a parameter.
- `f64` is `real` in `Fit`, and the standard error is kept as its square. A slope is told from zero by
  comparing squares, which is shown to be the same comparison.
- Money is unbounded except where the code checks or casts it: posting fields have their machine ranges,
  and `seal` checks every running sum against 128 bits.
- In `Scram`, messages are sequences of characters rather than of bytes. Base64 refuses every text that is
  not ASCII either way, and every separator is ASCII.

## Where the code does less than its comments say

- `reorder_reads` says permuting reads "must not change any answer". That holds exactly when, for each read,
  the postings to its account that its anchor covers and that are sealed only after the place it lands sum
  to zero (`ReorderingKeepsAnswersExactlyWhen`); `ReorderingCanChangeAnAnswer` gives a schedule where it fails.
- A batch that resolves one open hold twice is admitted, because the rule looks only at earlier epochs
  (`OneBatchMayResolveTwice`).
- The chain covers rows and order, not the epochs' own numbers (`EpochNumbersAreNotCovered`).
- The canonical encoding decodes back exactly for the sets whose every length fits 32 bits
  (`DecodesBackExactly`), and two such sets never share their bytes. A longer name is written with its length
  reduced, and a set with one can share its bytes with a set that fits (`LongNamesCollide`).
- Base64 decoding accepts padding inside a text and nonzero unused bits, so two texts can decode to one
  string (`TwoTextsOneString`); `EncodeDecodeExactly` says which texts are encodings.
- `client_final` ignores unknown attributes, also the mandatory-extension attribute that section 5.1 of
  RFC 5802 says to refuse (`WellFormedIsParsed`).
- The value `-` does not survive escaping: it is the escape of the empty text (`RoundTripExactly`).
- The probe counts a mutation as moving its target even when the twin leg is on the same key, where it moves
  nothing. No interleaving is ever reported exactly when no mutation is like that (`NeverMisjudgedExactlyWhen`),
  and none the probe makes is, since a generated universe gives every leg a twin on another account
  (`ProbeNeverMisjudges`).

## Model

| member | source | states |
|---|---|---|
| CircuitSpec.EffectiveAnchorClosedForm | crates/niles-ir/src/circuit.rs:357-378 | the recursive anchor is the least pinned epoch among the nodes reached through inheriting ones, the frontier if none is pinned and one is at the frontier, and inherited otherwise |
| CircuitSpec.EffectiveAnchorByOperators | crates/niles-ir/src/circuit.rs:253-378 | over the operators alone: a node's anchor is the least epoch of an as-of operator reached by leaving only nodes that are neither a source nor an as-of with an epoch; if none is reached, the frontier exactly when a source is, and inherited otherwise |
| CircuitSpec.TransparencyClosedForm | crates/niles-ir/src/circuit.rs:233-295 | the flag computed from direct inputs when a node is added holds exactly when the node and every ancestor, along any path, are operator-transparent |
| CircuitSpec.GrowthKeepsNode | crates/niles-ir/src/circuit.rs:233-295 | adding nodes later changes no earlier node's effective anchor, transparency or ancestors |
| CircuitSpec.StuckHasCycle | crates/niles-ir/src/circuit.rs:348-352 | nodes that can never be released contain a concrete cycle of non-delay edges, so a missing order has a witness |
| CircuitSpec.TopologicalMeansAcyclic | crates/niles-ir/src/circuit.rs:307-353 | a graph that has an order has no cycle once delay nodes' input edges are removed |
| CircuitSpec.OrderIsOverUndelayedEdges | crates/niles-ir/src/circuit.rs:307-353 | an order is one exactly when it lists every node once, and each input edge that does not enter a delay goes from earlier to later |
| CircuitSpec.OrderableExactly | crates/niles-ir/src/circuit.rs:307-353 | inputs in range and no cycle say, over the edges into nodes that are not delays, that every input exists and no walk along them returns |
| CircuitSpec.WellBuiltIsTopological | crates/niles-ir/src/circuit.rs:233-295 | any circuit built by adding nodes is acyclic, and its node order is itself an order |
| Circuit.Checked.Get | crates/niles-ir/src/circuit.rs:98-103 | reading a field returns its value and records the read, and nothing else changes |
| Circuit.Circuit.constructor | crates/niles-ir/src/circuit.rs:228-231 | a new circuit is empty and well built |
| Circuit.Circuit.Add | crates/niles-ir/src/circuit.rs:233-295 | the new node takes the next id and has the name, operator and inputs given, an anchor of its own for a source or an as-of with an epoch and none otherwise; earlier nodes are untouched and unread, its fields start unread, and the circuit stays indexed and well built, with its graph a strict extension |
| Circuit.Circuit.TopologicalOrder | crates/niles-ir/src/circuit.rs:307-353 | on any indexed circuit, cyclic or not, an order is returned exactly when inputs are in range and no cycle remains after removing delay nodes' inputs; it lists every node once, each after all it follows, also when an input is read twice; the loop ends although the ready list regrows |
| Circuit.Circuit.CountInputs | crates/niles-ir/src/circuit.rs:308-318 | each node's count is the number of its ordering inputs still to be placed, repeats included, and zero for a delay |
| Circuit.Circuit.Release | crates/niles-ir/src/circuit.rs:332-346 | after a node is placed, counts again say what each node waits for, and every node that waits for nothing is placed or ready |
| Circuit.Finished | crates/niles-ir/src/circuit.rs:348-352 | when nothing is ready, either everything was placed or what is left is a stuck set |
| Circuit.Circuit.ResolveAnchor | crates/niles-ir/src/circuit.rs:357-378 | the returned anchor is the stalest one consulted, and exactly the anchor fields of the consulted nodes become recorded as read |
| Circuit.ConsultedSetIsConsulted | crates/niles-ir/src/circuit.rs:357-378 | the nodes the recursion visits are exactly those reached through inheriting nodes |
| Circuit.Circuit.LiveNodes | crates/niles-ir/src/circuit.rs:422-434 | on any circuit, cyclic or not, the live set is exactly the outputs and everything that feeds one |
| Circuit.Circuit.AuditAccess | crates/niles-ir/src/circuit.rs:385-401 | four fields a node are counted, every unread one is listed and only those, and the report is clean exactly when all were read |
| Circuit.Circuit.ResetAccess | crates/niles-ir/src/circuit.rs:415-419 | afterwards no field of any node is recorded as read |
| Bytes.LeRoundTrip | crates/conservation-suite/src/oracle.rs:105-156 | a number that fits a width is recovered from its little-endian bytes |
| Bytes.BeRoundTrip | crates/niles-interp/src/ledger.rs:338-365 | a number that fits a width is recovered from its big-endian bytes |
| Bytes.SignedRoundTrip | crates/niles-interp/src/ledger.rs:345-349 | two's complement in a given width loses nothing of a number in range |
| Bytes.LeReversesBe | crates/conservation-suite/src/oracle.rs:105-156 | the two byte orders are each other's reverse, and little-endian starts with the lowest byte |
| Chain.RowCut | crates/conservation-suite/src/oracle.rs:105-156 | no row's bytes begin another row's: equal streams start with the same row and continue with the same bytes |
| Chain.RowsBytesInjective | crates/conservation-suite/src/oracle.rs:105-156 | the bytes fed to the hasher determine the batch of rows |
| Chain.RowLayout | crates/conservation-suite/src/oracle.rs:105-156 | each kind of row has its letter and its length, and its fields are read back at fixed offsets, little-endian, each in its own width |
| Chain.ChainHash | crates/conservation-suite/src/oracle.rs:105-156 | feeding the parent digest and each row field by field hashes exactly the serialisation the other lemmas are about |
| Chain.TipIs | crates/conservation-suite/src/oracle.rs:312-319 | the first parent is thirty-two zero bytes, and each later one the digest before it |
| Chain.VerifyChain | crates/conservation-suite/src/oracle.rs:312-319 | accepts exactly the histories in which every epoch's parent and hash are the recomputed ones |
| Chain.TamperEvidence | crates/conservation-suite/src/oracle.rs:105-156 | two verified histories of equal length and tip have the same rows throughout, or exhibit two different messages with one digest; of different lengths, the same or a message whose digest is zero; nothing is assumed of the hash |
| Chain.EpochNumbersAreNotCovered | crates/conservation-suite/src/oracle.rs:312-319 | renumbering an epoch leaves the chain verifying with the same tip |
| ReferenceOracle.BalancedConserves | crates/conservation-suite/src/oracle.rs:174-190 | zero per transaction and currency regroups to zero per currency |
| ReferenceOracle.Oracle.constructor | crates/conservation-suite/src/oracle.rs:159-172 | a new oracle is a state a run reaches |
| ReferenceOracle.Oracle.Submit | crates/conservation-suite/src/oracle.rs:174-212 | the answer and the whole new state are those of the admission rule in its order: spent key, commit rule, holds, seal; a refusal changes nothing; a reachable state stays reachable |
| ReferenceOracle.Oracle.ConservationOk | crates/conservation-suite/src/oracle.rs:298-306 | the one-pass check says whether every currency sums to zero at the anchor, and it holds on every reachable state |
| ReferenceOracle.Oracle.VerifyOwnChain | crates/conservation-suite/src/oracle.rs:312-319 | recomputing the chain succeeds on every reachable state |
| ReferenceOracle.GroupSums | crates/conservation-suite/src/oracle.rs:178-190 | the loop's map holds the sum of exactly the groups that have a posting |
| ReferenceOracle.CurrencySums | crates/conservation-suite/src/oracle.rs:298-306 | the loop's map holds the sum of exactly the currencies that have a posting |
| ReferenceOracle.RunsAreSound | crates/conservation-suite/src/oracle.rs:174-212 | every state a run reaches has a verifying chain, epochs numbered by position, balanced batches, properly placed resolutions and one spent key an epoch |
| ReferenceOracle.RunsConserve | crates/conservation-suite/src/oracle.rs:242-249 | in every reachable state and at every anchor each currency's postings sum to zero, and so do the ledger balances of any accounts that cover those posted to |
| ReferenceOracle.TotalIsFold | crates/conservation-suite/src/oracle.rs:242-249 | the ledger balances of a set of accounts add up to one fold over the rows |
| OracleAnswers.AnswersAreTotals | crates/conservation-suite/src/oracle.rs:214-295 | over the positions of the covered rows: the ledger balance is the sum of the postings to the account and currency, the bitemporal one of those valid by the time asked, what is held is the sum of the holds that no covered row resolves, and what is available is the difference |
| OracleAnswers.NothingResolved | crates/conservation-suite/src/oracle.rs:251-275 | with no resolution covered, the account's holds are all held |
| OracleAnswers.EverythingResolved | crates/conservation-suite/src/oracle.rs:251-275 | with every covered hold of the account resolved, nothing is held |
| OracleAnswers.ResolvingReleases | crates/conservation-suite/src/oracle.rs:251-275 | sealing an epoch that only resolves an open hold lowers what is held by exactly the amounts of that hold on the account and currency |
| OracleAnswers.ConservationIsOverCurrencies | crates/conservation-suite/src/oracle.rs:298-306 | a currency's sum at an anchor is the sum of every covered posting in it |
| OracleAnswers.AdmissionExactlyWhen | crates/conservation-suite/src/oracle.rs:174-212 | a batch is refused for a spent key, else exactly when a transaction and currency of it does not sum to zero, else exactly when a row resolves a hold that no earlier epoch placed or one resolved; a refusal changes nothing, and an admitted batch is the next epoch, numbered by position and chained to the last |
| ReferenceOracle.SealedAnswersAreFrozen | crates/conservation-suite/src/oracle.rs:242-295 | ledger, held, available and bitemporal answers at a sealed anchor are the same after any further submissions, accepted or refused |
| ReferenceOracle.AdmittedKeysAreSpent | crates/conservation-suite/src/oracle.rs:174-177 | a key once admitted is refused for the rest of any run, whatever it carries |
| ReferenceOracle.HoldLifecycle | crates/conservation-suite/src/oracle.rs:192-199 | every resolved hold was placed in a strictly earlier epoch, and no hold is resolved in two epochs |
| ReferenceOracle.ResolvedOnceExactlyWhen | crates/conservation-suite/src/oracle.rs:192-199 | over any run, a hold is resolved at most once exactly when no single batch resolves it twice |
| ReferenceOracle.OneBatchMayResolveTwice | crates/conservation-suite/src/oracle.rs:192-199 | a batch that resolves an open hold twice is admitted from any state |
| Text.DecimalRoundTrip | crates/conservation-suite/src/properties.rs:169-170 | a decimal numeral reads back as its number, so keys made from counters differ |
| Text.FromDecimalAppend | crates/conservation-suite/src/properties.rs:169-170 | a numeral's value is its leading digits times a power of ten plus the rest, and a digit's value is its distance from zero |
| Schedules.OpeningRows | crates/conservation-suite/src/properties.rs:112-131 | the loop produces one funding row an account and one issuance row for their total |
| Schedules.OpeningBalanced | crates/conservation-suite/src/properties.rs:112-131 | an opening batch meets the commit rule for any number of accounts and amount |
| Schedules.OpeningFunds | crates/conservation-suite/src/properties.rs:112-131 | an opening credits each of its accounts once, in its own currency, and debits the issuance account by the product |
| Schedules.TransferMoves | crates/conservation-suite/src/properties.rs:222-250 | a transfer debits the sender and credits the receiver by its amount, and moves nothing else |
| Schedules.ExecExactly | crates/conservation-suite/src/properties.rs:210-262 | an opening is submitted under its fixed key, a transfer under its own, a replay with no rows, so that one of an unspent key would seal an empty epoch; nothing else changes the oracle |
| Schedules.Lcg.Next | crates/conservation-suite/src/properties.rs:136-142 | the state steps by the wrapping multiply-and-add, and the draw is its top 31 bits |
| Schedules.DrawTransfer | crates/conservation-suite/src/properties.rs:163-178 | a drawn transfer is the one the next three draws give: of 1 to 500 between accounts in range, two different ones exactly when there are two |
| Schedules.DrawRead | crates/conservation-suite/src/properties.rs:179-184 | a drawn read is the one the next two draws give, and names an account in range and a sealed epoch |
| Schedules.Generate | crates/conservation-suite/src/properties.rs:151-196 | the operations are those of the draws; for every hash, seed, length and at least one account, each submission is admitted, each replay names an earlier key and is refused, each read names an epoch sealed by then |
| Schedules.EachTurnIsDrawn | crates/conservation-suite/src/properties.rs:155-194 | each turn adds, by its first draw of a hundred, a transfer, a read, an eviction, a replay or a crash, with accounts, amount, epoch and key chosen by the draws after it; a replay with no key yet adds nothing |
| Schedules.KeysAreTransfers | crates/conservation-suite/src/properties.rs:159-177 | the keys kept for replay are the submitted ones in order, and the epochs counted are one more than those |
| Schedules.LongerGoesOn | crates/conservation-suite/src/properties.rs:151-196 | a longer schedule of one seed begins with the shorter one |
| FaultCampaigns.Inject | crates/conservation-suite/src/faults.rs:31-60 | the loop builds the base with the fault's payload after every stride, replays carrying the last submitted key |
| FaultCampaigns.CampaignIs | crates/conservation-suite/src/faults.rs:31-60 | at each stride a campaign holds what was built before it and then just the fault's own insertion: one crash, that many evictions, or one replay of the last submission so far, if there is one |
| FaultCampaigns.InjectionErases | crates/conservation-suite/src/faults.rs:31-60 | taking the injected operations out again gives the base, for every fault and stride |
| FaultCampaigns.InjectionKeepsProper | crates/conservation-suite/src/faults.rs:31-60 | a campaign from a valid schedule is valid, its injected replays refused, and it drives the oracle to the same state |
| FaultCampaigns.InjectionKeepsReplays | crates/conservation-suite/src/faults.rs:31-60 | if every replay of the base names an earlier submission, so does every replay of the campaign, the injected ones included |
| FaultCampaigns.ReorderReads | crates/conservation-suite/src/faults.rs:67-88 | the iterator chains build the schedule with its reads, and only those, in reverse |
| FaultCampaigns.ReorderingInvolution | crates/conservation-suite/src/faults.rs:67-88 | reordering moves no write, reverses the reads, and undoes itself |
| FaultCampaigns.PlaceKeepsHistory | crates/conservation-suite/src/faults.rs:62-66 | replacing the reads of a schedule by any others leaves the oracle's final state the same |
| Differential.RunDifferential | crates/conservation-suite/src/properties.rs:202-283 | for any system, every read is compared once, in order, and the report lists exactly the wrong replies |
| Differential.NoDivergenceExactlyWhen | crates/conservation-suite/src/properties.rs:202-283 | nothing is reported exactly when, for each read with k reads before it, the k-th reply is an answer, has an anchor no older than asked for, and has the balance at that anchor in the history driven to that place |
| Differential.ReportedReads | crates/conservation-suite/src/properties.rs:228-280 | the report has one entry for each wrong reply, in order, each with the read's own account, currency and anchor, the balance at the anchor asked for, and the reply |
| Differential.MirrorNeverDiverges | crates/conservation-suite/src/properties.rs:292-361 | a mirror that skips replays is passed on every run whose replays are refused |
| Differential.MirrorPassesEveryCampaign | crates/conservation-suite/src/properties.rs:292-361 | the mirror is passed on every valid schedule, every campaign built from it, and with its reads reordered, and the reads counted are the base's |
| Differential.SealedReadsAreTimeless | crates/conservation-suite/src/properties.rs:228-262 | a read of a sealed epoch gets, when it is made, the answer the whole history gives |
| Differential.ReorderingKeepsAnswersExactlyWhen | crates/conservation-suite/src/faults.rs:62-66 | reordering the reads of a valid schedule only reorders the answers exactly when, for each read, the postings to its account that its anchor covers and that are sealed after the place it lands sum to zero |
| Differential.MissedIsTheDifference | crates/conservation-suite/src/oracle.rs:214-249 | a balance read before an epoch it covers is sealed differs from the later one by exactly the postings sealed in between |
| Differential.ReorderedProperExactlyWhen | crates/conservation-suite/src/faults.rs:67-88 | a valid schedule with its reads reordered is valid exactly when each read names, where it lands, an epoch already sealed there |
| Differential.ReorderingCanChangeAnAnswer | crates/conservation-suite/src/faults.rs:62-66 | a read of the epoch a transfer is about to seal, moved before it, gets a different answer |
| Universe.ShuffleAccounts | crates/comparator/src/universe.rs:105-111 | the in-place shuffle leaves a permutation of the accounts, for any draws |
| Universe.ShuffleCoversAll | crates/comparator/src/universe.rs:105-111 | a shuffle has every account from 1 to n |
| Universe.Draw | crates/comparator/src/universe.rs:126-130 | a draw is an account in range for any weights, also when the uniform exceeds them all |
| Universe.One | crates/comparator/src/universe.rs:191-226 | for any draws, a transfer conserves in one currency, has accounts in range that differ when there are two, and is back-valued by 22 days at most |
| Universe.Generate | crates/comparator/src/universe.rs:174-189 | ids run from 1, batches are consecutive groups, every transfer is well formed |
| Universe.HistoryIsOrdered | crates/comparator/src/universe.rs:174-189 | batches never step back |
| Universe.HoldsEurExactly | crates/comparator/src/universe.rs:157-159 | an account has the second currency exactly when there is one and the top half of its 64-bit product, counted modulo a hundred, is below 35 |
| Universe.DayExactly | crates/comparator/src/universe.rs:206-207 | the business day is the number of whole fifties of batches, up to a multiple of 2^32 |
| ComparatorOracle.PartitionFinds | crates/comparator/src/oracle.rs:66-74 | binary search on sorted legs finds the boundary between those sealed by an epoch and those after |
| ComparatorOracle.ReplayIsIndex | crates/comparator/src/oracle.rs:39-52 | the per-key index after any log lists exactly that log's legs of each key, in order |
| ComparatorOracle.LegsSorted | crates/comparator/src/oracle.rs:39-52 | applying in epoch order keeps every key's legs sorted, as binary search needs |
| ComparatorOracle.BalanceIsFold | crates/comparator/src/oracle.rs:66-74 | the binary-searched balance is the fold over the truncated log, absent exactly when that log has no leg of the key |
| ComparatorOracle.BalanceTravels | crates/comparator/src/oracle.rs:66-74 | a balance as of an epoch is the balance on a fresh oracle that replayed only that far |
| ComparatorOracle.ReportTravels | crates/comparator/src/oracle.rs:127-133 | the report as of an epoch is the head report of the truncated replay, with the same keys |
| ComparatorOracle.StatementTravels | crates/comparator/src/oracle.rs:148-160 | a statement as of an epoch is the head statement of the truncated replay |
| ComparatorOracle.ReplayConserves | crates/comparator/src/oracle.rs:212-218 | balanced transfers give every currency a zero total, however they are indexed |
| Arms.TopUnique | crates/comparator/src/oracle.rs:86-98 | a report has one list of its ten largest balances of a currency, ties included |
| Arms.TimeTravelIsTruncatedReplay | crates/comparator/src/arms.rs:72-101 | each of the six queries as of an epoch equals its head form on a fresh oracle that replayed only transactions sealed by then |
| ComparatorAnswers.AnswersAreOverLegs | crates/comparator/src/arms.rs:72-101 | each answer, over the places of the log's legs: balances are sums of the key's legs sealed by the epoch and absent when there is none; statements count and sum those with a value day in the period; the extract has every key touched; exposures sum a desk's keys by currency; the ten largest are as many keys of the currency as there are, up to ten, and no key left out has more |
| ComparatorAnswers.StatementOfLegs | crates/comparator/src/oracle.rs:148-160 | a statement counts and sums exactly the legs of the key sealed by the epoch whose value day lies in the period, ends included |
| ComparatorAnswers.TopIsLargest | crates/comparator/src/oracle.rs:86-98 | the list is the balances of distinct keys of the currency, largest first, ten or all, none of the others larger |
| ComparatorAnswers.DeskOfReport | crates/comparator/src/oracle.rs:162-172 | an exposure lists exactly the currencies in which the desk has a key, accounts sixteen apart sharing a desk, each with the sum of those keys |
| Arms.Oracle.constructor | crates/comparator/src/oracle.rs:26-37 | a new oracle is the replay of an empty log |
| Arms.Oracle.Apply | crates/comparator/src/oracle.rs:39-52 | applying in order keeps the index equal to the replay of the log, grown by this one transaction |
| Arms.Oracle.DeskExposure | crates/comparator/src/oracle.rs:114-125 | the loop's map holds, per currency, the total of the desk's accounts, and no currency without one |
| Arms.Oracle.DeskExposureAt | crates/comparator/src/oracle.rs:162-172 | the same as of an epoch, keys with no balance by then left out |
| Arms.Oracle.TopTen | crates/comparator/src/oracle.rs:86-98 | collecting, sorting and truncating gives the ten largest, largest first |
| Arms.Oracle.Conserves | crates/comparator/src/oracle.rs:212-218 | the check says whether every currency totals zero |
| Arms.Of | crates/comparator/src/oracle.rs:26-37 | a generated universe loads without tripping the ordering check, and conserves |
| Replica.Recorder.BeforeWrite | crates/comparator/src/h1.rs:400-404 | a write begins with an open end |
| Replica.Recorder.AfterWrite | crates/comparator/src/h1.rs:405-411 | its end is recorded, and a write never begun leaves no record |
| Replica.Recorder.EpochsBetween | crates/comparator/src/h1.rs:418-435 | the filters and maxima give the bracket: the greatest write surely applied, and the greatest possibly applied, never below the loaded head |
| Replica.NextKeepsInv | crates/comparator/src/h1.rs:400-435 | each step of writer, replica and reader keeps commits inside their recorded positions and in index order without gaps, and the reader's position between its offsets with the epoch of that position |
| Replica.RunsKeepInv | crates/comparator/src/h1.rs:400-435 | so does every run |
| Replica.BracketIsSound | crates/comparator/src/h1.rs:400-435 | in every run, also with a write in flight, a finished read's epoch lies in its bracket, and the writes applied where it was answered are exactly those up to it |
| Replica.RunsAreSequential | crates/comparator/src/h1.rs:400-411 | in every run the recorded writes follow one another, each ending beyond where it began, and only the one in flight ends beyond the log |
| Replica.BracketIs | crates/comparator/src/h1.rs:418-435 | the lower end is the loaded head or the greatest write that ended by the lower offset, the upper the greatest that began before the upper offset |
| Replica.BracketIsTight | crates/comparator/src/h1.rs:418-435 | whatever commits the recorded positions leave possible, an answer between the offsets has its epoch in the bracket, and some of them put an answer at each end, so no narrower bracket is sound |
| Replica.OffsetsMustBeWhatReadersSee | crates/comparator/src/render.rs:1457 | in any state a run reaches and for any reported offsets, an answer computed at a position reaches the bracket's lower end exactly when the greatest write the bracket claims was applied there |
| Replica.OneOffsetAhead | crates/comparator/src/render.rs:1457 | a reported offset that runs ahead of what readers see puts an answer outside its bracket |
| Runs.ComputeExpected | crates/comparator/src/arms.rs:72-86 | each query is answered at the head as the specification says |
| Runs.ComputeExpectedAt | crates/comparator/src/arms.rs:89-101 | each query is answered as of an epoch as the specification says |
| Runs.LaterWritesDoNotMatter | crates/comparator/src/run.rs:159-215 | sealing a later transaction changes no answer as of an earlier epoch |
| Runs.HeadIsNow | crates/comparator/src/run.rs:159-215 | at the head, the answer now is the answer as of now |
| Runs.BuildScript | crates/comparator/src/run.rs:159-188 | the answer stored with each read is the finished oracle's answer as of the head the runner will be tracking there; writes stand at every write-turn with consecutive epochs |
| Runs.WriteTurnExactly | crates/comparator/src/run.rs:159-188 | a turn is a write exactly when it ends a whole number of groups of `writeEvery` |
| Runs.BuildConcurrent | crates/comparator/src/run.rs:189-208 | for each level as many clients as it says, each with the number of reads asked for, and every stored answer is the history's as of the head the mixed part ends at |
| Runs.SearchBracket | crates/comparator/src/run.rs:336-346 | the search from the latest epoch down finds the latest one in the bracket with that answer |
| Runs.ClassifyRead | crates/comparator/src/run.rs:324-385 | a reply is counted, once, as the classification says: fresh, stale with its lag, inexact, or another divergence |
| Runs.CountedExactlyWhen | crates/comparator/src/run.rs:324-385 | a divergence is counted exactly unless the reply is the stored answer, or has a bracket and is the history's answer at an epoch of it up to the head; it is inexact when it had a bracket, and a reply that passes without being the stored answer is stale by its distance from the latest such epoch |
| Runs.ExactAnswersAreNotDivergences | crates/comparator/src/run.rs:335-348 | the history's answer at any epoch in the bracket is never a divergence, and its lag is at most head minus the epoch surely applied |
| Runs.InexactExactlyWhen | crates/comparator/src/run.rs:335-353 | a reply is inexact exactly when it is the history's at no epoch in its bracket up to the head and is not the stored answer |
| Runs.ReplicaReadsAreNotDivergences | crates/comparator/src/run.rs:289-351 | a read that finishes in any run of the replica protocol, answered from the transactions its replica had applied, gets the whole history's answer as of its epoch, is never a divergence, and lags by at most head minus the epoch surely applied |
| Runs.RunArm | crates/comparator/src/run.rs:388-425 | the divergences are the supported reads that do not pass, the inexact, stale and bracketed ones are counted alike, and the worst lag is the greatest of theirs; so an arm that answers each supported read at the head or at an epoch in its bracket finishes without one; the tracked head follows the writes |
| Probe.TruthRange | crates/comparator/src/probe.rs:192-217 | the loop gives the balance with the mutations certainly landed, and how far the others can move it down and up |
| Probe.FitsExactlyWhenTruthful | crates/comparator/src/probe.rs:519-523 | the range test with truncating division accepts exactly the balance plus all certain mutations plus some subset of the uncertain ones |
| ProbeAnswers.FitsExactlyWhenExplained | crates/comparator/src/probe.rs:192-217 | a read fits exactly when, for an epoch it can be for, it is the sum of the key's legs by then, every mutation over before it began, and some of those begun before it ended |
| Probe.SearchFits | crates/comparator/src/probe.rs:519-523 | the search over the read's epochs says whether some epoch fits |
| Probe.InterleavingsFit | crates/comparator/src/probe.rs:192-217 | a read that sees, at an instant of its window, the mutations whose instants are earlier, each inside its own window, always fits |
| Probe.NeverMisjudgedExactlyWhen | crates/comparator/src/probe.rs:192-217 | whatever the instants, windows and epochs, every interleaving of every read fits exactly when no mutation has both its legs on one key |
| Probe.CollectFirstLegs | crates/comparator/src/probe.rs:320-329 | the loop finds, for exactly the keys that have a leg, the other leg of the first transaction with one, and its batch |
| Probe.ProbeNeverMisjudges | crates/comparator/src/probe.rs:320-409 | mutations of the first legs of a generated universe of two accounts or more never have both legs on one key, so no interleaving of theirs is reported |
| Probe.ClassifyReads | crates/comparator/src/probe.rs:506-567 | every misfit is counted once under its kind, and the races counted are the keys and epochs at which two quiet reads disagree |
| ProbeAnswers.KindExactlyWhen | crates/comparator/src/probe.rs:524-550 | a misfit is named by the latest epoch at which it is off by a leg of its key, or lacks one, or, with mutation on, is off by a number of mutations: a double application in the first case and a skipped delta otherwise; and another divergence when no epoch names it |
| ProbeAnswers.MisfitsAre | crates/comparator/src/probe.rs:506-556 | the misfits of a kind are the reads that no epoch explains and that have that name |
| ProbeAnswers.QuietExactlyWhen | crates/comparator/src/probe.rs:510-516 | a read is quiet when it is for one epoch only and no mutation of its key and epoch overlaps it |
| ProbeAnswers.RaceExactlyWhen | crates/comparator/src/probe.rs:510-516 | two reads race exactly when both are quiet, for one key and epoch, after the same sum of mutations, with different values |
| Probe.RacesAreCollected | crates/comparator/src/probe.rs:510-516 | the anchors that collect more than one value are exactly those at which two reads disagree |
| Probe.TruthfulReadsAreClean | crates/comparator/src/probe.rs:508-527 | when every read fits, no misfit is counted and no two reads race |
| Probe.CountRaces | crates/comparator/src/probe.rs:560-567 | the count is the number of anchors that hold more than one value |
| PostingSets.Encode | crates/niles-interp/src/ledger.rs:338-360 | the loop appends exactly the set's bytes: identity, leg count, legs in order |
| PostingSets.PutLeg | crates/niles-interp/src/ledger.rs:342-358 | one leg's fields are appended in order, in big-endian two's complement, with its optional tag |
| PostingSets.DecodeEncode | crates/niles-interp/src/ledger.rs:338-365 | an independent decoder reads any encoded set back, legs in order, and leaves whatever follows |
| PostingSets.DecodesBackExactly | crates/niles-interp/src/ledger.rs:338-365 | a set decodes back, whatever follows it, exactly when every length in it fits the 32 bits it is written in |
| PostingSets.EncodingInjective | crates/niles-interp/src/ledger.rs:338-365 | two sets whose lengths fit 32 bits have the same bytes exactly when they are the same, leg order included |
| PostingSets.LongNamesCollide | crates/niles-interp/src/ledger.rs:362-365 | a name of 2^32 bytes is written with length zero, and its set shares its bytes with another set of one leg |
| InterpLedger.Ledger.constructor | crates/niles-interp/src/ledger.rs:208-213 | a new ledger is empty with epoch one next |
| InterpLedger.Ledger.OpenBalance | crates/niles-interp/src/ledger.rs:227-232 | the opening balance of one account and currency grows by the amount, and nothing else changes |
| InterpLedger.Ledger.Begin | crates/niles-interp/src/ledger.rs:262-270 | a transaction opens empty at the next epoch, replacing any open one |
| InterpLedger.Ledger.PushLegs | crates/niles-interp/src/ledger.rs:273-281 | legs join the open transaction in order, and outside one they are refused |
| InterpLedger.Ledger.Seal | crates/niles-interp/src/ledger.rs:288-328 | sealing succeeds exactly when scales agree per currency, every per-currency prefix sum fits 128 bits and every total is zero; a refusal names the first bad leg, the scale before the sum, or else the least unbalanced currency; it closes the transaction and changes neither the sealed list nor the next epoch |
| InterpLedger.OneVerdict | crates/niles-interp/src/ledger.rs:288-328 | a set of legs has at most one verdict: sealable, or one refusal |
| InterpLedger.Judge | crates/niles-interp/src/ledger.rs:292-317 | the two loops over legs and currencies reach that verdict |
| InterpLedger.FirstResidual | crates/niles-interp/src/ledger.rs:310-317 | the map loop stops at the least currency that does not sum to zero |
| InterpLedger.Ledger.Abandon | crates/niles-interp/src/ledger.rs:332-334 | the open transaction is dropped and nothing else changes |
| InterpLedger.Ledger.Balance | crates/niles-interp/src/ledger.rs:246-259 | the nested loops give the opening balance plus every sealed leg of the account and currency |
| InterpLedger.RunsAreSound | crates/niles-interp/src/ledger.rs:262-334 | after any calls, the i-th sealed set has epoch i+1, the next epoch is one more than the sets sealed, an open transaction holds it, and everything sealed was sealable |
| InterpLedger.TransactionSealsWhatWasPushed | crates/niles-interp/src/ledger.rs:262-328 | after any calls, beginning a transaction, pushing and sealing adds one set of just the legs pushed since, in order, under that name at the next epoch, when they can seal, and nothing otherwise |
| InterpLedger.NothingSealsOutside | crates/niles-interp/src/ledger.rs:273-334 | with no transaction open, nothing seals until one begins |
| InterpLedger.SealableExactly | crates/niles-interp/src/ledger.rs:288-328 | a set can seal exactly when legs of one currency have one scale, no sum of a currency over its first legs is outside 127 bits and a sign, and each currency's legs cancel |
| InterpLedger.TotalIsSum | crates/niles-interp/src/ledger.rs:292-309 | a currency's total is the sum of the minors of its legs |
| InterpLedger.LegsBalanceIsSum | crates/niles-interp/src/ledger.rs:246-259 | what a set adds to a balance is the sum of the minors of its legs on the account in the currency |
| InterpLedger.LexLeqExactly | crates/niles-interp/src/ledger.rs:310-317 | the order of currencies: one comes first when it begins the other, or has the smaller byte where they first differ |
| InterpLedger.SealedIsAppendOnly | crates/niles-interp/src/ledger.rs:262-334 | no call changes or removes a sealed set |
| InterpLedger.RunsConserve | crates/niles-interp/src/ledger.rs:246-334 | after any calls, a currency's balances over all accounts named sum to the opening balances given in it |
| Base64.SymbolRanges | crates/bank-bench/src/scram.rs:70-70 | the alphabet is the one of table 1 of RFC 4648 |
| Base64.Encode | crates/bank-bench/src/scram.rs:73-95 | the chunk loop produces the encoding of the whole |
| Base64.EncodedIsRfc | crates/bank-bench/src/scram.rs:73-95 | each group of four characters holds its three bytes six bits at a time, highest first, zeros for missing bytes and padding for characters with none of theirs, as in section 4 of RFC 4648 |
| Base64.Decode | crates/bank-bench/src/scram.rs:98-123 | the group loop decodes exactly when every group does, in order |
| Base64.RoundTrip | crates/bank-bench/src/scram.rs:73-123 | decoding undoes encoding for every byte string |
| Base64.EncodedLength | crates/bank-bench/src/scram.rs:73-95 | four characters for every three bytes begun |
| Base64.EncodingInjective | crates/bank-bench/src/scram.rs:73-95 | two byte strings with one encoding are the same |
| Base64.DecodeConcat | crates/bank-bench/src/scram.rs:98-123 | decoding distributes over concatenation at multiples of four, success and failure alike |
| Base64.EncodeDecodeExactly | crates/bank-bench/src/scram.rs:98-123 | a text that decodes is an encoding exactly when its padding is at the end only and over zero bits |
| Base64.TwoTextsOneString | crates/bank-bench/src/scram.rs:98-123 | two different texts decode to the same two bytes |
| Base64.EncodedHasNoComma | crates/bank-bench/src/scram.rs:250-251 | an encoding never contains the attribute separator |
| KeyDerivation.XorUndoes | crates/bank-bench/src/scram.rs:214-217 | masking twice with the same bytes gives the bytes back |
| KeyDerivation.XorBitsAt | crates/bank-bench/src/scram.rs:41-66 | a bit of the result is set exactly when it differs between the two |
| KeyDerivation.Hmac | crates/bank-bench/src/scram.rs:30-49 | the buffer loops compute the code of RFC 2104 |
| KeyDerivation.HmacIsRfc | crates/bank-bench/src/scram.rs:30-49 | the code is the hash of the outer pad and of the hash of the inner pad and the message, the pads being the zero-filled block key masked by 0x5C and 0x36, as in RFC 2104 |
| KeyDerivation.KeysThatCoincide | crates/bank-bench/src/scram.rs:30-36 | trailing zeros within a block do not change a key's code, and a longer key's code is that of its hash |
| KeyDerivation.Pbkdf2 | crates/bank-bench/src/scram.rs:52-68 | the buffer is filled with exactly the derived key, cut to its length |
| KeyDerivation.DeriveBlock | crates/bank-bench/src/scram.rs:54-66 | the iteration loop gives the exclusive or of all iterates |
| KeyDerivation.DerivedIsRfc | crates/bank-bench/src/scram.rs:52-68 | up to the length the standard allows, it is the key of section 5.2 of RFC 8018, blocks numbered from one |
| KeyDerivation.DerivedByteIsRfc | crates/bank-bench/src/scram.rs:52-68 | each byte of a key comes from its block of 32, numbered from one: there are c iterates, the first over salt and number and each next over the one before, and a bit is set when it is set in an odd number of them |
| KeyDerivation.ShorterIsPrefix | crates/bank-bench/src/scram.rs:52-68 | a shorter key is a prefix of a longer one |
| Text.SplitJoin | crates/bank-bench/src/scram.rs:185-192 | splitting a joined message gives its pieces back |
| Text.JoinSplit | crates/bank-bench/src/scram.rs:185-192 | splitting loses nothing of a message |
| Text.ParseU32 | crates/bank-bench/src/scram.rs:200-204 | a count parses exactly when it is digits after an optional plus sign with a value below 2^32 |
| Text.U32Exactly | crates/bank-bench/src/scram.rs:200-204 | a text is a count exactly when it is digits, at least one, after at most one plus sign, and their value fits |
| Text.U32RoundTrip | crates/bank-bench/src/scram.rs:200-204 | a printed count parses back |
| Scram.WellFormedIsParsed | crates/bank-bench/src/scram.rs:182-204 | nonce, salt and count in order are recovered whatever stands before them and with any other attributes after; the message is refused exactly when the nonce does not strictly extend ours, or the count is zero |
| Scram.OfferExactly | crates/bank-bench/src/scram.rs:182-204 | any first message is judged by the last attribute of each name: one missing, a nonce that does not strictly extend ours, the salt, the count, in that order |
| Scram.BindingIsEncodedHeader | crates/bank-bench/src/scram.rs:212-212 | the channel-binding text is the base64 of the three bytes of the header without binding |
| Scram.MessagesAreRfc | crates/bank-bench/src/scram.rs:205-227 | the client's final message and expected signature, and what a server keeps, are those of section 3 of RFC 5802 from the derived key on |
| Scram.ClientFinal | crates/bank-bench/src/scram.rs:178-227 | the first error in the source's order is returned, or else the message and expected signature of section 3 of RFC 5802 |
| Scram.Verify | crates/bank-bench/src/scram.rs:233-247 | succeeds exactly on a text that decodes to the expected signature, blames the signature exactly when it decodes to something else, and otherwise returns the malformed part: the server's own error, the whole message, or the signature |
| Scram.ProofAccepted | crates/bank-bench/src/scram.rs:209-217 | the server recovers the client's key from the proof and accepts |
| Scram.ExchangeCompletes | crates/bank-bench/src/scram.rs:178-247 | with a conforming server that keeps only the stored and server keys, every exchange succeeds on both sides, for every password, nonce, salt, count, hash and encoding |
| Scram.AnswerNeedsTheSignature | crates/bank-bench/src/scram.rs:233-247 | a server that sends another signature is refused |
| SummaryLine.Escape | crates/bank-bench/src/summary.rs:64-82 | the loop gives the escape of the whole value, never empty |
| SummaryLine.EscapeExactly | crates/bank-bench/src/summary.rs:64-82 | each character is escaped by itself: percent, equals sign, space and the three line characters to their own, any other to itself |
| SummaryLine.Unescape | crates/bank-bench/src/summary.rs:85-105 | the index loop decodes every escape, takes any other character as itself, and reads the token of the empty value |
| SummaryLine.HexByteExactly | crates/bank-bench/src/summary.rs:94-98 | a pair of characters is an escape exactly when it is two digits in base 16, of either case, or a plus sign and one |
| SummaryLine.TrimExactly | crates/bank-bench/src/summary.rs:126-128 | trimming takes off all the white space at both ends and nothing else |
| SummaryLine.RoundTripExactly | crates/bank-bench/src/summary.rs:64-105 | unescaping undoes escaping, up to the three characters that become spaces, exactly for values other than a single dash |
| SummaryLine.EscapedIsOneToken | crates/bank-bench/src/summary.rs:53-63 | an escaped value has no equals sign, and no white space when the value has only the four kinds escaping removes |
| SummaryLine.PrintLine | crates/bank-bench/src/summary.rs:114-132 | the printed line is the prefix and the tokens laid out with spaces |
| SummaryLine.PrintedExactly | crates/bank-bench/src/summary.rs:114-132 | a line is the fixed prefix, the kind escaped, and then the two counts under the schema error when they differ, or each trimmed name with its escaped value |
| SummaryLine.Parse | crates/bank-bench/src/summary.rs:181-206 | a line is read exactly when it has the prefix, every token is a named pair, no name repeats and one is the kind, so a line with a repeated name never is; and then as the map of its pairs |
| SummaryLine.LineRoundTrip | crates/bank-bench/src/summary.rs:114-206 | a printed line parses back to its kind, exactly the header's names, and each value under its own name |
| SummaryLine.PrintedParsesExactlyWhen | crates/bank-bench/src/summary.rs:114-206 | a printed line with printable names parses exactly when its header repeats no name |
| SummaryLine.MismatchIsReported | crates/bank-bench/src/summary.rs:117-124 | a header and values of different lengths give a line that parses and carries the schema error alone |
| SummaryLine.OutcomeOfPrinted | crates/bank-bench/src/summary.rs:219-231 | a field of a printed line is missing exactly when the header lacks it, not measured exactly when the value is `n/a`, and otherwise the number its trimmed text spells, or malformed with its text |
| Fit.DistinctSizes | crates/bank-bench/src/fit.rs:84-89 | what sorting and deduplicating leaves is one entry for each different x value |
| Fit.RefusedExactlyWhen | crates/bank-bench/src/fit.rs:83-98 | a fit is refused exactly when there are fewer than three x values, with their number; no spread is never the reason |
| Fit.ResidualOfAnyLine | crates/bank-bench/src/fit.rs:91-110 | the squared residual sum of any line is the least one plus what its slope and height add |
| Fit.FitIsLeastSquares | crates/bank-bench/src/fit.rs:91-110 | no line has a smaller squared residual sum, and every other line has a larger one |
| Fit.VarianceSplits | crates/bank-bench/src/fit.rs:102-118 | the total variation is the residual plus the explained part, so the coefficient of determination is the explained share and lies between zero and one |
| Fit.StandardErrorIs | crates/bank-bench/src/fit.rs:110-112 | the squared standard error times the spread of x and two less than the number of points is the residual sum |
| Fit.LineIsRecovered | crates/bank-bench/src/fit.rs:83-126 | points on a line give that line back with no standard error, full explanation, and a verdict by the sign of its slope |
| Fit.NoErrorExactlyOnTheLine | crates/bank-bench/src/fit.rs:27-28 | the standard error is zero only when every residual is |
| Fit.TwoStandardErrors | crates/bank-bench/src/fit.rs:43-45 | comparing squares is comparing the slope's size with twice the standard error, and the verdict is positive or negative when it is larger, by its sign, and flat otherwise |

## Left out

- Sockets, clusters, processes, start-up, fsync probes, the PostgreSQL client and the `load` methods: input and output.
- SHA-256 itself, the kernel, the streaming runtime, the compiler and the consensus simulator.
- `operator.rs`: the graph algorithms read only an operator's kind and conserving verdict.
- Circuit.Circuit.Add: leaves out the new node's key, arity and label, which no algorithm modelled here reads; the key needs `derive_key`, which is not part of this model.
- `clone_shell`, `explain` and the printing of refusals, and every renderer, writer and provenance stamp.
- Verdict gates, medians and manifest parsing: branch-by-branch facts.
- Floating-point rounding, the quality of random draws, timing and latency figures.
- The panic on a size that is not a number in `fit`: every real is one.
- The assertion in `differential` that a replay is refused, which release builds do not carry: the comparison goes on as they do.
- The replica's read retry loop, and the probe's final check for a lost delta after everything is quiet: both poll a live system.
- The set of keys a script has read: a figure for the memory report.
- Choosing queries and the mix: any query and any transfer at each turn covers them.
- `declared`, `holds` and hold resolution in the interpreter's ledger: no rule of sealing reads them.
- `fresh_nonce` and `password`: they read the operating system; a nonce is any text.
- Names listed in sorted order, and reading all lines of a transcript.
- Replica.BracketIsSound: assumes reported offsets are what readers see, one writer at a time, and log positions below the largest 64-bit number; `OffsetsMustBeWhatReadersSee` shows the first is needed.
- Differential.RunDifferential: schedules with an amount whose negation or product leaves the 128-bit range are excluded; the source stops or wraps there, and no generated schedule has one.
- Differential.NoDivergenceExactlyWhen: excludes the same schedules.
- Differential.MirrorNeverDiverges: excludes the same schedules.
- Schedules.OpeningRows: excludes an opening whose negated total leaves the 128-bit range.
- Schedules.OpeningBalanced: excludes the same openings.
- Schedules.OpeningFunds: excludes the same openings.
- Schedules.TransferMoves: excludes a transfer whose negated amount leaves the 128-bit range.
- KeyDerivation.Pbkdf2: a block index past 2^32 wraps the counter here, as in a release build; a debug build stops there.
- InterpLedger.Ledger.Balance: the sum of balances is unbounded here, as is the epoch counter; the source adds in 128 and 64 bits without a check.
- InterpLedger.Judge: the currency map is a finite map whose least key is taken each time, not a balanced tree.
- Circuit.Circuit.OutputIds: the outputs' order is not modelled; the live set does not depend on it.
