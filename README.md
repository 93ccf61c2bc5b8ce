# Council and referendum engines of the Substrate demo runtime, in Dafny

This project models the two governance modules of the early Substrate demo runtime as
Dafny classes over their storage and proves what their dispatch calls and block hooks do.

- **Council election engine** (`substrate/runtime/council/src/lib.rs`). It runs approval voting for council seats:
  - Candidates sit in the slots of a list with holes; an emptied slot holds the default account.
  - Voters hold a positional approval vector and the vote index at which they last voted. An approval counts only while that index is at least the candidate's registration index.
  - During a presentation window, candidates are presented onto a fixed-size leaderboard kept sorted by total.
  - The tally then seats the winners, keeps the runners-up in their slots and advances the vote index.
- **Referendum engine** (`substrate/runtime/democracy/src/lib.rs`). It covers:
  - public proposals backed by deposits that seconders add to;
  - referenda whose end blocks may not decrease;
  - stake-weighted voting;
  - a block hook that launches the proposal locking the most, refunds its depositors, and tallies the referenda that end at the current block.

Files:

- `common.dfy` (module `Common`): account ids, the outcome types, `swap_remove` and duplicate-freedom.
- `staking.dfy` (module `Staking`): the staking ledger the modules call. It is an abstraction (see "Left out"): free and reserved balances per account, with the operations the modules use.
- `sorting.dfy` (module `Sorting`): Rust's stable `sort_by_key`, as an insertion sort.
- `council_spec.dfy` (module `CouncilSpec`): the council's values and pure queries, with their lemmas.
- `council.dfy` (module `Council`): class `CouncilModule`, with one field per storage item and one method per dispatch call and hook.
- `democracy_spec.dfy` (module `DemocracySpec`): the referendum engine's values and pure queries, with their lemmas.
- `democracy.dfy` (module `Democracy`): class `DemocracyModule`, with the same layout as the council class.

Every dispatch that aborts in the source (an `assert!`, a `panic!` or a failed `expect`) aborts the whole call there. The model therefore returns `Fail(reason)`, or `Err(reason)`, and proves that nothing changed. Each such method is tied to a `...Check` function, whose contract states exactly when it passes.

Each class has an invariant, `Valid()`, which every method keeps.
- Council:
  - the voter list has no duplicates and matches the activity records;
  - every registered candidate sits in its slot, and the candidate count is the number of occupied slots;
  - while a presentation window is open, the stake snapshot stays aligned with the frozen voter list and the board is valid;
  - the council is sorted by expiry.
- Referendum engine:
  - every public proposal has a deposit record and an index of its own below the proposal counter;
  - stored referenda lie between the next referendum to tally and the referendum counter;
  - every voter list belongs to a stored referendum, lists each voter once and has a vote recorded for each voter.

Two behaviours of the code that its names and doc comments suggest otherwise, and that the model follows:

- `clear_referendum` (democracy `lib.rs:225-231`) is documented as "Remove all info on a referendum" (`lib.rs:224`), but it removes the voter list before it reads it. The vote records of a cleared referendum therefore stay in storage: `ClearReferendum` proves `voteOf == old(voteOf)`.
- The launch uses `max_by_key`, which picks the *last* of several proposals that lock the same amount (`Winner` states this).

## Model

| member | source | states |
|---|---|---|
| CouncilSpec.NextVoteFrom | substrate/runtime/council/src/lib.rs:185-188 | the result is a multiple of the voting period, not before `n` and less than one period after it |
| CouncilSpec.NextVoteFromLeast | substrate/runtime/council/src/lib.rs:185-188 | no multiple of the voting period lies between `n` and the result: it is the least such block |
| Council.CouncilModule.NextTally | substrate/runtime/council/src/lib.rs:192-218 | `None` exactly when no seats are desired; otherwise a voting-period boundary, and the first one from `now` when no window is open and seats are missing |
| Council.CouncilModule.SetApprovalsCheck | substrate/runtime/council/src/lib.rs:224-230 | passes exactly when no window is open, the index is current, and the caller already votes or can reserve the voting bond |
| Council.CouncilModule.SetApprovals | substrate/runtime/council/src/lib.rs:224-238 | on failure nothing changes; a first-time voter is appended and pays the bond; the approvals are replaced wholesale and marked active at `index` |
| Council.CouncilModule.ReapCheck | substrate/runtime/council/src/lib.rs:246-255 | passes exactly when no window is open, the reporter and the target are voters, the assumed index is the current vote index, the target is past the grace period, and both indices point at the reporter and the target |
| Council.CouncilModule.ReapInactiveVoter | substrate/runtime/council/src/lib.rs:245-277 | exactly one of the reporter and the target leaves the voter list. It is the target, whose bond goes to the reporter, exactly when none of its approvals still counts; otherwise the reporter leaves and its bond is slashed |
| CouncilSpec.AnyLiveApprovalIff | substrate/runtime/council/src/lib.rs:260-266 | the zipped `any` scan finds a live approval exactly when some position approves a registered, non-default candidate registered no later than the voter's last activity |
| Council.CouncilModule.RetractCheck | substrate/runtime/council/src/lib.rs:281-286 | passes exactly when no window is open, the caller votes and `index` is the caller's position |
| Council.CouncilModule.RetractVoter | substrate/runtime/council/src/lib.rs:280-289 | the caller is swap-removed, their approvals and activity are forgotten, every other voter stays, and the bond is unreserved |
| Council.CouncilModule.RemoveVoter | substrate/runtime/council/src/lib.rs:409-413 | the voter list is the old one with `index` swap-removed; exactly the removed voter leaves, and their records go |
| Common.SwapRemove | substrate/runtime/council/src/lib.rs:410 | `swap_remove`: one element shorter, the prefix is kept, the last element moves into the hole and the rest follows it |
| Common.SwapRemovePermutes | substrate/runtime/council/src/lib.rs:410 | `swap_remove` loses exactly the removed element: the multiset of the result plus that element is the multiset of the input |
| Common.SwapRemoveMembers | substrate/runtime/council/src/lib.rs:410 | on a list without duplicates, `swap_remove` removes exactly the element at `i` and keeps the list duplicate-free |
| Council.CouncilModule.SubmitCandidacyCheck | substrate/runtime/council/src/lib.rs:295-305 | passes exactly when the caller is not registered, can pay the bond, and the slot is the end of a list without holes or a hole |
| Council.CouncilModule.SubmitCandidacy | substrate/runtime/council/src/lib.rs:294-316 | on failure nothing changes; on success the caller pays the bond and is registered as `RegisterCandidate` states |
| Council.CouncilModule.RegisterCandidate | substrate/runtime/council/src/lib.rs:307-315 | the caller takes `slot` and no other slot changes; the list grows only when appending, and never while a hole exists; the count grows by one and the registration is `(vote_index, slot)` |
| CouncilSpec.OccupiedFull | substrate/runtime/council/src/lib.rs:299-303 | the count of occupied slots equals the length exactly when the list has no hole |
| CouncilSpec.OccupiedUpdate | substrate/runtime/council/src/lib.rs:310 | filling one slot changes the occupied count by what that slot held |
| CouncilSpec.RegisterConsistent | substrate/runtime/council/src/lib.rs:307-315 | registering a new candidate in a hole or at the end keeps every registration pointing at its own slot and the count equal to the occupied slots |
| Council.CouncilModule.PresentWinnerCheck | substrate/runtime/council/src/lib.rs:323-337 | passes exactly when the index is current, a window is open, the presenter can pay the penalty, the total beats the lowest entry, a candidate already seated holds one of the expiring seats, and the candidate is registered |
| Council.CouncilModule.PresentWinner | substrate/runtime/council/src/lib.rs:321-358 | the board keeps its length and stays sorted. A correct total for a candidate not on the board replaces the lowest entry; any other claim leaves the board and slashes the presenter `present_slash_per_voter × voters` |
| Council.CouncilModule.Admit | substrate/runtime/council/src/lib.rs:351-354 | the accepted entry replaces the lowest one, the board keeps its length, and the invariant holds |
| CouncilSpec.PresentedShape | substrate/runtime/council/src/lib.rs:352-353 | overwriting the lowest entry and re-sorting keeps the length and the order, evicts exactly the lowest entry, and inserts the new one |
| CouncilSpec.PresentedValid | substrate/runtime/council/src/lib.rs:349-354 | a presentation that passes the checks keeps the board non-empty and sorted, with distinct registered candidates |
| CouncilSpec.ActualTotalBound | substrate/runtime/council/src/lib.rs:339-348 | a recomputed total never exceeds the whole snapshotted stake |
| CouncilSpec.StaleApprovalsIgnored | substrate/runtime/council/src/lib.rs:339-348 | the approvals of voters last active before the candidate registered do not affect its total |
| CouncilSpec.SeatOf | substrate/runtime/council/src/lib.rs:333 | `position`: the first seat held by the candidate, or none when no seat is |
| Council.CouncilModule.RemoveMember | substrate/runtime/council/src/lib.rs:370-376 | exactly the seats of `who` go, and the council stays sorted by expiry |
| CouncilSpec.WithoutMemberSorted | substrate/runtime/council/src/lib.rs:371-374 | filtering a council sorted by expiry keeps it sorted |
| Council.CouncilModule.SetDesiredSeats | substrate/runtime/council/src/lib.rs:363-365 | the desired seat count is set |
| Council.CouncilModule.SetPresentationDuration | substrate/runtime/council/src/lib.rs:380-382 | the presentation duration is set |
| Council.CouncilModule.SetTermDuration | substrate/runtime/council/src/lib.rs:386-388 | the term duration is set |
| Council.CouncilModule.EndBlock | substrate/runtime/council/src/lib.rs:393-406 | the invariant holds; no window is left due at `now`; the vote index grows by at most one, and, unless a tally starts now, it grows exactly when a window closes now |
| Council.CouncilModule.StartTally | substrate/runtime/council/src/lib.rs:416-433 | a window opens exactly when the seats that do not expire fall short. It records the end, the empty seats and the expiring members, snapshots every voter's balance, and lays out `empty_seats + carry_count` zero entries; otherwise nothing changes |
| CouncilSpec.ExpiringAt | substrate/runtime/council/src/lib.rs:420 | the `take_while`: the leading members whose seats expire at `now`, stopping at the first that does not |
| Council.CouncilModule.FinaliseTally | substrate/runtime/council/src/lib.rs:439-496 | the window closes and the snapshot goes; the vote index grows by one. Per `Settled`: winners are refunded and seated at `now + term_duration` in a council sorted by expiry; only runners-up stay registered, in their slots; the list does not grow and has no empty tail |
| Council.CouncilModule.SettleTally | substrate/runtime/council/src/lib.rs:444-495 | the winners are refunded and seated and only the runners-up stay candidates, as `Settled` states; the candidate slots, count and registrations stay consistent and the council stays sorted by expiry |
| Council.CouncilModule.SeatWinners | substrate/runtime/council/src/lib.rs:444-467 | per `WinnersSeated`: each winner gets the candidacy bond back, and the council is sorted by expiry and is the kept seats plus one seat per winner expiring at `now + term` |
| Council.CouncilModule.KeepRunnersUp | substrate/runtime/council/src/lib.rs:469-493 | per `RunnersUpKept`: exactly the runners-up stay registered with their old registrations, the count is their number, and the candidate slots stay consistent |
| Council.CouncilModule.CloseWindow | substrate/runtime/council/src/lib.rs:440-443 | the snapshot, the finalisation record and the board are gone, and the invariant holds |
| CouncilSpec.Winners | substrate/runtime/council/src/lib.rs:447-451 | at most `coming` entries, fewer only when the presented (non-zero) entries run out |
| CouncilSpec.RunnersUp | substrate/runtime/council/src/lib.rs:473-477 | the winners and runners-up together are exactly the presented entries |
| CouncilSpec.TopEntries | substrate/runtime/council/src/lib.rs:449-450 | the entries read from the top of the board down, in that order, each with a non-zero total |
| CouncilSpec.TopHasAllPresented | substrate/runtime/council/src/lib.rs:449-450 | on a sorted board every entry with a non-zero total is read by `Top` |
| CouncilSpec.RunnersUpValid | substrate/runtime/council/src/lib.rs:473-477 | on a valid board the runners-up are registered and pairwise distinct |
| Council.CouncilModule.NewCouncil | substrate/runtime/council/src/lib.rs:456-468 | the new council is sorted by expiry and is a permutation of the kept seats plus one seat per winner expiring at `now + term` |
| Sorting.SortByKey | substrate/runtime/council/src/lib.rs:467 | the result is sorted by the key and a permutation of the input |
| Sorting.SortOfSorted | substrate/runtime/council/src/lib.rs:467 | the stable sort leaves a sorted list unchanged |
| Sorting.InsertBySplit | substrate/runtime/council/src/lib.rs:353 | the inserted element lands after every strictly smaller key and before the first key that is not smaller |
| Sorting.InsertByPermutes | substrate/runtime/council/src/lib.rs:353 | inserting adds exactly the one element: the result is a permutation of the input plus it |
| Council.CouncilModule.ClearCandidates | substrate/runtime/council/src/lib.rs:469-492 | only runners-up stay, each in its own registered slot with its old registration; the count is their number; the list does not grow, and its last slot is occupied when any runner-up remains |
| Council.CouncilModule.PlaceRunnersUp | substrate/runtime/council/src/lib.rs:471-482 | on an empty list of the old length, each runner-up is written into its slot and nothing else is; the count is the number of runners-up |
| Council.CouncilModule.DropDisplaced | substrate/runtime/council/src/lib.rs:483-488 | a registration is kept exactly when its slot still holds its candidate |
| Council.CouncilModule.TrimTail | substrate/runtime/council/src/lib.rs:490-492 | only the empty tail after the last occupied slot goes; a list with no occupied slot is left as is |
| Council.CouncilModule.DistinctSlots | substrate/runtime/council/src/lib.rs:479-481 | distinct registered runners-up write to distinct slots |
| Council.CouncilModule.KeptConsistent | substrate/runtime/council/src/lib.rs:479-493 | the slots and registrations left by the two loops and the truncation agree |
| Staking.WithReserve | substrate/runtime/council/src/lib.rs:228 | `reserve_balance`: the amount moves from the free to the reserved balance |
| Staking.Ledger.Reserve | substrate/runtime/council/src/lib.rs:228 | succeeds exactly when the free balance covers the amount, which is then reserved; on failure the ledger is unchanged |
| Staking.WithUnreserve | substrate/runtime/council/src/lib.rs:288 | `unreserve_balance`: the balance is unchanged and the reserved part shrinks by the amount, saturating at zero |
| Staking.WithDeduct | substrate/runtime/council/src/lib.rs:296 | `deduct_unbonded`: the amount leaves the free balance, and the reserved balance is unchanged |
| Staking.WithRefund | substrate/runtime/democracy/src/lib.rs:247 | `refund`: the amount is credited to the free balance |
| Staking.WithTransferReserved | substrate/runtime/council/src/lib.rs:272 | `transfer_reserved_balance`: up to `value` (at most the sender's reserved balance) leaves the sender's reserved balance and reaches the receiver's free balance; the other two balances are unchanged, so the sum is kept |
| Staking.WithSlashReserved | substrate/runtime/council/src/lib.rs:274 | `slash_reserved`: the reserved balance shrinks by the amount, saturating at zero; the free balance is unchanged |
| Staking.WithSlash | substrate/runtime/council/src/lib.rs:356 | `slash`: the balance shrinks by the amount, or to zero when it does not cover it, taking from the free balance first |
| Staking.BalancesIn | substrate/runtime/council/src/lib.rs:425-426 | the snapshot: one balance per voter, in voter order |
| CouncilSpec.LastOccupied | substrate/runtime/council/src/lib.rs:490 | `rposition`: the last occupied slot, or none when every slot is empty |
| CouncilSpec.Vacant | substrate/runtime/council/src/lib.rs:472 | a list of `n` empty slots |
| CouncilSpec.NewSeatsEntries | substrate/runtime/council/src/lib.rs:462-465 | one seat per winner, in order, expiring at the new expiry |
| CouncilSpec.WithoutMember | substrate/runtime/council/src/lib.rs:371-374 | the `filter`: exactly the seats not held by `who` |
| DemocracySpec.TakeEnding | substrate/runtime/democracy/src/lib.rs:130 | the `take_while`: the longest prefix of referenda ending at `n` |
| Staking.Ledger.DeductUnbonded | substrate/runtime/council/src/lib.rs:296 | succeeds exactly when the free balance covers the amount, which is then taken; on failure the ledger is unchanged |
| Staking.Ledger.RefundEach | substrate/runtime/democracy/src/lib.rs:246-248 | each listed depositor is refunded once per listing |
| Staking.RefundedCredits | substrate/runtime/democracy/src/lib.rs:246-248 | after the refund loop, an account's free balance has grown by the amount times the number of times it is listed, and its reserved balance is unchanged |
| DemocracySpec.LockedFor | substrate/runtime/democracy/src/lib.rs:106-108 | defined exactly for proposals with a deposit record, as `deposit × depositors` |
| DemocracySpec.SecondedLocks | substrate/runtime/democracy/src/lib.rs:159-165 | seconding adds exactly one more deposit of the same amount to what the proposal locks |
| Democracy.DemocracyModule.IsActiveReferendum | substrate/runtime/democracy/src/lib.rs:111-113 | a referendum is active exactly when `active_referendums` lists it |
| DemocracySpec.ActiveReferendums | substrate/runtime/democracy/src/lib.rs:116-122 | only stored referenda in the range, with their stored info, in strictly increasing index order |
| DemocracySpec.ActiveCovers | substrate/runtime/democracy/src/lib.rs:116-122 | every stored referendum in the range is listed |
| DemocracySpec.MaturingAt | substrate/runtime/democracy/src/lib.rs:125-132 | only stored referenda of the range that end at `n`, with their stored info, in strictly increasing index order |
| DemocracySpec.MaturingIff | substrate/runtime/democracy/src/lib.rs:125-132 | a referendum matures at `n` exactly when it is stored in the range and every stored referendum from `next` up to it ends at `n`; cancelled ones are skipped |
| DemocracySpec.MaturingCovers | substrate/runtime/democracy/src/lib.rs:125-132 | the maturing referenda form a run that no stored referendum from `next` on skips |
| DemocracySpec.SidingMembers | substrate/runtime/democracy/src/lib.rs:135-140 | an account is counted on a side exactly when it is in the voter list and its recorded vote takes that side |
| DemocracySpec.TallySplits | substrate/runtime/democracy/src/lib.rs:135-140 | the tally is the stake of the aye voters against the stake of the nay voters, and together they are the stake of all voters |
| Democracy.DemocracyModule.TallyOf | substrate/runtime/democracy/src/lib.rs:135-140 | the aye and nay stakes of the referendum's voter list, summing to its whole stake |
| DemocracySpec.TallyIgnoresUnlisted | substrate/runtime/democracy/src/lib.rs:135-140 | a vote recorded for an account outside the voter list does not change the tally |
| Democracy.DemocracyModule.ProposeCheck | substrate/runtime/democracy/src/lib.rs:146-147 | passes exactly when the value reaches the minimum deposit and the proposer can pay it |
| Democracy.DemocracyModule.Propose | substrate/runtime/democracy/src/lib.rs:145-156 | on failure nothing changes. On success the old counter becomes the index of the new proposal, the counter grows by one, the deposit `(value, [caller])` is recorded under a fresh key, the proposal is appended, and it locks exactly `value` |
| Democracy.DemocracyModule.SecondCheck | substrate/runtime/democracy/src/lib.rs:160-161 | passes exactly when the proposal has a deposit record and the seconder can pay its amount |
| Democracy.DemocracyModule.Second | substrate/runtime/democracy/src/lib.rs:159-165 | on failure nothing changes; on success the caller is appended to the depositors, the amount is unchanged, and the locked total grows by one deposit |
| Democracy.DemocracyModule.VoteCheck | substrate/runtime/democracy/src/lib.rs:170-175 | passes exactly when the referendum is stored and the caller has a non-zero balance |
| Democracy.DemocracyModule.Vote | substrate/runtime/democracy/src/lib.rs:169-182 | on failure nothing changes; on success the vote is stored over any earlier one, and the voter list grows by the caller only on a first vote |
| Democracy.DemocracyModule.RecordVote | substrate/runtime/democracy/src/lib.rs:176-181 | the vote replaces an earlier one; on a first vote the caller was not listed and is appended; otherwise the list is unchanged |
| DemocracySpec.FirstVoteCounts | substrate/runtime/democracy/src/lib.rs:176-181 | a first vote adds the voter's whole balance to the side it takes and leaves the other side unchanged |
| DemocracySpec.FirstVoteConsistent | substrate/runtime/democracy/src/lib.rs:176-181 | a first vote on a stored referendum keeps every voter list duplicate-free and backed by recorded votes |
| Democracy.DemocracyModule.InjectCheck | substrate/runtime/democracy/src/lib.rs:214-216 | passes exactly when the referendum with the preceding index is not stored or does not end later than `end` |
| Democracy.DemocracyModule.InjectReferendum | substrate/runtime/democracy/src/lib.rs:209-222 | refuses exactly an end earlier than that of the stored preceding referendum, changing nothing; otherwise it stores the referendum under the old counter, a fresh index, and the counter grows by exactly one |
| DemocracySpec.InjectKeepsOrder | substrate/runtime/democracy/src/lib.rs:214-220 | when the referendum before the new one is stored, the check keeps stored end blocks non-decreasing by index |
| DemocracySpec.InjectAfterClearUnordered | substrate/runtime/democracy/src/lib.rs:214-216 | once the preceding referendum is cleared, the check can let an earlier end through: end blocks are not ordered in every state |
| Democracy.DemocracyModule.StartReferendum | substrate/runtime/democracy/src/lib.rs:185-187 | injects a referendum ending a voting period after the current block, or fails as the injection does |
| Democracy.DemocracyModule.CancelReferendum | substrate/runtime/democracy/src/lib.rs:190-192 | the referendum is no longer active; its info and voter list are gone, and its votes stay |
| Democracy.DemocracyModule.ClearReferendum | substrate/runtime/democracy/src/lib.rs:225-231 | the info and the voter list go; the votes are read from the already-removed list, so every vote record stays |
| Democracy.DemocracyModule.RemoveVotes | substrate/runtime/democracy/src/lib.rs:228-230 | the loop forgets exactly the votes of the listed voters on the referendum |
| Democracy.DemocracyModule.EndBlockCheck | substrate/runtime/democracy/src/lib.rs:236-251 | the hook aborts exactly on a launch boundary with proposals waiting, when the launched referendum would end before the preceding one |
| Democracy.DemocracyModule.EndBlock | substrate/runtime/democracy/src/lib.rs:234-264 | on failure nothing changes. Otherwise, on a launch boundary with proposals waiting, one proposal leaves the list and one referendum is added; without a launch, the proposals, deposits, counter and ledger are unchanged; vote records are never touched |
| Democracy.DemocracyModule.Launch | substrate/runtime/democracy/src/lib.rs:236-251 | the `Winner` proposal is swap-removed and its deposit record is taken. Each depositor is refunded the deposit, and a super-majority referendum for it ends a voting period from now under the next index |
| Democracy.DemocracyModule.TakeWinner | substrate/runtime/democracy/src/lib.rs:238-249 | the `Winner` proposal is swap-removed, its deposit record deleted and its depositors refunded, keeping every other proposal deposited |
| DemocracySpec.Winner | substrate/runtime/democracy/src/lib.rs:238-241 | a proposal locking the most, with every later one in list order locking strictly less: the last maximum |
| DemocracySpec.LastMax | substrate/runtime/democracy/src/lib.rs:240 | `max_by_key`: a position of a greatest key, after which every key is strictly smaller |
| DemocracySpec.LaunchKeepsDeposits | substrate/runtime/democracy/src/lib.rs:242-244 | swap-removing a proposal and taking its deposit keeps every other proposal deposited, under distinct indices below the counter |
| Democracy.DemocracyModule.TallyMaturing | substrate/runtime/democracy/src/lib.rs:254-263 | the maturing referenda lose their info and voter lists. Exactly the proposals of those that pass are dispatched, in index order; vote records stay; the next tally is one past the last of them |
| Democracy.DemocracyModule.TallyRun | substrate/runtime/democracy/src/lib.rs:255-263 | the loop over a covering run: each referendum is cleared, its proposal dispatched when it passes on its own voters' stake, and the next tally advanced |
| Democracy.DemocracyModule.TallyOne | substrate/runtime/democracy/src/lib.rs:256-262 | one round: the tally is taken before the referendum is cleared, the proposal is dispatched exactly when the rule passes it, and the next tally is the following index |
| DemocracySpec.EnactedIff | substrate/runtime/democracy/src/lib.rs:255-261 | a proposal is dispatched exactly when some tallied referendum for it passes, and no more proposals are dispatched than referenda tallied |
| DemocracySpec.EnactedSnoc | substrate/runtime/democracy/src/lib.rs:255-261 | tallying one more referendum dispatches its proposal after the earlier ones exactly when it passes |
| DemocracySpec.RunStep | substrate/runtime/democracy/src/lib.rs:255-262 | the round that takes the next referendum of a covering run finds it first among those stored, with its voter list untouched, and extends the dispatched proposals as `Enacted` does |
| DemocracySpec.PassesOnOwnVoters | substrate/runtime/democracy/src/lib.rs:256-259 | whether a referendum passes depends only on its own voter list |

## Left out

- The staking module is not part of this model. The ledger in `staking.dfy` states what the modules assume of it:
  - an account's balance is its free plus reserved balance;
  - `reserve_balance` and `deduct_unbonded` succeed exactly when the free balance covers the amount;
  - `unreserve_balance`, `slash_reserved` and `slash` saturate at zero;
  - `transfer_reserved_balance` moves reserved funds to the receiver's free balance;
  - `can_slash` holds when the whole balance covers the amount.
- `staking::total_stake` is a parameter, `totalStake`, of the referendum hook. The ledger does not change during the tally loop, so every round would read the same value.
- `VoteThreshold::approved`: the `vote_threshold` module is not part of this model. The rule is a function parameter, `approved`, of the referendum hook.
- `proposal.dispatch()` runs arbitrary runtime calls. The model appends the proposal to `dispatched` instead.
- The block number is a parameter, `now`, of the hooks and of `StartReferendum`. The timestamp module and `polkadot/validator/src/error.rs` hold no logic and are not modelled.
- Storage plumbing is not modelled: the storage macros, key prefixes, hashing, codec encoding, genesis configuration, the test externalities and the `Executable` glue. Storage items are class fields. A `map` store's absent key reads as the default value, as `VotersOf` and `ApprovalsIn` do.
- `internal_start_referendum` and `internal_cancel_referendum` are the same as `StartReferendum` and `CancelReferendum`, so they have no separate members.
- The commented-out test blocks are not modelled.
- Machine widths (`u32` indices, `usize` casts, `T::Balance`) are not modelled: balances, indices and block numbers are unbounded naturals.
- Two subtractions that can underflow in the source are preconditions instead:
  - `Council.CouncilModule.ReapInactiveVoter` requires `inactivityGracePeriod <= assumedVoteIndex` for `assumed_vote_index - inactivity_grace_period()`;
  - `Council.CouncilModule.NextTally` and `Council.CouncilModule.EndBlock` require the expiring members of an open window to be at most the council size, for `c.len() - leavers.len()`.
- Council.CouncilModule.SubmitCandidacy: requires that the caller is not the default account. The default account marks empty slots, so it cannot hold a registration. The source does not exclude it, because that account never signs.
- Council.CouncilModule.SubmitCandidacy, Democracy.DemocracyModule.Propose and the other dispatches: a failing check leaves all state unchanged. In the source, `submit_candidacy` and `propose` deduct funds before a later assertion can abort; the abort rolls the whole call back.
- The voting period and the launch period are positive. `votingPeriod > 0` is part of the council invariant and `launchPeriod > 0` of the referendum invariant, because the source divides by them.
- Democracy.DemocracyModule.RecordVote: the change in the tally is not stated in the method; `FirstVoteCounts` states it about the tally function.
- Democracy.DemocracyModule.EndBlock: states the launch's and the tally's effects on sizes and unchanged stores only. `Launch` and `TallyMaturing` state the exact effects of the two parts it runs.
- Council.CouncilModule.EndBlock: states the vote index and the window. `StartTally` and `FinaliseTally` state the exact effects of the two parts it runs.
- Democracy.DemocracyModule.InjectReferendum: keeps end blocks ordered only while the preceding referendum is stored (`InjectKeepsOrder`). `InjectAfterClearUnordered` exhibits a state where they are not. Every caller passes `now + voting_period`, so such an end cannot arise from the hooks alone.
- Sorting.SortByKey: stability is shown only as far as `SortOfSorted` and `InsertBySplit` state it. The full order of equal keys is not stated.
- `finalise_tally` with no runners-up: `rposition` finds no occupied slot, so the source does not truncate. The model keeps the full-length list of empty slots (`ClearCandidates`), as the code does.
