/** The referendum engine: public proposals backed by deposits, referenda that the block hook
    launches from the best-backed proposal or that privileged callers start, stake-weighted
    voting, and the tally of the referenda whose voting period ends. Storage is the fields of
    `DemocracyModule`; every dispatch either fails with the reason its first failing check
    gives, changing nothing, or applies its whole effect. */
module Democracy {
  import opened Common
  import opened DemocracySpec
  import Staking

  /** The reasons a referendum dispatch aborts, one per failing check of the source. */
  datatype Error =
    | DepositTooLow           // the deposit offered is below the minimum
    | ProposerFunds           // the proposer cannot pay the deposit
    | UnknownProposal         // seconding a proposal that has no deposit record
    | SeconderFunds           // the seconder cannot pay the deposit
    | InactiveReferendum      // voting on a referendum that is not stored
    | NoBalance               // voting with no stake
    | EndsTooEarly            // a referendum that would end before the one started before it

  class DemocracyModule {
    // parameters fixed at genesis
    const launchPeriod: BlockNumber
    const minimumDeposit: nat
    const votingPeriod: BlockNumber

    // proposals
    var publicPropCount: PropIndex
    var publicProps: seq<PublicProp>
    var depositOf: map<PropIndex, Deposit>

    // referenda
    var referendumCount: ReferendumIndex
    var nextTally: ReferendumIndex
    var referendumInfoOf: map<ReferendumIndex, RefInfo>
    var votersFor: map<ReferendumIndex, seq<AccountId>>
    var voteOf: map<(ReferendumIndex, AccountId), bool>

    /** The proposals enacted so far, in the order they were dispatched. */
    var dispatched: seq<Proposal>

    /** The stake ledger deposits are drawn from and votes are weighed by. */
    const staking: Staking.Ledger

    /** The invariant every dispatch and the block hook keep. */
    ghost predicate Valid()
      reads this`publicPropCount, this`publicProps, this`depositOf, this`referendumCount, this`nextTally,
            this`referendumInfoOf, this`votersFor, this`voteOf
    {
      && launchPeriod > 0
      && PropsConsistent(publicProps, depositOf, publicPropCount)
      && ReferendaInRange(referendumInfoOf, nextTally, referendumCount)
      && VotesConsistent(referendumInfoOf, referendumCount, votersFor, voteOf)
    }

    /** Genesis: the parameters and an otherwise empty store. */
    constructor (launchPeriod: BlockNumber, minimumDeposit: nat, votingPeriod: BlockNumber, staking: Staking.Ledger)
      requires launchPeriod > 0
      ensures Valid()
      ensures this.staking == staking && publicProps == [] && referendumInfoOf == map[] && dispatched == []
    {
      this.launchPeriod := launchPeriod;
      this.minimumDeposit := minimumDeposit;
      this.votingPeriod := votingPeriod;
      this.staking := staking;
      publicPropCount := 0;
      publicProps := [];
      depositOf := map[];
      referendumCount := 0;
      nextTally := 0;
      referendumInfoOf := map[];
      votersFor := map[];
      voteOf := map[];
      dispatched := [];
    }

    // -------------------------------------------------------------------------------------
    // Queries

    /** `is_active_referendum`: a referendum is active exactly when `active_referendums` lists it. */
    predicate IsActiveReferendum(r: ReferendumIndex)
      reads this`referendumCount, this`nextTally, this`referendumInfoOf
      requires ReferendaInRange(referendumInfoOf, nextTally, referendumCount)
      ensures IsActiveReferendum(r) <==> r in RefIndices(ActiveReferendums(referendumInfoOf, nextTally, referendumCount))
    {
      if r in referendumInfoOf then
        ActiveCovers(referendumInfoOf, nextTally, referendumCount, r);
        true
      else
        false
    }

    /** `tally`: the stake voting aye and the stake voting nay on referendum `r`. */
    function TallyOf(r: ReferendumIndex): (t: (nat, nat))
      reads this`referendumCount, this`referendumInfoOf, this`votersFor, this`voteOf, staking
      requires VotesConsistent(referendumInfoOf, referendumCount, votersFor, voteOf)
      ensures t.0 == StakeOf(staking.accounts, Siding(VotersOf(votersFor, r), voteOf, r, true))
      ensures t.1 == StakeOf(staking.accounts, Siding(VotersOf(votersFor, r), voteOf, r, false))
      ensures t.0 + t.1 == StakeOf(staking.accounts, VotersOf(votersFor, r))
    {
      TallySplits(staking.accounts, VotersOf(votersFor, r), voteOf, r);
      Tally(staking.accounts, VotersOf(votersFor, r), voteOf, r)
    }

    // -------------------------------------------------------------------------------------
    // The checks of each dispatch, in the source's order

    function ProposeCheck(caller: AccountId, value: nat): (e: Option<Error>)
      reads this, staking
      ensures e.None? <==> value >= minimumDeposit && staking.Free(caller) >= value
    {
      if value < minimumDeposit then Some(DepositTooLow)
      else if staking.Free(caller) < value then Some(ProposerFunds)
      else None
    }

    function SecondCheck(caller: AccountId, p: PropIndex): (e: Option<Error>)
      reads this, staking
      ensures e.None? <==> p in depositOf && staking.Free(caller) >= depositOf[p].amount
    {
      if p !in depositOf then Some(UnknownProposal)
      else if staking.Free(caller) < depositOf[p].amount then Some(SeconderFunds)
      else None
    }

    function VoteCheck(caller: AccountId, r: ReferendumIndex): (e: Option<Error>)
      reads this, staking
      ensures e.None? <==> r in referendumInfoOf && staking.Balance(caller) > 0
    {
      if r !in referendumInfoOf then Some(InactiveReferendum)
      else if staking.Balance(caller) == 0 then Some(NoBalance)
      else None
    }

    function InjectCheck(end: BlockNumber): (e: Option<Error>)
      reads this
      ensures e.None? <==> EndFollows(referendumInfoOf, referendumCount, end)
    {
      if referendumCount > 0 && referendumCount - 1 in referendumInfoOf && referendumInfoOf[referendumCount - 1].end > end
      then Some(EndsTooEarly)
      else None
    }

    /** The block hook aborts only when the referendum it launches would end too early. */
    function EndBlockCheck(now: BlockNumber): (e: Option<Error>)
      reads this
      requires launchPeriod > 0
      ensures e.None? <==> now % launchPeriod != 0 || publicProps == [] ||
                           EndFollows(referendumInfoOf, referendumCount, now + votingPeriod)
    {
      if now % launchPeriod == 0 && publicProps != [] then InjectCheck(now + votingPeriod) else None
    }

    // -------------------------------------------------------------------------------------
    // Dispatch

    /** `propose`: the proposer locks a deposit of at least the minimum behind a new public
        proposal, which takes the next proposal index. */
    method Propose(caller: AccountId, proposal: Proposal, value: nat) returns (r: Outcome<Error>)
      requires Valid()
      modifies this`publicPropCount, this`depositOf, this`publicProps, staking
      ensures Valid()
      ensures r == OutcomeOf(old(ProposeCheck(caller, value)))
      ensures r.Fail? ==> publicPropCount == old(publicPropCount) && depositOf == old(depositOf) &&
                          publicProps == old(publicProps) && staking.accounts == old(staking.accounts)
      ensures r.Pass? ==>
                && publicPropCount == old(publicPropCount) + 1
                && old(publicPropCount) !in old(depositOf)
                && depositOf == old(depositOf)[old(publicPropCount) := Deposit(value, [caller])]
                && publicProps == old(publicProps) + [PublicProp(old(publicPropCount), proposal, caller)]
                && staking.accounts == Staking.WithDeduct(old(staking.accounts), caller, value)
      ensures r.Pass? ==> LockedFor(depositOf, old(publicPropCount)) == Some(value)
    {
      var check := ProposeCheck(caller, value);
      if check.Some? {
        return Fail(check.value);
      }
      var ok := staking.DeductUnbonded(caller, value);
      assert ok;
      var index := publicPropCount;
      publicPropCount := index + 1;
      depositOf := depositOf[index := Deposit(value, [caller])];
      publicProps := publicProps + [PublicProp(index, proposal, caller)];
      r := Pass;
    }

    /** `second`: the seconder locks the same deposit again behind an existing proposal and
        joins its depositors. */
    method Second(caller: AccountId, p: PropIndex) returns (r: Outcome<Error>)
      requires Valid()
      modifies this`depositOf, staking
      ensures Valid()
      ensures r == OutcomeOf(old(SecondCheck(caller, p)))
      ensures r.Fail? ==> depositOf == old(depositOf) && staking.accounts == old(staking.accounts)
      ensures r.Pass? ==>
                && depositOf == old(depositOf)[p := Deposit(old(depositOf)[p].amount, old(depositOf)[p].depositors + [caller])]
                && staking.accounts == Staking.WithDeduct(old(staking.accounts), caller, old(depositOf)[p].amount)
      ensures r.Pass? ==> LockedFor(depositOf, p).value == old(LockedFor(depositOf, p)).value + old(depositOf)[p].amount
    {
      var check := SecondCheck(caller, p);
      if check.Some? {
        return Fail(check.value);
      }
      var deposit := depositOf[p];
      var ok := staking.DeductUnbonded(caller, deposit.amount);
      assert ok;
      SecondedLocks(depositOf, p, caller);
      depositOf := depositOf[p := Deposit(deposit.amount, deposit.depositors + [caller])];
      r := Pass;
    }

    /** `vote`: records the caller's vote on a stored referendum (see `RecordVote`) when the
        caller has some stake. */
    method Vote(caller: AccountId, ref: ReferendumIndex, approve: bool) returns (r: Outcome<Error>)
      requires Valid()
      modifies this`votersFor, this`voteOf
      ensures Valid()
      ensures r == OutcomeOf(old(VoteCheck(caller, ref)))
      ensures r.Fail? ==> votersFor == old(votersFor) && voteOf == old(voteOf)
      ensures r.Pass? ==> voteOf == old(voteOf)[(ref, caller) := approve]
      ensures r.Pass? ==> votersFor == if (ref, caller) in old(voteOf) then old(votersFor)
                                       else old(votersFor)[ref := VotersOf(old(votersFor), ref) + [caller]]
    {
      var check := VoteCheck(caller, ref);
      if check.Some? {
        return Fail(check.value);
      }
      RecordVote(caller, ref, approve);
      r := Pass;
    }

    /** The effect of `vote`: the caller's vote replaces an earlier one, and the caller joins
        the voter list on a first vote only (so `FirstVoteCounts` gives the new tally). */
    method RecordVote(caller: AccountId, ref: ReferendumIndex, approve: bool)
      requires Valid() && ref in referendumInfoOf
      modifies this`votersFor, this`voteOf
      ensures Valid()
      ensures voteOf == old(voteOf)[(ref, caller) := approve]
      ensures (ref, caller) in old(voteOf) ==> votersFor == old(votersFor)
      ensures (ref, caller) !in old(voteOf) ==>
                && caller !in old(VotersOf(votersFor, ref))
                && votersFor == old(votersFor)[ref := VotersOf(old(votersFor), ref) + [caller]]
    {
      if (ref, caller) !in voteOf {
        var voters := VotersOf(votersFor, ref);
        FirstVoteConsistent(referendumInfoOf, referendumCount, votersFor, voteOf, ref, caller, approve);
        votersFor := votersFor[ref := voters + [caller]];
        voteOf := voteOf[(ref, caller) := approve];
      } else {
        RevoteConsistent(referendumInfoOf, referendumCount, votersFor, voteOf, ref, caller, approve);
        voteOf := voteOf[(ref, caller) := approve];
      }
    }

    /** `inject_referendum`: stores a referendum under the next referendum index, unless the
        referendum with the preceding index is stored and ends later than `end`. */
    method InjectReferendum(end: BlockNumber, proposal: Proposal, threshold: VoteThreshold)
      returns (r: Result<ReferendumIndex, Error>)
      requires Valid()
      modifies this`referendumCount, this`referendumInfoOf
      ensures Valid()
      ensures r == if old(EndFollows(referendumInfoOf, referendumCount, end)) then Ok(old(referendumCount)) else Err(EndsTooEarly)
      ensures r.Err? ==> referendumCount == old(referendumCount) && referendumInfoOf == old(referendumInfoOf)
      ensures r.Ok? ==>
                && referendumCount == old(referendumCount) + 1
                && old(referendumCount) !in old(referendumInfoOf)
                && referendumInfoOf == old(referendumInfoOf)[old(referendumCount) := RefInfo(end, proposal, threshold)]
    {
      var check := InjectCheck(end);
      if check.Some? {
        return Err(check.value);
      }
      var index := referendumCount;
      InjectConsistent(referendumInfoOf, index, votersFor, voteOf, RefInfo(end, proposal, threshold));
      referendumCount := index + 1;
      referendumInfoOf := referendumInfoOf[index := RefInfo(end, proposal, threshold)];
      r := Ok(index);
    }

    /** `start_referendum`: a privileged caller starts a referendum that ends a voting period
        after the current block. */
    method StartReferendum(now: BlockNumber, proposal: Proposal, threshold: VoteThreshold) returns (r: Outcome<Error>)
      requires Valid()
      modifies this`referendumCount, this`referendumInfoOf
      ensures Valid()
      ensures r == OutcomeOf(old(InjectCheck(now + votingPeriod)))
      ensures r.Fail? ==> referendumCount == old(referendumCount) && referendumInfoOf == old(referendumInfoOf)
      ensures r.Pass? ==>
                && referendumCount == old(referendumCount) + 1
                && referendumInfoOf == old(referendumInfoOf)[old(referendumCount) := RefInfo(now + votingPeriod, proposal, threshold)]
    {
      var index := InjectReferendum(now + votingPeriod, proposal, threshold);
      r := if index.Ok? then Pass else Fail(index.error);
    }

    /** Forgets the votes of `voters` on referendum `index`. */
    method RemoveVotes(index: ReferendumIndex, voters: seq<AccountId>)
      modifies this`voteOf
      ensures voteOf == old(voteOf) - (set v | v in voters :: (index, v))
    {
      for k := 0 to |voters|
        invariant voteOf == old(voteOf) - (set v | v in voters[..k] :: (index, v))
      {
        assert voters[..k + 1] == voters[..k] + [voters[k]];
        voteOf := voteOf - {(index, voters[k])};
      }
      assert voters[..|voters|] == voters;
    }

    /** `clear_referendum`: removes the referendum and its voter list. The votes to forget are
        read from the voter list after it has been removed, so that list is empty and every
        recorded vote stays in storage. */
    method ClearReferendum(index: ReferendumIndex)
      requires Valid()
      modifies this`referendumInfoOf, this`votersFor, this`voteOf
      ensures Valid()
      ensures referendumInfoOf == old(referendumInfoOf) - {index}
      ensures votersFor == old(votersFor) - {index}
      ensures voteOf == old(voteOf)
    {
      ClearConsistent(referendumInfoOf, referendumCount, votersFor, voteOf, index);
      referendumInfoOf := referendumInfoOf - {index};
      votersFor := votersFor - {index};
      var voters := VotersOf(votersFor, index);
      assert (set v | v in voters :: (index, v)) == {};
      RemoveVotes(index, voters);
    }

    /** `cancel_referendum`: a privileged caller removes a referendum. */
    method CancelReferendum(index: ReferendumIndex)
      requires Valid()
      modifies this`referendumInfoOf, this`votersFor, this`voteOf
      ensures Valid()
      ensures !IsActiveReferendum(index)
      ensures referendumInfoOf == old(referendumInfoOf) - {index} && votersFor == old(votersFor) - {index}
      ensures voteOf == old(voteOf)
    {
      ClearReferendum(index);
    }

    // -------------------------------------------------------------------------------------
    // The block hook

    /** The launch part of `end_block`: the winning public proposal (see `TakeWinner`) goes to
        a referendum that ends a voting period from now and needs a super-majority to pass. */
    method Launch(now: BlockNumber) returns (k: nat)
      requires Valid() && publicProps != []
      requires EndFollows(referendumInfoOf, referendumCount, now + votingPeriod)
      modifies this`publicProps, this`depositOf, this`referendumCount, this`referendumInfoOf, staking
      ensures Valid()
      ensures k == Winner(old(publicProps), old(depositOf))
      ensures publicProps == SwapRemove(old(publicProps), k)
      ensures depositOf == old(depositOf) - {old(publicProps)[k].index}
      ensures staking.accounts == Staking.Refunded(old(staking.accounts), old(depositOf)[old(publicProps)[k].index].depositors,
                                                   old(depositOf)[old(publicProps)[k].index].amount)
      ensures referendumCount == old(referendumCount) + 1
      ensures referendumInfoOf == old(referendumInfoOf)[old(referendumCount) :=
                                   RefInfo(now + votingPeriod, old(publicProps)[k].proposal, SuperMajorityApprove)]
    {
      var winner;
      k, winner := TakeWinner();
      var index := InjectReferendum(now + votingPeriod, winner.proposal, SuperMajorityApprove);
    }

    /** The public proposal locking the most (the last of those, in list order) is swap-removed
        from the list, its deposit record is taken, and each depositor gets the deposit back. */
    method TakeWinner() returns (k: nat, winner: PublicProp)
      requires Valid() && publicProps != []
      modifies this`publicProps, this`depositOf, staking
      ensures Valid()
      ensures k == Winner(old(publicProps), old(depositOf)) && winner == old(publicProps)[k]
      ensures publicProps == SwapRemove(old(publicProps), k)
      ensures depositOf == old(depositOf) - {winner.index}
      ensures staking.accounts == Staking.Refunded(old(staking.accounts), old(depositOf)[winner.index].depositors,
                                                   old(depositOf)[winner.index].amount)
    {
      k := Winner(publicProps, depositOf);
      winner := publicProps[k];
      LaunchKeepsDeposits(publicProps, depositOf, k, publicPropCount);
      publicProps := SwapRemove(publicProps, k);
      var deposit := depositOf[winner.index];
      depositOf := depositOf - {winner.index};
      staking.RefundEach(deposit.depositors, deposit.amount);
    }

    /** The tally part of `end_block`: the referenda maturing at `now` are tallied in index
        order (see `TallyRun`). */
    method TallyMaturing(now: BlockNumber, approved: (VoteThreshold, nat, nat, nat) -> bool, totalStake: nat)
      returns (matured: seq<Active>)
      requires Valid()
      modifies this`referendumInfoOf, this`votersFor, this`voteOf, this`dispatched, this`nextTally
      ensures Valid()
      ensures matured == old(MaturingAt(referendumInfoOf, nextTally, referendumCount, now))
      ensures referendumInfoOf == old(referendumInfoOf) - RefIndices(matured)
      ensures votersFor == old(votersFor) - RefIndices(matured)
      ensures voteOf == old(voteOf)
      ensures AllRecorded(matured, old(votersFor), old(voteOf))
      ensures dispatched == old(dispatched) + Enacted(matured, old(votersFor), old(voteOf), staking.accounts, approved, totalStake)
      ensures nextTally == if matured == [] then old(nextTally) else matured[|matured| - 1].index + 1
    {
      matured := MaturingAt(referendumInfoOf, nextTally, referendumCount, now);
      MaturingCovers(referendumInfoOf, nextTally, referendumCount, now);
      TallyRun(matured, approved, totalStake);
    }

    /** The tally loop of `end_block` over a run `ms` of referenda in index order that no stored
        referendum skips: each is tallied on the stake of its voters and cleared, its proposal
        is dispatched when `approved` (which stands for the threshold's rule, given the aye
        stake, the nay stake and the total stake `totalStake`) passes it, and the next
        referendum to tally is the one after it. */
    method TallyRun(ms: seq<Active>, approved: (VoteThreshold, nat, nat, nat) -> bool, totalStake: nat)
      requires Valid()
      requires forall k :: 0 <= k < |ms| ==> ms[k].index < referendumCount
      requires forall k1, k2 :: 0 <= k1 < k2 < |ms| ==> ms[k1].index < ms[k2].index
      requires RunCovers(referendumInfoOf, ms)
      modifies this`referendumInfoOf, this`votersFor, this`voteOf, this`dispatched, this`nextTally
      ensures Valid()
      ensures referendumInfoOf == old(referendumInfoOf) - RefIndices(ms)
      ensures votersFor == old(votersFor) - RefIndices(ms)
      ensures voteOf == old(voteOf)
      ensures AllRecorded(ms, old(votersFor), old(voteOf))
      ensures dispatched == old(dispatched) + Enacted(ms, old(votersFor), old(voteOf), staking.accounts, approved, totalStake)
      ensures nextTally == if ms == [] then old(nextTally) else ms[|ms| - 1].index + 1
    {
      ghost var info0, voters0, votes0, dispatched0 := referendumInfoOf, votersFor, voteOf, dispatched;
      assert AllRecorded(ms, voters0, votes0) by {
        forall k | 0 <= k < |ms| ensures VotesRecorded(VotersOf(voters0, ms[k].index), votes0, ms[k].index) { }
      }
      for i := 0 to |ms|
        invariant Valid()
        invariant referendumInfoOf == info0 - RefIndices(ms[..i]) && votersFor == voters0 - RefIndices(ms[..i])
        invariant voteOf == votes0
        invariant dispatched == dispatched0 + Enacted(ms[..i], voters0, votes0, staking.accounts, approved, totalStake)
        invariant nextTally == if i == 0 then old(nextTally) else ms[i - 1].index + 1
      {
        RunStep(ms, i, info0, voters0, voteOf, staking.accounts, approved, totalStake, dispatched0);
        var passed := TallyOne(ms[i], approved, totalStake);
      }
      assert ms[..|ms|] == ms;
    }

    /** One round of the tally loop: referendum `m`, the first stored one, is tallied on the
        stake of its voters and cleared, its proposal is dispatched when `approved` passes it,
        and the next referendum to tally is the one after it. */
    method TallyOne(m: Active, approved: (VoteThreshold, nat, nat, nat) -> bool, totalStake: nat)
      returns (passed: bool)
      requires Valid()
      requires m.index < referendumCount
      requires forall j :: j in referendumInfoOf && j != m.index ==> m.index < j
      modifies this`referendumInfoOf, this`votersFor, this`voteOf, this`dispatched, this`nextTally
      ensures Valid()
      ensures VotesRecorded(VotersOf(old(votersFor), m.index), old(voteOf), m.index)
      ensures passed == Passes(m, old(votersFor), old(voteOf), staking.accounts, approved, totalStake)
      ensures referendumInfoOf == old(referendumInfoOf) - {m.index} && votersFor == old(votersFor) - {m.index}
      ensures voteOf == old(voteOf)
      ensures dispatched == old(dispatched) + (if passed then [m.info.proposal] else [])
      ensures nextTally == m.index + 1
    {
      var t := TallyOf(m.index);
      ClearReferendum(m.index);
      passed := approved(m.info.threshold, t.0, t.1, totalStake);
      if passed {
        dispatched := dispatched + [m.info.proposal];
      }
      nextTally := m.index + 1;
    }

    /** `end_block`: on a launch-period boundary with public proposals waiting, one of them is
        launched (see `Launch`); then the referenda maturing at `now` are tallied (see
        `TallyMaturing`). The hook aborts, changing nothing, only when the launched referendum
        would end before the one started before it. */
    method EndBlock(now: BlockNumber, approved: (VoteThreshold, nat, nat, nat) -> bool, totalStake: nat)
      returns (r: Outcome<Error>)
      requires Valid()
      modifies this`publicProps, this`depositOf, this`referendumCount, this`referendumInfoOf, this`votersFor,
               this`voteOf, this`dispatched, this`nextTally, staking
      ensures Valid()
      ensures r == OutcomeOf(old(EndBlockCheck(now)))
      ensures r.Fail? ==> publicProps == old(publicProps) && depositOf == old(depositOf) &&
                          referendumCount == old(referendumCount) && referendumInfoOf == old(referendumInfoOf) &&
                          votersFor == old(votersFor) && dispatched == old(dispatched) &&
                          nextTally == old(nextTally) && staking.accounts == old(staking.accounts)
      ensures r.Pass? && old(now % launchPeriod == 0 && publicProps != []) ==>
                |publicProps| == |old(publicProps)| - 1 && referendumCount == old(referendumCount) + 1
      ensures r.Pass? && old(now % launchPeriod != 0 || publicProps == []) ==>
                publicProps == old(publicProps) && depositOf == old(depositOf) &&
                referendumCount == old(referendumCount) && staking.accounts == old(staking.accounts)
      ensures voteOf == old(voteOf)
    {
      var check := EndBlockCheck(now);
      if check.Some? {
        return Fail(check.value);
      }
      if now % launchPeriod == 0 && publicProps != [] {
        var k := Launch(now);
      }
      var matured := TallyMaturing(now, approved, totalStake);
      r := Pass;
    }
  }
}
