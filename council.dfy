/** The council election engine: approval voting for council seats, with a candidate list that
    has holes, lazily expiring approvals, a presentation window in which candidates prove their
    totals onto a fixed-size leaderboard, and a tally that rotates the seats. Storage is the
    fields of `CouncilModule`; every dispatch either fails with the reason its first failing
    check gives, changing nothing, or applies its whole effect. */
module Council {
  import opened Common
  import opened Sorting
  import opened CouncilSpec
  import Staking

  /** The reasons a council dispatch aborts, one per failing check of the source. */
  datatype Error =
    | PresentationActive      // voting, reaping or retracting while a presentation window is open
    | IndexNotCurrent         // the vote index given is not the current one
    | ReaperNotVoter
    | TargetNotVoter
    | GracePeriod             // the target was active too recently to be reaped
    | BadReporterIndex
    | BadTargetIndex
    | VoterFunds              // the voting bond cannot be reserved
    | NonVoter
    | RetractionIndexInvalid
    | RetractionIndexMismatch
    | DuplicateCandidate
    | CandidateFunds
    | InvalidCandidateSlot
    | NotPresentationPeriod
    | PresenterFunds          // the presenter could not pay the bad-presentation penalty
    | NotWorthy               // the claimed total does not beat the lowest leaderboard entry
    | DuplicatedMember        // the candidate would sit on the council twice
    | CandidateNotCurrent

  class CouncilModule {
    // parameters fixed at genesis
    const candidacyBond: nat
    const votingBond: nat
    const presentSlashPerVoter: nat
    const carryCount: nat
    const inactivityGracePeriod: VoteIndex
    const votingPeriod: BlockNumber

    // parameters the privileged calls set
    var desiredSeats: nat
    var presentationDuration: BlockNumber
    var termDuration: BlockNumber

    // permanent state
    var activeCouncil: seq<Seat>
    var voteIndex: VoteIndex

    // persistent state
    var approvalsOf: map<AccountId, seq<bool>>
    var registerInfoOf: map<AccountId, RegInfo>
    var lastActiveOf: map<AccountId, VoteIndex>
    var voters: seq<AccountId>
    var candidates: seq<AccountId>
    var candidateCount: nat

    // presentation-window state
    var nextFinalise: Option<Finalise>
    var snapshotedStakes: seq<nat>
    var leaderboard: Option<seq<Entry>>

    /** The stake ledger the bonds are drawn from. */
    const staking: Staking.Ledger

    /** The invariant every dispatch and the block hook keep. */
    ghost predicate Valid()
      reads this`activeCouncil, this`voters, this`lastActiveOf, this`approvalsOf, this`candidates,
            this`registerInfoOf, this`candidateCount, this`nextFinalise, this`leaderboard, this`snapshotedStakes
    {
      && votingPeriod > 0
      && CouncilSorted(activeCouncil)
      && VotersConsistent(voters, lastActiveOf, approvalsOf)
      && CandidatesConsistent(candidates, registerInfoOf, candidateCount)
      && WindowConsistent(nextFinalise, leaderboard, snapshotedStakes, voters, registerInfoOf)
    }

    /** Genesis: the parameters, an initial council and an otherwise empty store. */
    constructor (candidacyBond: nat, votingBond: nat, presentSlashPerVoter: nat, carryCount: nat,
                 inactivityGracePeriod: VoteIndex, votingPeriod: BlockNumber, desiredSeats: nat,
                 presentationDuration: BlockNumber, termDuration: BlockNumber,
                 council: seq<Seat>, staking: Staking.Ledger)
      requires votingPeriod > 0 && CouncilSorted(council)
      ensures Valid()
      ensures this.staking == staking && activeCouncil == council && voteIndex == 0
      ensures voters == [] && candidates == [] && nextFinalise.None?
    {
      this.candidacyBond := candidacyBond;
      this.votingBond := votingBond;
      this.presentSlashPerVoter := presentSlashPerVoter;
      this.carryCount := carryCount;
      this.inactivityGracePeriod := inactivityGracePeriod;
      this.votingPeriod := votingPeriod;
      this.desiredSeats := desiredSeats;
      this.presentationDuration := presentationDuration;
      this.termDuration := termDuration;
      this.staking := staking;
      activeCouncil := council;
      voteIndex := 0;
      approvalsOf := map[];
      registerInfoOf := map[];
      lastActiveOf := map[];
      voters := [];
      candidates := [];
      candidateCount := 0;
      nextFinalise := None;
      snapshotedStakes := [];
      leaderboard := None;
    }

    // -------------------------------------------------------------------------------------
    // Queries

    predicate PresentationActive()
      reads this
    {
      nextFinalise.Some?
    }

    predicate IsACandidate(who: AccountId)
      reads this
    {
      who in registerInfoOf
    }

    /** `next_tally`: the block of the next election, `None` only when no seats are wanted. The
        block is always on a voting-period boundary; with no window open and seats missing it is
        the first boundary from `now` on. */
    function NextTally(now: BlockNumber): (r: Option<BlockNumber>)
      reads this
      requires votingPeriod > 0
      requires nextFinalise.Some? ==> |nextFinalise.value.expiring| <= |activeCouncil|
      ensures r.None? <==> desiredSeats == 0
      ensures r.Some? ==> r.value % votingPeriod == 0
      ensures r.Some? && nextFinalise.None? && |activeCouncil| < desiredSeats ==>
                now <= r.value < now + votingPeriod
    {
      if desiredSeats == 0 then None
      else
        var c := activeCouncil;
        var nextPossible := if nextFinalise.Some? then nextFinalise.value.at else now;
        var count := if nextFinalise.Some? then |c| - |nextFinalise.value.expiring| + nextFinalise.value.coming else |c|;
        var coming := if nextFinalise.Some? then nextFinalise.value.coming else 0;
        var base :=
          if count < desiredSeats then nextPossible
          else if desiredSeats <= coming then nextPossible + termDuration
          // the seat whose expiry brings the council below the desired size
          else c[|c| - (desiredSeats - coming)].expiry;
        Some(NextVoteFrom(base, votingPeriod))
    }

    /** The approval total of a candidate recomputed from the snapshot, as `present_winner` does. */
    function CandidateTotal(candidate: AccountId): nat
      reads this
      requires candidate in registerInfoOf
    {
      var info := registerInfoOf[candidate];
      ActualTotal(voters, snapshotedStakes, lastActiveOf, approvalsOf, info.since, info.slot)
    }

    /** The penalty for a bad presentation: `present_slash_per_voter` for each voter. */
    function Punishment(): nat
      reads this
    {
      presentSlashPerVoter * |voters|
    }

    /** Whether the target of a reap still holds an approval that counts. */
    function TargetStillCounts(who: AccountId): bool
      reads this
      requires who in lastActiveOf
    {
      AnyLiveApproval(ApprovalsIn(approvalsOf, who), candidates, registerInfoOf, lastActiveOf[who])
    }

    // -------------------------------------------------------------------------------------
    // The checks of each dispatch, in the source's order

    function SetApprovalsCheck(caller: AccountId, index: VoteIndex): (e: Option<Error>)
      reads this, staking
      ensures e.None? <==> nextFinalise.None? && index == voteIndex &&
                           (caller in lastActiveOf || staking.Free(caller) >= votingBond)
    {
      if nextFinalise.Some? then Some(Error.PresentationActive)
      else if index != voteIndex then Some(IndexNotCurrent)
      else if caller !in lastActiveOf && staking.Free(caller) < votingBond then Some(VoterFunds)
      else None
    }

    function ReapCheck(caller: AccountId, signedIndex: nat, who: AccountId, whoIndex: nat,
                       assumedVoteIndex: VoteIndex): (e: Option<Error>)
      reads this
      requires inactivityGracePeriod <= assumedVoteIndex
      ensures e.None? <==> && nextFinalise.None? && caller in lastActiveOf && who in lastActiveOf
                           && assumedVoteIndex == voteIndex
                           && lastActiveOf[who] < assumedVoteIndex - inactivityGracePeriod
                           && signedIndex < |voters| && voters[signedIndex] == caller
                           && whoIndex < |voters| && voters[whoIndex] == who
    {
      if nextFinalise.Some? then Some(Error.PresentationActive)
      else if caller !in lastActiveOf then Some(ReaperNotVoter)
      else if who !in lastActiveOf then Some(TargetNotVoter)
      else if assumedVoteIndex != voteIndex then Some(IndexNotCurrent)
      else if !(lastActiveOf[who] < assumedVoteIndex - inactivityGracePeriod) then Some(GracePeriod)
      else if !(signedIndex < |voters| && voters[signedIndex] == caller) then Some(BadReporterIndex)
      else if !(whoIndex < |voters| && voters[whoIndex] == who) then Some(BadTargetIndex)
      else None
    }

    function RetractCheck(caller: AccountId, index: nat): (e: Option<Error>)
      reads this
      ensures e.None? <==> nextFinalise.None? && caller in lastActiveOf && index < |voters| && voters[index] == caller
    {
      if nextFinalise.Some? then Some(Error.PresentationActive)
      else if caller !in lastActiveOf then Some(NonVoter)
      else if index >= |voters| then Some(RetractionIndexInvalid)
      else if voters[index] != caller then Some(RetractionIndexMismatch)
      else None
    }

    /** The slot a new candidate may take: the end of a list without holes, or a hole. */
    predicate SlotAvailable(slot: nat)
      reads this
    {
      || (slot == candidateCount && candidateCount == |candidates|)
      || (slot < |candidates| && candidates[slot] == DefaultAccount)
    }

    function SubmitCandidacyCheck(caller: AccountId, slot: nat): (e: Option<Error>)
      reads this, staking
      ensures e.None? <==> caller !in registerInfoOf && staking.Free(caller) >= candidacyBond && SlotAvailable(slot)
    {
      if caller in registerInfoOf then Some(DuplicateCandidate)
      else if staking.Free(caller) < candidacyBond then Some(CandidateFunds)
      else if !SlotAvailable(slot) then Some(InvalidCandidateSlot)
      else None
    }

    function PresentWinnerCheck(caller: AccountId, candidate: AccountId, total: nat, index: VoteIndex): (e: Option<Error>)
      reads this, staking
      requires Valid()
      ensures e.None? <==> && index == voteIndex && nextFinalise.Some?
                           && staking.CanSlash(caller, Punishment())
                           && total > leaderboard.value[0].total
                           && (SeatOf(activeCouncil, candidate).Some? ==>
                                 SeatOf(activeCouncil, candidate).value < |nextFinalise.value.expiring|)
                           && candidate in registerInfoOf
    {
      if index != voteIndex then Some(IndexNotCurrent)
      else if nextFinalise.None? then Some(NotPresentationPeriod)
      else if !staking.CanSlash(caller, Punishment()) then Some(PresenterFunds)
      else if total <= leaderboard.value[0].total then Some(NotWorthy)
      else if (match SeatOf(activeCouncil, candidate)
               case Some(p) => p >= |nextFinalise.value.expiring|
               case None => false) then Some(DuplicatedMember)
      else if candidate !in registerInfoOf then Some(CandidateNotCurrent)
      else None
    }

    // -------------------------------------------------------------------------------------
    // Dispatch

    /** `set_approvals`: replaces the caller's approvals wholesale and marks them active at
        `index`; a first-time voter is appended to the voter list and pays the voting bond. */
    method SetApprovals(caller: AccountId, votes: seq<bool>, index: VoteIndex) returns (r: Outcome<Error>)
      requires Valid()
      modifies this`voters, this`approvalsOf, this`lastActiveOf, staking
      ensures Valid()
      ensures r == OutcomeOf(old(SetApprovalsCheck(caller, index)))
      ensures r.Fail? ==> voters == old(voters) && approvalsOf == old(approvalsOf) &&
                          lastActiveOf == old(lastActiveOf) && staking.accounts == old(staking.accounts)
      ensures r.Pass? && caller in old(lastActiveOf) ==>
                voters == old(voters) && staking.accounts == old(staking.accounts)
      ensures r.Pass? && caller !in old(lastActiveOf) ==>
                voters == old(voters) + [caller] &&
                staking.accounts == Staking.WithReserve(old(staking.accounts), caller, votingBond)
      ensures r.Pass? ==> approvalsOf == old(approvalsOf)[caller := votes] &&
                          lastActiveOf == old(lastActiveOf)[caller := index]
    {
      var check := SetApprovalsCheck(caller, index);
      if check.Some? {
        return Fail(check.value);
      }
      if caller !in lastActiveOf {
        // not yet a voter: take the bond
        var ok := staking.Reserve(caller, votingBond);
        assert ok;
        voters := voters + [caller];
      }
      approvalsOf := approvalsOf[caller := votes];
      lastActiveOf := lastActiveOf[caller := index];
      r := Pass;
    }

    /** `remove_voter`: swap-removes the voter at `index`, which must be `voter`, and forgets
        their approvals and activity. */
    method RemoveVoter(voter: AccountId, index: nat)
      requires Valid() && nextFinalise.None?
      requires index < |voters| && voters[index] == voter
      modifies this`voters, this`approvalsOf, this`lastActiveOf
      ensures Valid()
      ensures voters == SwapRemove(old(voters), index)
      ensures approvalsOf == old(approvalsOf) - {voter} && lastActiveOf == old(lastActiveOf) - {voter}
      ensures forall v :: v in voters <==> v in old(voters) && v != voter
    {
      SwapRemoveMembers(voters, index);
      voters := SwapRemove(voters, index);
      approvalsOf := approvalsOf - {voter};
      lastActiveOf := lastActiveOf - {voter};
      assert VotersConsistent(voters, lastActiveOf, approvalsOf);
    }

    /** `reap_inactive_voter`: once the checks pass, exactly one of the reporter and the target
        leaves the voter list. The target goes, and its bond goes to the reporter, when none of
        its approvals still counts; otherwise the reporter goes and its bond is burnt. */
    method ReapInactiveVoter(caller: AccountId, signedIndex: nat, who: AccountId, whoIndex: nat,
                             assumedVoteIndex: VoteIndex) returns (r: Outcome<Error>)
      requires Valid()
      requires inactivityGracePeriod <= assumedVoteIndex
      modifies this`voters, this`approvalsOf, this`lastActiveOf, staking
      ensures Valid()
      ensures r == OutcomeOf(old(ReapCheck(caller, signedIndex, who, whoIndex, assumedVoteIndex)))
      ensures r.Fail? ==> voters == old(voters) && approvalsOf == old(approvalsOf) &&
                          lastActiveOf == old(lastActiveOf) && staking.accounts == old(staking.accounts)
      ensures r.Pass? ==> |voters| == |old(voters)| - 1
      ensures r.Pass? && caller != who ==> (caller in voters <==> who !in voters)
      ensures r.Pass? && !old(TargetStillCounts(who)) ==>
                voters == SwapRemove(old(voters), whoIndex) &&
                approvalsOf == old(approvalsOf) - {who} && lastActiveOf == old(lastActiveOf) - {who} &&
                staking.accounts == Staking.WithTransferReserved(old(staking.accounts), who, caller, votingBond)
      ensures r.Pass? && old(TargetStillCounts(who)) ==>
                voters == SwapRemove(old(voters), signedIndex) &&
                approvalsOf == old(approvalsOf) - {caller} && lastActiveOf == old(lastActiveOf) - {caller} &&
                staking.accounts == Staking.WithSlashReserved(old(staking.accounts), caller, votingBond)
    {
      var check := ReapCheck(caller, signedIndex, who, whoIndex, assumedVoteIndex);
      if check.Some? {
        return Fail(check.value);
      }
      var valid := !TargetStillCounts(who);
      if valid {
        RemoveVoter(who, whoIndex);
        staking.TransferReserved(who, caller, votingBond);
      } else {
        RemoveVoter(caller, signedIndex);
        staking.SlashReserved(caller, votingBond);
      }
      r := Pass;
    }

    /** `retract_voter`: the caller leaves the voter list and gets the voting bond back. */
    method RetractVoter(caller: AccountId, index: nat) returns (r: Outcome<Error>)
      requires Valid()
      modifies this`voters, this`approvalsOf, this`lastActiveOf, staking
      ensures Valid()
      ensures r == OutcomeOf(old(RetractCheck(caller, index)))
      ensures r.Fail? ==> voters == old(voters) && approvalsOf == old(approvalsOf) &&
                          lastActiveOf == old(lastActiveOf) && staking.accounts == old(staking.accounts)
      ensures r.Pass? ==>
                voters == SwapRemove(old(voters), index) &&
                (forall v :: v in voters <==> v in old(voters) && v != caller) &&
                approvalsOf == old(approvalsOf) - {caller} && lastActiveOf == old(lastActiveOf) - {caller} &&
                staking.accounts == Staking.WithUnreserve(old(staking.accounts), caller, votingBond)
    {
      var check := RetractCheck(caller, index);
      if check.Some? {
        return Fail(check.value);
      }
      RemoveVoter(caller, index);
      staking.Unreserve(caller, votingBond);
      r := Pass;
    }

    /** `submit_candidacy`: the caller pays the candidacy bond and takes `slot`, which must be a
        hole or, when there is none, the end of the list. The empty account never signs. */
    method SubmitCandidacy(caller: AccountId, slot: nat) returns (r: Outcome<Error>)
      requires Valid() && caller != DefaultAccount
      modifies this`candidates, this`candidateCount, this`registerInfoOf, staking
      ensures Valid()
      ensures r == OutcomeOf(old(SubmitCandidacyCheck(caller, slot)))
      ensures r.Fail? ==> candidates == old(candidates) && candidateCount == old(candidateCount) &&
                          registerInfoOf == old(registerInfoOf) && staking.accounts == old(staking.accounts)
      // a hole is always filled before the list grows
      ensures r.Pass? && DefaultAccount in old(candidates) ==> slot < |old(candidates)|
      ensures r.Pass? ==>
                && |candidates| == (if slot == |old(candidates)| then slot + 1 else |old(candidates)|)
                && candidates[slot] == caller
                && (forall i :: 0 <= i < |old(candidates)| && i != slot ==> candidates[i] == old(candidates)[i])
                && candidateCount == old(candidateCount) + 1
                && registerInfoOf == old(registerInfoOf)[caller := RegInfo(voteIndex, slot)]
                && staking.accounts == Staking.WithDeduct(old(staking.accounts), caller, candidacyBond)
    {
      var check := SubmitCandidacyCheck(caller, slot);
      if check.Some? {
        return Fail(check.value);
      }
      var ok := staking.DeductUnbonded(caller, candidacyBond);
      assert ok;
      RegisterCandidate(caller, slot);
      r := Pass;
    }

    /** The registering half of `submit_candidacy`: `caller` takes `slot` and is registered at
        the current vote index. */
    method RegisterCandidate(caller: AccountId, slot: nat)
      requires Valid() && caller != DefaultAccount
      requires caller !in registerInfoOf && SlotAvailable(slot)
      modifies this`candidates, this`candidateCount, this`registerInfoOf
      ensures Valid()
      ensures DefaultAccount in old(candidates) ==> slot < |old(candidates)|
      ensures |candidates| == (if slot == |old(candidates)| then slot + 1 else |old(candidates)|)
      ensures candidates[slot] == caller
      ensures forall i :: 0 <= i < |old(candidates)| && i != slot ==> candidates[i] == old(candidates)[i]
      ensures candidateCount == old(candidateCount) + 1
      ensures registerInfoOf == old(registerInfoOf)[caller := RegInfo(voteIndex, slot)]
    {
      OccupiedFull(candidates);
      RegisterConsistent(candidates, registerInfoOf, candidateCount, caller, RegInfo(voteIndex, slot));
      if slot == |candidates| {
        candidates := candidates + [caller];
      } else {
        candidates := candidates[slot := caller];
      }
      candidateCount := candidateCount + 1;
      registerInfoOf := registerInfoOf[caller := RegInfo(voteIndex, slot)];
    }

    /** `present_winner`: during the window, a candidate claimed to beat the lowest leaderboard
        entry is checked against the snapshot. A correct claim for a candidate not yet on the
        board replaces the lowest entry and re-sorts the board; any other claim leaves the board
        alone and slashes the presenter `present_slash_per_voter` per voter. */
    method PresentWinner(caller: AccountId, candidate: AccountId, total: nat, index: VoteIndex) returns (r: Outcome<Error>)
      requires Valid()
      modifies this`leaderboard, staking
      ensures Valid()
      ensures r == OutcomeOf(old(PresentWinnerCheck(caller, candidate, total, index)))
      ensures r.Fail? ==> leaderboard == old(leaderboard) && staking.accounts == old(staking.accounts)
      ensures r.Pass? ==> leaderboard.Some? && |leaderboard.value| == |old(leaderboard.value)| &&
                          SortedByTotal(leaderboard.value)
      ensures r.Pass? && old(total == CandidateTotal(candidate) && candidate !in Whos(leaderboard.value)) ==>
                leaderboard == Some(Presented(old(leaderboard.value), Entry(total, candidate))) &&
                staking.accounts == old(staking.accounts)
      ensures r.Pass? && !old(total == CandidateTotal(candidate) && candidate !in Whos(leaderboard.value)) ==>
                leaderboard == old(leaderboard) &&
                staking.accounts == Staking.WithSlash(old(staking.accounts), caller, Punishment())
    {
      var check := PresentWinnerCheck(caller, candidate, total, index);
      if check.Some? {
        return Fail(check.value);
      }
      var punishment := Punishment();
      var board := leaderboard.value;
      var actualTotal := CandidateTotal(candidate);
      var dupe := candidate in Whos(board);
      if total == actualTotal && !dupe {
        // insert into the leaderboard
        Admit(Entry(total, candidate));
      } else {
        staking.Slash(caller, punishment);
      }
      r := Pass;
    }

    /** The accepting half of `present_winner`: the entry takes the place of the lowest one and
        the board is sorted again. */
    method Admit(e: Entry)
      requires Valid() && leaderboard.Some?
      requires e.total > leaderboard.value[0].total && e.who in registerInfoOf
      requires e.who !in Whos(leaderboard.value)
      modifies this`leaderboard
      ensures Valid()
      ensures leaderboard == Some(Presented(old(leaderboard.value), e))
      ensures |leaderboard.value| == |old(leaderboard.value)|
    {
      var board := leaderboard.value;
      WhosEntries(board);
      forall i | 0 <= i < |board| ensures board[i].who != e.who {
        assert Whos(board)[i] == board[i].who;
      }
      PresentedShape(board, e);
      PresentedValid(board, registerInfoOf, e);
      leaderboard := Some(Presented(board, e));
    }

    method SetDesiredSeats(count: nat)
      modifies this`desiredSeats
      ensures desiredSeats == count
    {
      desiredSeats := count;
    }

    method SetPresentationDuration(count: BlockNumber)
      modifies this`presentationDuration
      ensures presentationDuration == count
    {
      presentationDuration := count;
    }

    method SetTermDuration(count: BlockNumber)
      modifies this`termDuration
      ensures termDuration == count
    {
      termDuration := count;
    }

    /** `remove_member`: drops every seat of `who` at once; the council stays sorted by expiry. */
    method RemoveMember(who: AccountId)
      requires Valid()
      modifies this`activeCouncil
      ensures Valid()
      ensures activeCouncil == WithoutMember(old(activeCouncil), who)
      ensures forall s :: s in activeCouncil <==> s in old(activeCouncil) && s.who != who
    {
      WithoutMemberSorted(activeCouncil, who);
      activeCouncil := WithoutMember(activeCouncil, who);
    }

    // -------------------------------------------------------------------------------------
    // The block hook and the tally

    /** `start_tally`: closes the vote at block `now` when the seats that do not expire now fall
        short of the desired count. It records the window's end, the number of empty seats and
        the expiring members, snapshots every voter's balance and lays out a board of
        `empty_seats + carry_count` zero entries. Otherwise nothing changes. */
    method StartTally(now: BlockNumber)
      requires Valid()
      modifies this`nextFinalise, this`snapshotedStakes, this`leaderboard
      ensures Valid()
      ensures var expiring := ExpiringAt(activeCouncil, now);
              var staying := |activeCouncil| - |expiring|;
              if staying < desiredSeats then
                && nextFinalise == Some(Finalise(now + presentationDuration, desiredSeats - staying, expiring))
                && snapshotedStakes == Staking.BalancesIn(staking.accounts, voters)
                && leaderboard == Some(seq(desiredSeats - staying + carryCount, _ => Entry(0, DefaultAccount)))
              else
                && nextFinalise == old(nextFinalise)
                && snapshotedStakes == old(snapshotedStakes)
                && leaderboard == old(leaderboard)
    {
      var expiring := ExpiringAt(activeCouncil, now);
      if |activeCouncil| - |expiring| < desiredSeats {
        var emptySeats := desiredSeats - (|activeCouncil| - |expiring|);
        nextFinalise := Some(Finalise(now + presentationDuration, emptySeats, expiring));
        snapshotedStakes := Staking.BalancesIn(staking.accounts, voters);
        // initialise the leaderboard
        leaderboard := Some(seq(emptySeats + carryCount, _ => Entry(0, DefaultAccount)));
      }
    }

    /** The first loop of `finalise_tally`: each runner-up is written back into the slot it was
        registered at, on a list of the old length that starts out empty. */
    static method PlaceRunnersUp(length: nat, reg: map<AccountId, RegInfo>, runnersUp: seq<Entry>)
      returns (placed: seq<AccountId>, count: nat)
      requires forall k :: 0 <= k < |runnersUp| ==> runnersUp[k].who in reg && reg[runnersUp[k].who].slot < length
      requires forall k :: 0 <= k < |runnersUp| ==> runnersUp[k].who != DefaultAccount
      requires forall k1, k2 :: 0 <= k1 < k2 < |runnersUp| ==> reg[runnersUp[k1].who].slot != reg[runnersUp[k2].who].slot
      ensures |placed| == length
      ensures count == |runnersUp| == Occupied(placed)
      ensures forall k :: 0 <= k < |runnersUp| ==> placed[reg[runnersUp[k].who].slot] == runnersUp[k].who
      ensures forall j :: 0 <= j < length && placed[j] != DefaultAccount ==> placed[j] in Whos(runnersUp)
      ensures forall j :: 0 <= j < length && placed[j] != DefaultAccount ==>
                placed[j] in reg && reg[placed[j]].slot == j
    {
      placed := Vacant(length);
      OccupiedEmpty(length);
      count := 0;
      for i := 0 to |runnersUp|
        invariant |placed| == length
        invariant count == i == Occupied(placed)
        invariant forall k :: 0 <= k < i ==> placed[reg[runnersUp[k].who].slot] == runnersUp[k].who
        invariant forall k :: i <= k < |runnersUp| ==> placed[reg[runnersUp[k].who].slot] == DefaultAccount
        invariant forall j :: 0 <= j < length && placed[j] != DefaultAccount ==> placed[j] in Whos(runnersUp[..i])
        invariant forall j :: 0 <= j < length && placed[j] != DefaultAccount ==>
                    placed[j] in reg && reg[placed[j]].slot == j
      {
        var who := runnersUp[i].who;
        var slot := reg[who].slot;
        OccupiedUpdate(placed, slot, who);
        WhosExtend(runnersUp, i);
        placed := placed[slot := who];
        count := count + 1;
      }
      assert runnersUp[..|runnersUp|] == runnersUp;
    }

    /** The second loop of `finalise_tally`: every registration whose slot no longer holds its
        candidate is dropped. */
    static method DropDisplaced(old_: seq<AccountId>, placed: seq<AccountId>, reg: map<AccountId, RegInfo>)
      returns (kept: map<AccountId, RegInfo>)
      requires |placed| == |old_| && SlotsConsistent(old_, reg)
      ensures forall a :: a in kept <==> a in reg && placed[reg[a].slot] == a
      ensures forall a :: a in kept ==> kept[a] == reg[a]
    {
      kept := reg;
      for i := 0 to |old_|
        invariant forall a :: a in kept <==> a in reg && (reg[a].slot >= i || placed[reg[a].slot] == a)
        invariant forall a :: a in kept ==> kept[a] == reg[a]
      {
        if old_[i] != placed[i] {
          // removed: forget the registration
          kept := kept - {old_[i]};
        }
      }
    }

    /** The slots left by the two loops of `finalise_tally` and their registrations agree. */
    static lemma KeptConsistent(candidates: seq<AccountId>, reg: map<AccountId, RegInfo>,
                                placed: seq<AccountId>, keptReg: map<AccountId, RegInfo>, kept: seq<AccountId>)
      requires SlotsConsistent(candidates, reg) && |placed| == |candidates|
      requires forall j :: 0 <= j < |placed| && placed[j] != DefaultAccount ==>
                 placed[j] in reg && reg[placed[j]].slot == j
      requires forall a :: a in keptReg <==> a in reg && placed[reg[a].slot] == a
      requires forall a :: a in keptReg ==> keptReg[a] == reg[a]
      requires |kept| <= |placed| && kept == placed[..|kept|]
      requires forall j :: |kept| <= j < |placed| ==> placed[j] == DefaultAccount
      ensures SlotsConsistent(kept, keptReg)
    {
      forall i | 0 <= i < |kept| && kept[i] != DefaultAccount
        ensures kept[i] in keptReg && keptReg[kept[i]].slot == i
      {
        assert kept[i] == placed[i];
      }
      forall a | a in keptReg ensures keptReg[a].slot < |kept| && kept[keptReg[a].slot] == a {
        var j := reg[a].slot;
        assert placed[j] == a;
      }
    }

    /** Distinct registered runners-up hold distinct slots. */
    static lemma DistinctSlots(candidates: seq<AccountId>, reg: map<AccountId, RegInfo>, runnersUp: seq<Entry>)
      requires SlotsConsistent(candidates, reg)
      requires forall k :: 0 <= k < |runnersUp| ==> runnersUp[k].who in reg
      requires NoDup(Whos(runnersUp))
      ensures forall k1, k2 :: 0 <= k1 < k2 < |runnersUp| ==>
                reg[runnersUp[k1].who].slot != reg[runnersUp[k2].who].slot
    {
      forall k1, k2 | 0 <= k1 < k2 < |runnersUp|
        ensures reg[runnersUp[k1].who].slot != reg[runnersUp[k2].who].slot
      {
        var a, b := runnersUp[k1].who, runnersUp[k2].who;
        WhosEntries(runnersUp);
        assert a == Whos(runnersUp)[k1] != Whos(runnersUp)[k2] == b;
        // each registered account is the one its slot holds
        assert candidates[reg[a].slot] == a && candidates[reg[b].slot] == b;
      }
    }

    /** The candidate list after a tally: only the runners-up stay, each in its own slot and with
        its registration, and the list loses its empty tail when any runner-up is left. */
    static method ClearCandidates(candidates: seq<AccountId>, reg: map<AccountId, RegInfo>, runnersUp: seq<Entry>)
      returns (kept: seq<AccountId>, keptReg: map<AccountId, RegInfo>, count: nat)
      requires SlotsConsistent(candidates, reg)
      requires forall k :: 0 <= k < |runnersUp| ==> runnersUp[k].who in reg
      requires NoDup(Whos(runnersUp))
      ensures SlotsConsistent(kept, keptReg)
      ensures count == |runnersUp| == Occupied(kept)
      ensures forall a :: a in keptReg ==> a in Whos(runnersUp)
      ensures forall k :: 0 <= k < |runnersUp| ==> runnersUp[k].who in keptReg
      ensures forall a :: a in keptReg ==> a in reg && keptReg[a] == reg[a]
      ensures |kept| <= |candidates|
      ensures runnersUp != [] ==> |kept| > 0 && kept[|kept| - 1] != DefaultAccount
      ensures runnersUp == [] ==> kept == Vacant(|candidates|)
    {
      DistinctSlots(candidates, reg, runnersUp);
      var placed;
      placed, count := PlaceRunnersUp(|candidates|, reg, runnersUp);
      keptReg := DropDisplaced(candidates, placed, reg);
      kept := TrimTail(placed);
      KeptConsistent(candidates, reg, placed, keptReg, kept);
      if runnersUp == [] {
        assert kept == Vacant(|candidates|);
      } else {
        assert placed[reg[runnersUp[0].who].slot] == runnersUp[0].who;
      }
    }

    /** The truncation at the end of `finalise_tally`: everything after the last occupied slot
        goes; a list with no occupied slot is left as it is. */
    static method TrimTail(placed: seq<AccountId>) returns (kept: seq<AccountId>)
      ensures |kept| <= |placed| && kept == placed[..|kept|]
      ensures forall j :: |kept| <= j < |placed| ==> placed[j] == DefaultAccount
      ensures Occupied(kept) == Occupied(placed)
      ensures (exists j :: 0 <= j < |placed| && placed[j] != DefaultAccount) ==>
                |kept| > 0 && kept[|kept| - 1] != DefaultAccount
      ensures (forall j :: 0 <= j < |placed| ==> placed[j] == DefaultAccount) ==> kept == placed
    {
      match LastOccupied(placed) {
        case Some(last) =>
          OccupiedPrefix(placed, last + 1);
          kept := placed[..last + 1];
        case None =>
          kept := placed;
      }
    }

    /** The council `finalise_tally` sets: the seats after the `expiring` ones, then a seat per
        winner expiring `term` blocks after `now`, sorted by expiry. */
    static method NewCouncil(council: seq<Seat>, expiring: nat, winners: seq<Entry>, now: BlockNumber, term: BlockNumber)
      returns (r: seq<Seat>)
      ensures CouncilSorted(r)
      ensures multiset(r) == multiset(council[Min(expiring, |council|)..] + NewSeats(winners, now + term))
    {
      var chained := council[Min(expiring, |council|)..] + NewSeats(winners, now + term);
      r := SortByKey(chained, SeatExpiry);
      forall i, j | 0 <= i < j < |r| ensures r[i].expiry <= r[j].expiry {
        assert SeatExpiry(r[i]) <= SeatExpiry(r[j]);
      }
    }

    /** What `finalise_tally` leaves behind, given the record `f` and the board it took out of
        storage and the state before it: the winners seated (`WinnersSeated`) and the
        runners-up kept (`RunnersUpKept`). */
    ghost predicate Settled(f: Finalise, board: seq<Entry>, now: BlockNumber, term: BlockNumber, oldCouncil: seq<Seat>,
                            oldAccounts: Staking.Accounts, oldCandidates: seq<AccountId>,
                            oldRegistrations: map<AccountId, RegInfo>,
                            council: seq<Seat>, accounts: Staking.Accounts, kept: seq<AccountId>,
                            count: nat, registrations: map<AccountId, RegInfo>)
    {
      && WinnersSeated(f, board, now, term, oldCouncil, oldAccounts, council, accounts)
      && RunnersUpKept(f, board, oldCandidates, oldRegistrations, kept, count, registrations)
    }

    /** The first `f.coming` presented candidates, best first, are the winners: each gets the
        candidacy bond back and takes a seat expiring at `now + term`, beside the seats that
        follow the `f.expiring` expired ones, in a council sorted by expiry. */
    ghost predicate WinnersSeated(f: Finalise, board: seq<Entry>, now: BlockNumber, term: BlockNumber,
                                  oldCouncil: seq<Seat>, oldAccounts: Staking.Accounts,
                                  council: seq<Seat>, accounts: Staking.Accounts)
    {
      && CouncilSorted(council)
      && multiset(council) == multiset(oldCouncil[Min(|f.expiring|, |oldCouncil|)..] + NewSeats(Winners(board, f.coming), now + term))
      && accounts == Staking.Refunded(oldAccounts, Whos(Winners(board, f.coming)), candidacyBond)
    }

    /** The presented candidates after the winners are the runners-up: they alone stay counted
        and registered, each with the registration it had; the list does not grow, its last slot
        is occupied when there are runners-up, and every slot is empty when there are none. */
    ghost predicate RunnersUpKept(f: Finalise, board: seq<Entry>, oldCandidates: seq<AccountId>,
                                  oldRegistrations: map<AccountId, RegInfo>,
                                  kept: seq<AccountId>, count: nat, registrations: map<AccountId, RegInfo>)
    {
      && count == |RunnersUp(board, f.coming)|
      && (forall a :: a in registrations ==> a in Whos(RunnersUp(board, f.coming)))
      && (forall k :: 0 <= k < |RunnersUp(board, f.coming)| ==> RunnersUp(board, f.coming)[k].who in registrations)
      && (forall a :: a in registrations ==> a in oldRegistrations && registrations[a] == oldRegistrations[a])
      && |kept| <= |oldCandidates|
      && (RunnersUp(board, f.coming) != [] ==> |kept| > 0 && kept[|kept| - 1] != DefaultAccount)
      && (RunnersUp(board, f.coming) == [] ==> kept == Vacant(|oldCandidates|))
    }

    /** The winners get their bonds back and take their seats. */
    method SeatWinners(f: Finalise, board: seq<Entry>, now: BlockNumber, term: BlockNumber)
      modifies this`activeCouncil, staking
      ensures WinnersSeated(f, board, now, term, old(activeCouncil), old(staking.accounts), activeCouncil, staking.accounts)
    {
      var winners := Winners(board, f.coming);
      // return the bond to the winners
      staking.RefundEach(Whos(winners), candidacyBond);
      // set the new council
      activeCouncil := NewCouncil(activeCouncil, |f.expiring|, winners, now, term);
    }

    /** Every candidate but the runners-up leaves the candidate list. */
    method KeepRunnersUp(f: Finalise, board: seq<Entry>)
      requires CandidatesConsistent(candidates, registerInfoOf, candidateCount) && LeaderboardValid(board, registerInfoOf)
      modifies this`candidates, this`candidateCount, this`registerInfoOf
      ensures CandidatesConsistent(candidates, registerInfoOf, candidateCount)
      ensures RunnersUpKept(f, board, old(candidates), old(registerInfoOf), candidates, candidateCount, registerInfoOf)
    {
      RunnersUpValid(board, registerInfoOf, f.coming);
      var kept, keptReg, count := ClearCandidates(candidates, registerInfoOf, RunnersUp(board, f.coming));
      candidates, registerInfoOf, candidateCount := kept, keptReg, count;
    }

    /** The window part of `finalise_tally`: the snapshot is killed and the finalisation record
        and the board are taken out of storage. */
    method CloseWindow()
      requires votingPeriod > 0 && CouncilSorted(activeCouncil) && VotersConsistent(voters, lastActiveOf, approvalsOf) && CandidatesConsistent(candidates, registerInfoOf, candidateCount)
      modifies this`snapshotedStakes, this`nextFinalise, this`leaderboard
      ensures Valid()
      ensures nextFinalise.None? && leaderboard.None? && snapshotedStakes == []
    {
      snapshotedStakes, nextFinalise, leaderboard := [], None, None;
    }

    /** `finalise_tally`: settles the tally the open window held (see `Settled`), with the new
        seats expiring `term_duration` after `now`, advances the vote index and closes the
        window. */
    method FinaliseTally(now: BlockNumber)
      requires Valid() && nextFinalise.Some?
      modifies this`snapshotedStakes, this`nextFinalise, this`leaderboard, this`activeCouncil,
               this`candidates, this`candidateCount, this`registerInfoOf, this`voteIndex, staking
      ensures Valid()
      ensures nextFinalise.None? && leaderboard.None? && snapshotedStakes == []
      ensures voteIndex == old(voteIndex) + 1
      ensures Settled(old(nextFinalise.value), old(leaderboard.value), now, old(termDuration),
                      old(activeCouncil), old(staking.accounts), old(candidates), old(registerInfoOf),
                      activeCouncil, staking.accounts, candidates, candidateCount, registerInfoOf)
    {
      var f, board := nextFinalise.value, leaderboard.value;
      SettleTally(f, board, now, termDuration);
      voteIndex := voteIndex + 1;
      CloseWindow();
    }

    /** The settling part of `finalise_tally`: the winners take their seats and the runners-up
        stay on the candidate list. The two halves touch disjoint state, so the runners-up are
        kept first, while the board's invariant is still that of the entry state. */
    method SettleTally(f: Finalise, board: seq<Entry>, now: BlockNumber, term: BlockNumber)
      requires CandidatesConsistent(candidates, registerInfoOf, candidateCount) && LeaderboardValid(board, registerInfoOf)
      modifies this`activeCouncil, staking, this`candidates, this`candidateCount, this`registerInfoOf
      ensures CandidatesConsistent(candidates, registerInfoOf, candidateCount) && CouncilSorted(activeCouncil)
      ensures Settled(f, board, now, term, old(activeCouncil), old(staking.accounts), old(candidates), old(registerInfoOf),
                      activeCouncil, staking.accounts, candidates, candidateCount, registerInfoOf)
    {
      KeepRunnersUp(f, board);
      SeatWinners(f, board, now, term);
    }

    /** `end_block`: on a voting-period boundary that is the next tally block, the vote closes;
        a window that ends at `now` is then finalised. No window is left due at `now`. */
    method EndBlock(now: BlockNumber)
      requires Valid()
      requires nextFinalise.Some? ==> |nextFinalise.value.expiring| <= |activeCouncil|
      modifies this`snapshotedStakes, this`nextFinalise, this`leaderboard, this`activeCouncil,
               this`candidates, this`candidateCount, this`registerInfoOf, this`voteIndex, staking
      ensures Valid()
      ensures nextFinalise.Some? ==> nextFinalise.value.at != now
      ensures voteIndex == old(voteIndex) || voteIndex == old(voteIndex) + 1
      ensures old(now % votingPeriod != 0 || NextTally(now) != Some(now)) ==>
                (voteIndex == old(voteIndex) + 1 <==> old(nextFinalise.Some? && nextFinalise.value.at == now))
    {
      if now % votingPeriod == 0 {
        var next := NextTally(now);
        if next == Some(now) {
          StartTally(now);
        }
      }
      if nextFinalise.Some? && nextFinalise.value.at == now {
        FinaliseTally(now);
      }
    }
  }
}
