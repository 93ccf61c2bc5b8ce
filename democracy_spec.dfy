/** Values and pure queries of the referendum engine: public proposals and their deposits,
    referenda and their votes, the amount locked behind a proposal, the referenda that are
    active or due for tallying, the stake-weighted tally, and the choice of the proposal
    `end_block` launches. */
module DemocracySpec {
  import opened Common
  import Staking

  type PropIndex = nat
  type ReferendumIndex = nat
  type BlockNumber = nat

  /** A proposal, identified by the call it would dispatch. */
  type Proposal = nat

  /** The rule that decides a referendum from its tally. The module that defines the rules is
      not part of this model: `SuperMajorityApprove`, the rule public proposals are launched
      with, is named, and every other rule a privileged caller may pass is told apart by a
      number. Whether a rule approves a tally is a parameter of the block hook. */
  datatype VoteThreshold = SuperMajorityApprove | OtherThreshold(rule: nat)

  /** An entry of `PublicProps`: the proposal's index, the proposal and its proposer. */
  datatype PublicProp = PublicProp(index: PropIndex, proposal: Proposal, proposer: AccountId)

  /** An entry of `DepositOf`: the amount each depositor locked, and the depositors, proposer
      first; an account that seconds twice is listed twice. */
  datatype Deposit = Deposit(amount: nat, depositors: seq<AccountId>)

  /** An entry of `ReferendumInfoOf`: the block at which the referendum ends, the proposal it
      enacts and the rule that decides it. */
  datatype RefInfo = RefInfo(end: BlockNumber, proposal: Proposal, threshold: VoteThreshold)

  /** A stored referendum together with its index, as `active_referendums` lists them. */
  datatype Active = Active(index: ReferendumIndex, info: RefInfo)

  // ---------------------------------------------------------------------------------------
  // Deposits and the launch choice

  /** `locked_for`: the whole amount locked behind a proposal, `None` for an unknown index. */
  function LockedFor(depositOf: map<PropIndex, Deposit>, p: PropIndex): (r: Option<nat>)
    ensures r.Some? <==> p in depositOf
  {
    if p in depositOf then Some(depositOf[p].amount * |depositOf[p].depositors|) else None
  }

  /** Seconding a proposal adds one more deposit of the same amount to what it locks. */
  lemma SecondedLocks(depositOf: map<PropIndex, Deposit>, p: PropIndex, seconder: AccountId)
    requires p in depositOf
    ensures var d := depositOf[p];
            LockedFor(depositOf[p := Deposit(d.amount, d.depositors + [seconder])], p)
              == Some(LockedFor(depositOf, p).value + d.amount)
  {
    var d := depositOf[p];
    assert d.amount * (|d.depositors| + 1) == d.amount * |d.depositors| + d.amount;
  }

  /** No two public proposals share an index. */
  predicate DistinctIndices(props: seq<PublicProp>) {
    forall i, j :: 0 <= i < j < |props| ==> props[i].index != props[j].index
  }

  /** Every public proposal has a deposit record, as `end_block` expects. */
  predicate Deposited(props: seq<PublicProp>, depositOf: map<PropIndex, Deposit>) {
    forall k :: 0 <= k < |props| ==> props[k].index in depositOf
  }

  /** Every public proposal has a deposit record and an index of its own, taken from the
      proposal counter `count`, as is every deposit record. */
  predicate PropsConsistent(props: seq<PublicProp>, depositOf: map<PropIndex, Deposit>, count: PropIndex) {
    && Deposited(props, depositOf)
    && DistinctIndices(props)
    && (forall k :: 0 <= k < |props| ==> props[k].index < count)
    && (forall p :: p in depositOf ==> p < count)
  }

  /** The amount locked behind each public proposal, in list order. */
  function LockedAmounts(props: seq<PublicProp>, depositOf: map<PropIndex, Deposit>): (r: seq<nat>)
    requires Deposited(props, depositOf)
    ensures |r| == |props|
    ensures forall k :: 0 <= k < |r| ==> Some(r[k]) == LockedFor(depositOf, props[k].index)
  {
    if props == [] then [] else [LockedFor(depositOf, props[0].index).value] + LockedAmounts(props[1..], depositOf)
  }

  /** `Iterator::max_by_key` over positions: the position of a greatest key, and among equal
      greatest keys the last one. */
  function LastMax(keys: seq<nat>): (k: nat)
    requires |keys| > 0
    ensures k < |keys|
    ensures forall j :: 0 <= j < |keys| ==> keys[j] <= keys[k]
    ensures forall j :: k < j < |keys| ==> keys[j] < keys[k]
    decreases |keys|
  {
    if |keys| == 1 then 0
    else
      var k' := LastMax(keys[..|keys| - 1]);
      if keys[|keys| - 1] >= keys[k'] then |keys| - 1 else k'
  }

  /** The position of the proposal `end_block` launches: one that locks the most, and among
      those locking the most the last in list order. */
  function Winner(props: seq<PublicProp>, depositOf: map<PropIndex, Deposit>): (k: nat)
    requires Deposited(props, depositOf) && |props| > 0
    ensures k < |props|
    ensures forall j :: 0 <= j < |props| ==>
              LockedFor(depositOf, props[j].index).value <= LockedFor(depositOf, props[k].index).value
    ensures forall j :: k < j < |props| ==>
              LockedFor(depositOf, props[j].index).value < LockedFor(depositOf, props[k].index).value
  {
    var amounts := LockedAmounts(props, depositOf);
    var k := LastMax(amounts);
    assert forall j :: 0 <= j < |props| ==> amounts[j] == LockedFor(depositOf, props[j].index).value;
    k
  }

  /** Taking the proposal at `k` out of the list with `swap_remove` and deleting its deposit
      record keeps the proposal store consistent: every remaining proposal is deposited under
      an index of its own, and every index stays below `count`. */
  lemma LaunchKeepsDeposits(props: seq<PublicProp>, depositOf: map<PropIndex, Deposit>, k: nat, count: PropIndex)
    requires PropsConsistent(props, depositOf, count) && k < |props|
    ensures PropsConsistent(SwapRemove(props, k), depositOf - {props[k].index}, count)
  {
    var rest := SwapRemove(props, k);
    SwapRemoveAt(props, k);
    forall i, j | 0 <= i < j < |rest| ensures rest[i].index != rest[j].index {
      assert rest[i] == props[if i == k then |props| - 1 else i];
      assert rest[j] == props[if j == k then |props| - 1 else j];
    }
    forall j | 0 <= j < |rest| ensures rest[j].index in depositOf - {props[k].index} && rest[j].index < count {
      assert rest[j] == props[if j == k then |props| - 1 else j];
    }
  }

  // ---------------------------------------------------------------------------------------
  // Referenda

  /** The referenda stored with an index from `next` up to `last`, in index order; the cleared
      (cancelled or tallied) ones are skipped. */
  function ActiveReferendums(info: map<ReferendumIndex, RefInfo>, next: ReferendumIndex, last: ReferendumIndex)
    : (r: seq<Active>)
    ensures forall k :: 0 <= k < |r| ==>
              next <= r[k].index < last && r[k].index in info && info[r[k].index] == r[k].info
    ensures forall k1, k2 :: 0 <= k1 < k2 < |r| ==> r[k1].index < r[k2].index
    decreases last - next
  {
    if next >= last then []
    else if next in info then [Active(next, info[next])] + ActiveReferendums(info, next + 1, last)
    else ActiveReferendums(info, next + 1, last)
  }

  /** No stored referendum in the range is missing from `ActiveReferendums`. */
  lemma {:induction false} ActiveCovers(info: map<ReferendumIndex, RefInfo>, next: ReferendumIndex,
                                        last: ReferendumIndex, i: ReferendumIndex)
    requires next <= i < last && i in info
    ensures exists k :: 0 <= k < |ActiveReferendums(info, next, last)| && ActiveReferendums(info, next, last)[k].index == i
    decreases last - next
  {
    var r := ActiveReferendums(info, next, last);
    if i == next {
      assert r[0].index == i;
    } else {
      ActiveCovers(info, next + 1, last, i);
      var rest := ActiveReferendums(info, next + 1, last);
      var k :| 0 <= k < |rest| && rest[k].index == i;
      if next in info {
        assert r[k + 1] == rest[k];
      } else {
        assert r[k] == rest[k];
      }
    }
  }

  /** `take_while` on the referenda that end at block `n`. */
  function TakeEnding(s: seq<Active>, n: BlockNumber): (r: seq<Active>)
    ensures |r| <= |s| && r == s[..|r|]
    ensures forall k :: 0 <= k < |r| ==> r[k].info.end == n
    ensures |r| < |s| ==> s[|r|].info.end != n
  {
    if s == [] || s[0].info.end != n then [] else [s[0]] + TakeEnding(s[1..], n)
  }

  /** `maturing_referendums_at(n)`: the stored referenda from `next` on that end at `n`, up to
      the first stored one that does not. */
  function MaturingAt(info: map<ReferendumIndex, RefInfo>, next: ReferendumIndex, last: ReferendumIndex,
                      n: BlockNumber): (r: seq<Active>)
    ensures forall k :: 0 <= k < |r| ==>
              next <= r[k].index < last && r[k].index in info && r[k].info == info[r[k].index] && r[k].info.end == n
    ensures forall k1, k2 :: 0 <= k1 < k2 < |r| ==> r[k1].index < r[k2].index
  {
    TakeEnding(ActiveReferendums(info, next, last), n)
  }

  function RefIndices(s: seq<Active>): (r: set<ReferendumIndex>)
    ensures forall i :: i in r <==> exists k :: 0 <= k < |s| && s[k].index == i
  {
    set k | 0 <= k < |s| :: s[k].index
  }

  lemma RefIndicesSnoc(s: seq<Active>, x: Active)
    ensures RefIndices(s + [x]) == RefIndices(s) + {x.index}
  {
    forall i | i in RefIndices(s) ensures i in RefIndices(s + [x]) {
      var k :| 0 <= k < |s| && s[k].index == i;
      assert (s + [x])[k] == s[k];
    }
    assert (s + [x])[|s|] == x;
  }

  /** A referendum is among those maturing at `n` exactly when it is stored, its index lies in
      the range, and every stored referendum from `next` up to it ends at `n`: the run is
      contiguous and skips only cleared indices. */
  lemma MaturingIff(info: map<ReferendumIndex, RefInfo>, next: ReferendumIndex,
                    last: ReferendumIndex, n: BlockNumber, i: ReferendumIndex)
    ensures i in RefIndices(MaturingAt(info, next, last, n)) <==>
              && next <= i < last && i in info
              && forall j :: next <= j <= i && j in info ==> info[j].end == n
  {
    if i in RefIndices(MaturingAt(info, next, last, n)) {
      MaturingOnlyRun(info, next, last, n, i);
    }
    if && next <= i < last && i in info
       && forall j :: next <= j <= i && j in info ==> info[j].end == n
    {
      MaturingWholeRun(info, next, last, n, i);
    }
  }

  lemma MaturingOnlyRun(info: map<ReferendumIndex, RefInfo>, next: ReferendumIndex,
                        last: ReferendumIndex, n: BlockNumber, i: ReferendumIndex)
    requires i in RefIndices(MaturingAt(info, next, last, n))
    ensures next <= i < last && i in info
    ensures forall j :: next <= j <= i && j in info ==> info[j].end == n
  {
    var a := ActiveReferendums(info, next, last);
    var m := MaturingAt(info, next, last, n);
    var k :| 0 <= k < |m| && m[k].index == i;
    assert m[k] == a[k];
    forall j | next <= j <= i && j in info ensures info[j].end == n {
      ActiveCovers(info, next, last, j);
      var k' :| 0 <= k' < |a| && a[k'].index == j;
      // indices increase along the list, so `j` comes no later than `i`
      assert k' <= k;
      assert m[k'] == a[k'];
    }
  }

  lemma MaturingWholeRun(info: map<ReferendumIndex, RefInfo>, next: ReferendumIndex,
                         last: ReferendumIndex, n: BlockNumber, i: ReferendumIndex)
    requires next <= i < last && i in info
    requires forall j :: next <= j <= i && j in info ==> info[j].end == n
    ensures i in RefIndices(MaturingAt(info, next, last, n))
  {
    var a := ActiveReferendums(info, next, last);
    var m := MaturingAt(info, next, last, n);
    ActiveCovers(info, next, last, i);
    var k :| 0 <= k < |a| && a[k].index == i;
    // every referendum listed up to `i` ends at `n`, so the run does not stop before `i`
    forall p | 0 <= p <= k ensures a[p].info.end == n {
      if p < k {
        assert a[p].index < a[k].index;
      }
    }
    TakeEndingReaches(a, n, k);
    assert m[k] == a[k];
  }

  /** `take_while` goes past every position up to which all elements end at `n`. */
  lemma {:induction false} TakeEndingReaches(s: seq<Active>, n: BlockNumber, k: nat)
    requires k < |s| && forall p :: 0 <= p <= k ==> s[p].info.end == n
    ensures k < |TakeEnding(s, n)|
  {
    if k > 0 {
      TakeEndingReaches(s[1..], n, k - 1);
    }
  }

  /** Once the maturing referenda up to the `k`-th are tallied, every stored referendum from
      `next` up to the `k`-th has been among them. */
  lemma MaturedPrefixCovers(info: map<ReferendumIndex, RefInfo>, next: ReferendumIndex,
                            last: ReferendumIndex, n: BlockNumber, k: nat, j: ReferendumIndex)
    requires k < |MaturingAt(info, next, last, n)|
    requires next <= j <= MaturingAt(info, next, last, n)[k].index && j in info
    ensures j in RefIndices(MaturingAt(info, next, last, n)[..k + 1])
  {
    var a := ActiveReferendums(info, next, last);
    var m := MaturingAt(info, next, last, n);
    ActiveCovers(info, next, last, j);
    var p :| 0 <= p < |a| && a[p].index == j;
    assert m[k] == a[k];
    // indices increase along the list, so `j` comes no later than the `k`-th
    assert p <= k;
    assert m[..k + 1][p] == a[p];
  }

  /** The referenda still stored are those from the next to tally, `next`, on that were
      started before `count`. */
  predicate ReferendaInRange(info: map<ReferendumIndex, RefInfo>, next: ReferendumIndex, count: ReferendumIndex) {
    && next <= count
    && (forall i :: i in info ==> next <= i < count)
  }

  /** Every stored referendum with an index up to that of the `k`-th referendum of `ms` is
      among the first `k + 1` of `ms`. */
  predicate RunCovers(info: map<ReferendumIndex, RefInfo>, ms: seq<Active>) {
    forall k, j :: 0 <= k < |ms| && j in info && j <= ms[k].index ==> j in RefIndices(ms[..k + 1])
  }

  /** The referenda maturing at `n` are a run that no stored referendum from `next` on skips. */
  lemma MaturingCovers(info: map<ReferendumIndex, RefInfo>, next: ReferendumIndex, last: ReferendumIndex, n: BlockNumber)
    requires forall i :: i in info ==> next <= i
    ensures RunCovers(info, MaturingAt(info, next, last, n))
  {
    var ms := MaturingAt(info, next, last, n);
    forall k, j | 0 <= k < |ms| && j in info && j <= ms[k].index ensures j in RefIndices(ms[..k + 1]) {
      MaturedPrefixCovers(info, next, last, n, k, j);
    }
  }

  /** Whether `end` may follow the last referendum started: `inject_referendum` refuses an end
      before the end of the referendum with the preceding index, when that one is still stored. */
  predicate EndFollows(info: map<ReferendumIndex, RefInfo>, count: ReferendumIndex, end: BlockNumber) {
    !(count > 0 && count - 1 in info && info[count - 1].end > end)
  }

  /** Stored referenda end in index order. */
  predicate EndsOrdered(info: map<ReferendumIndex, RefInfo>) {
    forall i, j :: i in info && j in info && i < j ==> info[i].end <= info[j].end
  }

  /** While the referendum with the preceding index is stored, the check of `inject_referendum`
      keeps the stored ends in index order. */
  lemma InjectKeepsOrder(info: map<ReferendumIndex, RefInfo>, count: ReferendumIndex, r: RefInfo)
    requires EndsOrdered(info) && forall i :: i in info ==> i < count
    requires count > 0 ==> count - 1 in info || info == map[]
    requires EndFollows(info, count, r.end)
    ensures EndsOrdered(info[count := r])
  {
    forall i | i in info ensures info[i].end <= r.end {
      assert count - 1 in info;
    }
  }

  /** The check looks at the preceding index only: once that referendum has been cleared, an
      end before that of an earlier stored referendum is let through and the order breaks. In
      the running system every end is the current block plus the voting period and blocks only
      advance, so the order holds there all the same. */
  lemma InjectAfterClearUnordered()
    ensures var info := map[0 := RefInfo(10, 0, SuperMajorityApprove)];
            EndFollows(info, 2, 5) && EndsOrdered(info) && !EndsOrdered(info[2 := RefInfo(5, 1, SuperMajorityApprove)])
  {
    var info := map[0 := RefInfo(10, 0, SuperMajorityApprove)];
    var after := info[2 := RefInfo(5, 1, SuperMajorityApprove)];
    assert 0 in after && 2 in after && after[0].end > after[2].end;
  }

  // ---------------------------------------------------------------------------------------
  // Votes and the tally

  /** `voters_for`: the voters of a referendum, empty when none is stored. */
  function VotersOf(votersFor: map<ReferendumIndex, seq<AccountId>>, r: ReferendumIndex): seq<AccountId> {
    if r in votersFor then votersFor[r] else []
  }

  /** Every listed voter of referendum `r` has a vote recorded, as `tally` expects. */
  predicate VotesRecorded(voters: seq<AccountId>, voteOf: map<(ReferendumIndex, AccountId), bool>, r: ReferendumIndex) {
    forall v :: v in voters ==> (r, v) in voteOf
  }

  /** The sum of the balances of `whos`, one per occurrence. */
  function StakeOf(accounts: Staking.Accounts, whos: seq<AccountId>): nat
    decreases |whos|
  {
    if whos == [] then 0 else StakeOf(accounts, whos[..|whos| - 1]) + Staking.BalanceIn(accounts, whos[|whos| - 1])
  }

  lemma {:induction false} StakeOfAppend(accounts: Staking.Accounts, a: seq<AccountId>, b: seq<AccountId>)
    ensures StakeOf(accounts, a + b) == StakeOf(accounts, a) + StakeOf(accounts, b)
    decreases |b|
  {
    if b != [] {
      var b' := b[..|b| - 1];
      StakeOfAppend(accounts, a, b');
      assert (a + b)[..|a + b| - 1] == a + b';
      assert (a + b)[|a + b| - 1] == b[|b| - 1];
    } else {
      assert a + b == a;
    }
  }

  /** The voters of `voters` whose recorded vote on `r` is `side`, in list order. */
  function Siding(voters: seq<AccountId>, voteOf: map<(ReferendumIndex, AccountId), bool>, r: ReferendumIndex,
                  side: bool): (s: seq<AccountId>)
    requires VotesRecorded(voters, voteOf, r)
    decreases |voters|
  {
    if voters == [] then []
    else
      var last := voters[|voters| - 1];
      var init := voters[..|voters| - 1];
      Siding(init, voteOf, r, side) + (if voteOf[(r, last)] == side then [last] else [])
  }

  /** A voter is on side `side` exactly when it is listed and its recorded vote is `side`. */
  lemma {:induction false} SidingMembers(voters: seq<AccountId>, voteOf: map<(ReferendumIndex, AccountId), bool>,
                                         r: ReferendumIndex, side: bool)
    requires VotesRecorded(voters, voteOf, r)
    ensures forall v :: v in Siding(voters, voteOf, r, side) <==> v in voters && voteOf[(r, v)] == side
    decreases |voters|
  {
    if voters != [] {
      var last := voters[|voters| - 1];
      var init := voters[..|voters| - 1];
      assert voters == init + [last];
      SidingMembers(init, voteOf, r, side);
    }
  }

  /** `tally`: the stake of the aye voters and the stake of the nay voters, summed in list
      order. */
  function Tally(accounts: Staking.Accounts, voters: seq<AccountId>, voteOf: map<(ReferendumIndex, AccountId), bool>,
                 r: ReferendumIndex): (t: (nat, nat))
    requires VotesRecorded(voters, voteOf, r)
    decreases |voters|
  {
    if voters == [] then (0, 0)
    else
      var last := voters[|voters| - 1];
      var before := Tally(accounts, voters[..|voters| - 1], voteOf, r);
      var balance := Staking.BalanceIn(accounts, last);
      if voteOf[(r, last)] then (before.0 + balance, before.1) else (before.0, before.1 + balance)
  }

  /** The tally is the stake of the aye voters against the stake of the nay voters, and the two
      together are the stake of every listed voter. */
  lemma {:induction false} TallySplits(accounts: Staking.Accounts, voters: seq<AccountId>,
                                       voteOf: map<(ReferendumIndex, AccountId), bool>, r: ReferendumIndex)
    requires VotesRecorded(voters, voteOf, r)
    ensures Tally(accounts, voters, voteOf, r).0 == StakeOf(accounts, Siding(voters, voteOf, r, true))
    ensures Tally(accounts, voters, voteOf, r).1 == StakeOf(accounts, Siding(voters, voteOf, r, false))
    ensures Tally(accounts, voters, voteOf, r).0 + Tally(accounts, voters, voteOf, r).1 == StakeOf(accounts, voters)
    decreases |voters|
  {
    if voters != [] {
      var last := voters[|voters| - 1];
      var init := voters[..|voters| - 1];
      TallySplits(accounts, init, voteOf, r);
      StakeOfAppend(accounts, Siding(init, voteOf, r, true), if voteOf[(r, last)] then [last] else []);
      StakeOfAppend(accounts, Siding(init, voteOf, r, false), if !voteOf[(r, last)] then [last] else []);
      assert StakeOf(accounts, [last]) == Staking.BalanceIn(accounts, last) by {
        assert [last][..0] == [];
      }
      assert StakeOf(accounts, []) == 0;
    }
  }

  /** A vote recorded for an account that is not listed leaves the tally as it was. */
  lemma {:induction false} TallyIgnoresUnlisted(accounts: Staking.Accounts, voters: seq<AccountId>,
                                                voteOf: map<(ReferendumIndex, AccountId), bool>,
                                                r: ReferendumIndex, who: AccountId, approve: bool)
    requires VotesRecorded(voters, voteOf, r) && who !in voters
    ensures VotesRecorded(voters, voteOf[(r, who) := approve], r)
    ensures Tally(accounts, voters, voteOf[(r, who) := approve], r) == Tally(accounts, voters, voteOf, r)
    decreases |voters|
  {
    if voters != [] {
      var init := voters[..|voters| - 1];
      assert forall v :: v in init ==> v in voters;
      TallyIgnoresUnlisted(accounts, init, voteOf, r, who, approve);
    }
  }

  /** Voter lists belong to stored referenda, name each voter once and have a vote recorded
      for each; every vote is on a referendum started before `count`, and every vote on a
      stored referendum is listed. */
  predicate VotesConsistent(info: map<ReferendumIndex, RefInfo>, count: ReferendumIndex,
                            votersFor: map<ReferendumIndex, seq<AccountId>>,
                            voteOf: map<(ReferendumIndex, AccountId), bool>) {
    && (forall r :: r in votersFor ==> r in info && NoDup(votersFor[r]) && VotesRecorded(votersFor[r], voteOf, r))
    && (forall key :: key in voteOf ==> key.0 < count)
    && (forall key :: key in voteOf && key.0 in info ==> key.1 in VotersOf(votersFor, key.0))
  }

  /** A first vote on a stored referendum, which appends the voter to its list, keeps the
      votes consistent. */
  lemma FirstVoteConsistent(info: map<ReferendumIndex, RefInfo>, count: ReferendumIndex,
                            votersFor: map<ReferendumIndex, seq<AccountId>>,
                            voteOf: map<(ReferendumIndex, AccountId), bool>,
                            r: ReferendumIndex, who: AccountId, approve: bool)
    requires VotesConsistent(info, count, votersFor, voteOf) && r in info && r < count && (r, who) !in voteOf
    ensures who !in VotersOf(votersFor, r)
    ensures VotesConsistent(info, count, votersFor[r := VotersOf(votersFor, r) + [who]], voteOf[(r, who) := approve])
  {
    var voters := VotersOf(votersFor, r);
    var votersFor' := votersFor[r := voters + [who]];
    var voteOf' := voteOf[(r, who) := approve];
    forall q | q in votersFor' ensures q in info && NoDup(votersFor'[q]) && VotesRecorded(votersFor'[q], voteOf', q) {
      if q == r {
        assert forall v :: v in voters + [who] ==> v in voters || v == who;
      }
    }
    forall key | key in voteOf' && key.0 in info ensures key.1 in VotersOf(votersFor', key.0) {
      if key != (r, who) && key.0 == r {
        assert key.1 in voters;
      }
    }
  }

  /** A vote that replaces an earlier one keeps the votes consistent. */
  lemma RevoteConsistent(info: map<ReferendumIndex, RefInfo>, count: ReferendumIndex,
                         votersFor: map<ReferendumIndex, seq<AccountId>>,
                         voteOf: map<(ReferendumIndex, AccountId), bool>,
                         r: ReferendumIndex, who: AccountId, approve: bool)
    requires VotesConsistent(info, count, votersFor, voteOf) && (r, who) in voteOf
    ensures VotesConsistent(info, count, votersFor, voteOf[(r, who) := approve])
  {
  }

  /** Clearing a referendum and its voter list, and keeping its votes, keeps the votes
      consistent. */
  lemma ClearConsistent(info: map<ReferendumIndex, RefInfo>, count: ReferendumIndex,
                        votersFor: map<ReferendumIndex, seq<AccountId>>,
                        voteOf: map<(ReferendumIndex, AccountId), bool>, i: ReferendumIndex)
    requires VotesConsistent(info, count, votersFor, voteOf)
    ensures VotesConsistent(info - {i}, count, votersFor - {i}, voteOf)
  {
  }

  /** Storing a new referendum under the next index keeps the votes consistent: no vote was
      ever cast on it. */
  lemma InjectConsistent(info: map<ReferendumIndex, RefInfo>, count: ReferendumIndex,
                         votersFor: map<ReferendumIndex, seq<AccountId>>,
                         voteOf: map<(ReferendumIndex, AccountId), bool>, x: RefInfo)
    requires VotesConsistent(info, count, votersFor, voteOf) && count !in info
    ensures VotesConsistent(info[count := x], count + 1, votersFor, voteOf)
  {
  }

  /** A first vote adds the voter's whole balance to the side it takes. */
  lemma FirstVoteCounts(accounts: Staking.Accounts, voters: seq<AccountId>,
                        voteOf: map<(ReferendumIndex, AccountId), bool>,
                        r: ReferendumIndex, who: AccountId, approve: bool)
    requires VotesRecorded(voters, voteOf, r) && who !in voters
    ensures VotesRecorded(voters + [who], voteOf[(r, who) := approve], r)
    ensures Tally(accounts, voters + [who], voteOf[(r, who) := approve], r).0
              == Tally(accounts, voters, voteOf, r).0 + (if approve then Staking.BalanceIn(accounts, who) else 0)
    ensures Tally(accounts, voters + [who], voteOf[(r, who) := approve], r).1
              == Tally(accounts, voters, voteOf, r).1 + (if approve then 0 else Staking.BalanceIn(accounts, who))
  {
    TallyIgnoresUnlisted(accounts, voters, voteOf, r, who, approve);
    assert (voters + [who])[..|voters|] == voters;
  }

  // ---------------------------------------------------------------------------------------
  // Enactment

  /** Every referendum of `ms` has its voters' votes recorded. */
  predicate AllRecorded(ms: seq<Active>, votersFor: map<ReferendumIndex, seq<AccountId>>,
                        voteOf: map<(ReferendumIndex, AccountId), bool>) {
    forall k :: 0 <= k < |ms| ==> VotesRecorded(VotersOf(votersFor, ms[k].index), voteOf, ms[k].index)
  }

  /** Whether the rule of referendum `m` approves its tally; `approved` stands for
      `VoteThreshold::approved` on the aye stake, the nay stake and the total stake. */
  predicate Passes(m: Active, votersFor: map<ReferendumIndex, seq<AccountId>>,
                   voteOf: map<(ReferendumIndex, AccountId), bool>, accounts: Staking.Accounts,
                   approved: (VoteThreshold, nat, nat, nat) -> bool, totalStake: nat)
    requires VotesRecorded(VotersOf(votersFor, m.index), voteOf, m.index)
  {
    var t := Tally(accounts, VotersOf(votersFor, m.index), voteOf, m.index);
    approved(m.info.threshold, t.0, t.1, totalStake)
  }

  /** The proposals `end_block` dispatches for the referenda `ms`, in order: those whose rule
      approves their tally. */
  function Enacted(ms: seq<Active>, votersFor: map<ReferendumIndex, seq<AccountId>>,
                   voteOf: map<(ReferendumIndex, AccountId), bool>, accounts: Staking.Accounts,
                   approved: (VoteThreshold, nat, nat, nat) -> bool, totalStake: nat): seq<Proposal>
    requires AllRecorded(ms, votersFor, voteOf)
    decreases |ms|
  {
    if ms == [] then []
    else
      var m := ms[|ms| - 1];
      Enacted(ms[..|ms| - 1], votersFor, voteOf, accounts, approved, totalStake)
        + (if Passes(m, votersFor, voteOf, accounts, approved, totalStake) then [m.info.proposal] else [])
  }

  /** A proposal is dispatched exactly when some referendum of `ms` that enacts it passes, and
      no more proposals are dispatched than referenda tallied. */
  lemma {:induction false} EnactedIff(ms: seq<Active>, votersFor: map<ReferendumIndex, seq<AccountId>>,
                                      voteOf: map<(ReferendumIndex, AccountId), bool>, accounts: Staking.Accounts,
                                      approved: (VoteThreshold, nat, nat, nat) -> bool, totalStake: nat, p: Proposal)
    requires AllRecorded(ms, votersFor, voteOf)
    ensures |Enacted(ms, votersFor, voteOf, accounts, approved, totalStake)| <= |ms|
    ensures p in Enacted(ms, votersFor, voteOf, accounts, approved, totalStake) <==>
              exists k :: 0 <= k < |ms| && ms[k].info.proposal == p && Passes(ms[k], votersFor, voteOf, accounts, approved, totalStake)
    decreases |ms|
  {
    if ms != [] {
      var init := ms[..|ms| - 1];
      assert AllRecorded(init, votersFor, voteOf) by {
        forall k | 0 <= k < |init| ensures VotesRecorded(VotersOf(votersFor, init[k].index), voteOf, init[k].index) {
          assert init[k] == ms[k];
        }
      }
      EnactedIff(init, votersFor, voteOf, accounts, approved, totalStake, p);
      if exists k :: 0 <= k < |ms| && ms[k].info.proposal == p && Passes(ms[k], votersFor, voteOf, accounts, approved, totalStake) {
        var k :| 0 <= k < |ms| && ms[k].info.proposal == p && Passes(ms[k], votersFor, voteOf, accounts, approved, totalStake);
        if k < |init| {
          assert init[k] == ms[k];
        }
      }
      if exists k :: 0 <= k < |init| && init[k].info.proposal == p && Passes(init[k], votersFor, voteOf, accounts, approved, totalStake) {
        var k :| 0 <= k < |init| && init[k].info.proposal == p && Passes(init[k], votersFor, voteOf, accounts, approved, totalStake);
        assert ms[k] == init[k];
      }
    }
  }

  /** Tallying one more referendum dispatches its proposal after the earlier ones exactly
      when it passes. */
  lemma EnactedSnoc(ms: seq<Active>, m: Active, votersFor: map<ReferendumIndex, seq<AccountId>>,
                    voteOf: map<(ReferendumIndex, AccountId), bool>, accounts: Staking.Accounts,
                    approved: (VoteThreshold, nat, nat, nat) -> bool, totalStake: nat)
    requires AllRecorded(ms, votersFor, voteOf) && VotesRecorded(VotersOf(votersFor, m.index), voteOf, m.index)
    ensures AllRecorded(ms + [m], votersFor, voteOf)
    ensures Enacted(ms + [m], votersFor, voteOf, accounts, approved, totalStake)
              == Enacted(ms, votersFor, voteOf, accounts, approved, totalStake)
                 + (if Passes(m, votersFor, voteOf, accounts, approved, totalStake) then [m.info.proposal] else [])
  {
    assert (ms + [m])[..|ms|] == ms;
    assert (ms + [m])[|ms|] == m;
    forall k | 0 <= k < |ms| + 1 ensures VotesRecorded(VotersOf(votersFor, (ms + [m])[k].index), voteOf, (ms + [m])[k].index) {
      if k < |ms| {
        assert (ms + [m])[k] == ms[k];
      }
    }
  }

  /** Whether a referendum passes depends only on its own voter list. */
  lemma PassesOnOwnVoters(m: Active, votersFor: map<ReferendumIndex, seq<AccountId>>,
                          votersFor': map<ReferendumIndex, seq<AccountId>>,
                          voteOf: map<(ReferendumIndex, AccountId), bool>, accounts: Staking.Accounts,
                          approved: (VoteThreshold, nat, nat, nat) -> bool, totalStake: nat)
    requires VotersOf(votersFor, m.index) == VotersOf(votersFor', m.index)
    requires VotesRecorded(VotersOf(votersFor, m.index), voteOf, m.index)
    ensures Passes(m, votersFor, voteOf, accounts, approved, totalStake) == Passes(m, votersFor', voteOf, accounts, approved, totalStake)
  {
  }

  /** The round of the tally loop that takes `ms[i]`, stated over the stores `info0` and
      `voters0` the run started from and the proposals `before` dispatched before it: the
      referenda `ms[..i]` are already cleared, `ms[i]` is the first one still stored, its voter
      list is untouched, and dispatching it when it passes extends the proposals the run has
      enacted so far to those of `ms[..i + 1]`. */
  lemma {:induction false} RunStep(ms: seq<Active>, i: nat, info0: map<ReferendumIndex, RefInfo>,
                                   voters0: map<ReferendumIndex, seq<AccountId>>,
                                   voteOf: map<(ReferendumIndex, AccountId), bool>, accounts: Staking.Accounts,
                                   approved: (VoteThreshold, nat, nat, nat) -> bool, totalStake: nat,
                                   before: seq<Proposal>)
    requires i < |ms|
    requires forall k1, k2 :: 0 <= k1 < k2 < |ms| ==> ms[k1].index < ms[k2].index
    requires RunCovers(info0, ms) && AllRecorded(ms, voters0, voteOf)
    ensures info0 - RefIndices(ms[..i + 1]) == info0 - RefIndices(ms[..i]) - {ms[i].index}
    ensures voters0 - RefIndices(ms[..i + 1]) == voters0 - RefIndices(ms[..i]) - {ms[i].index}
    ensures forall j :: j in info0 - RefIndices(ms[..i]) && j != ms[i].index ==> ms[i].index < j
    ensures AllRecorded(ms[..i], voters0, voteOf)
    ensures VotesRecorded(VotersOf(voters0 - RefIndices(ms[..i]), ms[i].index), voteOf, ms[i].index)
    ensures Passes(ms[i], voters0 - RefIndices(ms[..i]), voteOf, accounts, approved, totalStake)
              == Passes(ms[i], voters0, voteOf, accounts, approved, totalStake)
    ensures before + Enacted(ms[..i + 1], voters0, voteOf, accounts, approved, totalStake)
              == before + Enacted(ms[..i], voters0, voteOf, accounts, approved, totalStake)
                 + (if Passes(ms[i], voters0, voteOf, accounts, approved, totalStake) then [ms[i].info.proposal] else [])
  {
    var m, done := ms[i], RefIndices(ms[..i]);
    assert ms[..i + 1] == ms[..i] + [m];
    RefIndicesSnoc(ms[..i], m);
    MapMinusUnion(info0, done, {m.index});
    MapMinusUnion(voters0, done, {m.index});
    forall j | j in info0 - done && j != m.index ensures m.index < j {
      assert j !in RefIndices(ms[..i + 1]);
    }
    assert m.index !in done;
    assert VotersOf(voters0 - done, m.index) == VotersOf(voters0, m.index);
    forall k | 0 <= k < i ensures VotesRecorded(VotersOf(voters0, ms[..i][k].index), voteOf, ms[..i][k].index) {
      assert ms[..i][k] == ms[k];
    }
    PassesOnOwnVoters(m, voters0 - done, voters0, voteOf, accounts, approved, totalStake);
    EnactedSnoc(ms[..i], m, voters0, voteOf, accounts, approved, totalStake);
    var e := Enacted(ms[..i], voters0, voteOf, accounts, approved, totalStake);
    var step := if Passes(m, voters0, voteOf, accounts, approved, totalStake) then [m.info.proposal] else [];
    assert before + e + step == before + (e + step);
  }
}
