/** The stake ledger both engines draw bonds from. The staking module itself is not part of
    this model: the functions below state the behaviour the engines assume of it, one account
    record (free and reserved balance) per account, an absent record reading as zero. Each
    operation is a function on the whole map of records; the `Ledger` class holds that map and
    applies them in place. */
module Staking {
  import opened Common

  datatype Account = Account(free: nat, reserved: nat)

  type Accounts = map<AccountId, Account>

  function FreeIn(accounts: Accounts, who: AccountId): nat {
    if who in accounts then accounts[who].free else 0
  }

  function ReservedIn(accounts: Accounts, who: AccountId): nat {
    if who in accounts then accounts[who].reserved else 0
  }

  /** `staking::balance`: the whole stake of an account, free and reserved. */
  function BalanceIn(accounts: Accounts, who: AccountId): nat {
    FreeIn(accounts, who) + ReservedIn(accounts, who)
  }

  /** `reserve_balance`: moves `value` from free to reserved; the free balance must cover it. */
  function WithReserve(accounts: Accounts, who: AccountId, value: nat): (r: Accounts)
    requires FreeIn(accounts, who) >= value
    ensures FreeIn(r, who) == FreeIn(accounts, who) - value
    ensures ReservedIn(r, who) == ReservedIn(accounts, who) + value
  {
    accounts[who := Account(FreeIn(accounts, who) - value, ReservedIn(accounts, who) + value)]
  }

  /** `unreserve_balance`: moves up to `value` from reserved back to free. */
  function WithUnreserve(accounts: Accounts, who: AccountId, value: nat): (r: Accounts)
    ensures BalanceIn(r, who) == BalanceIn(accounts, who)
    ensures ReservedIn(r, who) == if value <= ReservedIn(accounts, who) then ReservedIn(accounts, who) - value else 0
  {
    var moved := if value <= ReservedIn(accounts, who) then value else ReservedIn(accounts, who);
    accounts[who := Account(FreeIn(accounts, who) + moved, ReservedIn(accounts, who) - moved)]
  }

  /** `deduct_unbonded` when it succeeds: `value` leaves the free balance for good. */
  function WithDeduct(accounts: Accounts, who: AccountId, value: nat): (r: Accounts)
    requires FreeIn(accounts, who) >= value
    ensures FreeIn(r, who) == FreeIn(accounts, who) - value
    ensures ReservedIn(r, who) == ReservedIn(accounts, who)
  {
    accounts[who := Account(FreeIn(accounts, who) - value, ReservedIn(accounts, who))]
  }

  /** `refund`: credits `value` to the free balance. */
  function WithRefund(accounts: Accounts, who: AccountId, value: nat): (r: Accounts)
    ensures FreeIn(r, who) == FreeIn(accounts, who) + value
    ensures ReservedIn(r, who) == ReservedIn(accounts, who)
  {
    accounts[who := Account(FreeIn(accounts, who) + value, ReservedIn(accounts, who))]
  }

  /** `transfer_reserved_balance`: moves up to `value` of `from`'s reserved balance to the free
      balance of `to`. */
  function WithTransferReserved(accounts: Accounts, from: AccountId, to: AccountId, value: nat): (r: Accounts)
    ensures from != to ==> BalanceIn(r, from) + BalanceIn(r, to) == BalanceIn(accounts, from) + BalanceIn(accounts, to)
    ensures from != to ==> BalanceIn(r, to) >= BalanceIn(accounts, to)
    ensures var moved := if value <= ReservedIn(accounts, from) then value else ReservedIn(accounts, from);
            from != to ==> && ReservedIn(r, from) == ReservedIn(accounts, from) - moved
                           && FreeIn(r, from) == FreeIn(accounts, from)
                           && FreeIn(r, to) == FreeIn(accounts, to) + moved
                           && ReservedIn(r, to) == ReservedIn(accounts, to)
  {
    var moved := if value <= ReservedIn(accounts, from) then value else ReservedIn(accounts, from);
    var taken := accounts[from := Account(FreeIn(accounts, from), ReservedIn(accounts, from) - moved)];
    taken[to := Account(FreeIn(taken, to) + moved, ReservedIn(taken, to))]
  }

  /** `slash_reserved`: burns up to `value` of the reserved balance. */
  function WithSlashReserved(accounts: Accounts, who: AccountId, value: nat): (r: Accounts)
    ensures FreeIn(r, who) == FreeIn(accounts, who)
    ensures ReservedIn(r, who) == if value <= ReservedIn(accounts, who) then ReservedIn(accounts, who) - value else 0
  {
    var burnt := if value <= ReservedIn(accounts, who) then value else ReservedIn(accounts, who);
    accounts[who := Account(FreeIn(accounts, who), ReservedIn(accounts, who) - burnt)]
  }

  /** `slash`: burns up to `value`, from the free balance first and then from the reserved one. */
  function WithSlash(accounts: Accounts, who: AccountId, value: nat): (r: Accounts)
    ensures BalanceIn(accounts, who) >= value ==> BalanceIn(r, who) == BalanceIn(accounts, who) - value
    ensures BalanceIn(accounts, who) < value ==> BalanceIn(r, who) == 0
    ensures FreeIn(r, who) == if value <= FreeIn(accounts, who) then FreeIn(accounts, who) - value else 0
  {
    var fromFree := if value <= FreeIn(accounts, who) then value else FreeIn(accounts, who);
    var rest := value - fromFree;
    var fromReserved := if rest <= ReservedIn(accounts, who) then rest else ReservedIn(accounts, who);
    accounts[who := Account(FreeIn(accounts, who) - fromFree, ReservedIn(accounts, who) - fromReserved)]
  }

  /** Credits `value` to the free balance of each of `whos`, first to last. */
  function Refunded(accounts: Accounts, whos: seq<AccountId>, value: nat): Accounts
    decreases |whos|
  {
    if whos == [] then accounts
    else WithRefund(Refunded(accounts, whos[..|whos| - 1], value), whos[|whos| - 1], value)
  }

  /** Refunding a list of depositors credits each account once per occurrence in the list
      and touches no reserved balance. */
  lemma {:induction false} RefundedCredits(accounts: Accounts, whos: seq<AccountId>, value: nat, who: AccountId)
    ensures FreeIn(Refunded(accounts, whos, value), who) == FreeIn(accounts, who) + value * multiset(whos)[who]
    ensures ReservedIn(Refunded(accounts, whos, value), who) == ReservedIn(accounts, who)
    decreases |whos|
  {
    if whos == [] {
      assert multiset(whos)[who] == 0;
    } else {
      var init: seq<AccountId> := whos[..|whos| - 1];
      var last := whos[|whos| - 1];
      RefundedCredits(accounts, init, value, who);
      assert whos == init + [last];
      CountAfterAppend(init, last, who);
      RefundStep(Refunded(accounts, init, value), last, value, who);
      MulSucc(value, multiset(init)[who]);
    }
  }

  lemma CountAfterAppend(init: seq<AccountId>, last: AccountId, who: AccountId)
    ensures multiset(init + [last])[who] == multiset(init)[who] + (if last == who then 1 else 0)
  {
    assert multiset(init + [last]) == multiset(init) + multiset{last};
  }

  lemma RefundStep(before: Accounts, last: AccountId, value: nat, who: AccountId)
    ensures FreeIn(WithRefund(before, last, value), who) == FreeIn(before, who) + (if last == who then value else 0)
    ensures ReservedIn(WithRefund(before, last, value), who) == ReservedIn(before, who)
  {
  }

  lemma MulSucc(value: nat, c: nat)
    ensures value * (c + 1) == value * c + value
  {
  }

  /** The snapshot of a list of accounts' balances. */
  function BalancesIn(accounts: Accounts, whos: seq<AccountId>): (r: seq<nat>)
    ensures |r| == |whos|
    ensures forall k :: 0 <= k < |r| ==> r[k] == BalanceIn(accounts, whos[k])
  {
    if whos == [] then [] else [BalanceIn(accounts, whos[0])] + BalancesIn(accounts, whos[1..])
  }

  class Ledger {
    var accounts: Accounts

    constructor (initial: Accounts)
      ensures accounts == initial
    {
      accounts := initial;
    }

    function Free(who: AccountId): nat
      reads this
    {
      FreeIn(accounts, who)
    }

    function Balance(who: AccountId): nat
      reads this
    {
      BalanceIn(accounts, who)
    }

    /** `can_slash`: the account's whole stake covers `value`. */
    predicate CanSlash(who: AccountId, value: nat)
      reads this
    {
      Balance(who) >= value
    }

    /** `reserve_balance`, which aborts the calling dispatch when the free balance falls short:
        reports whether it went through and changes nothing otherwise. */
    method Reserve(who: AccountId, value: nat) returns (ok: bool)
      modifies this
      ensures ok == (old(Free(who)) >= value)
      ensures ok ==> accounts == WithReserve(old(accounts), who, value)
      ensures !ok ==> accounts == old(accounts)
    {
      ok := Free(who) >= value;
      if ok {
        accounts := WithReserve(accounts, who, value);
      }
    }

    method Unreserve(who: AccountId, value: nat)
      modifies this
      ensures accounts == WithUnreserve(old(accounts), who, value)
    {
      accounts := WithUnreserve(accounts, who, value);
    }

    /** `deduct_unbonded`: reports whether the free balance covers `value`, and deducts it if so. */
    method DeductUnbonded(who: AccountId, value: nat) returns (ok: bool)
      modifies this
      ensures ok == (old(Free(who)) >= value)
      ensures ok ==> accounts == WithDeduct(old(accounts), who, value)
      ensures !ok ==> accounts == old(accounts)
    {
      ok := Free(who) >= value;
      if ok {
        accounts := WithDeduct(accounts, who, value);
      }
    }

    method Refund(who: AccountId, value: nat)
      modifies this
      ensures accounts == WithRefund(old(accounts), who, value)
    {
      accounts := WithRefund(accounts, who, value);
    }

    /** Refunds `value` to each of `whos` in turn, as the engines' refund loops do. */
    method RefundEach(whos: seq<AccountId>, value: nat)
      modifies this
      ensures accounts == Refunded(old(accounts), whos, value)
    {
      for i := 0 to |whos|
        invariant accounts == Refunded(old(accounts), whos[..i], value)
      {
        assert whos[..i + 1][..i] == whos[..i];
        Refund(whos[i], value);
      }
      assert whos[..|whos|] == whos;
    }

    method TransferReserved(from: AccountId, to: AccountId, value: nat)
      modifies this
      ensures accounts == WithTransferReserved(old(accounts), from, to, value)
    {
      accounts := WithTransferReserved(accounts, from, to, value);
    }

    method SlashReserved(who: AccountId, value: nat)
      modifies this
      ensures accounts == WithSlashReserved(old(accounts), who, value)
    {
      accounts := WithSlashReserved(accounts, who, value);
    }

    method Slash(who: AccountId, value: nat)
      modifies this
      ensures accounts == WithSlash(old(accounts), who, value)
    {
      accounts := WithSlash(accounts, who, value);
    }
  }
}
