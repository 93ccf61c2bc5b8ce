/** Types and sequence helpers shared by the council and the referendum engines. */
module Common {

  /** An account identifier. Account 0 stands for `AccountId::default()`, the all-zero key
      that marks an empty candidate slot and an empty leaderboard entry. */
  type AccountId = nat

  const DefaultAccount: AccountId := 0

  datatype Option<T> = None | Some(value: T)

  /** The result of a dispatch that returns nothing: it either runs to completion or aborts
      with a named reason, leaving storage as it was. */
  datatype Outcome<E> = Pass | Fail(error: E)

  datatype Result<T, E> = Ok(value: T) | Err(error: E)

  /** The outcome of a dispatch whose first failed check, if any, is `check`. */
  function OutcomeOf<E>(check: Option<E>): Outcome<E> {
    match check
    case None => Pass
    case Some(e) => Fail(e)
  }

  predicate NoDup<T(==)>(s: seq<T>) {
    forall i, j :: 0 <= i < j < |s| ==> s[i] != s[j]
  }

  /** `Vec::swap_remove`: the element at `i` is replaced by the last one, and the vector shrinks by one. */
  function SwapRemove<T>(s: seq<T>, i: nat): (r: seq<T>)
    requires i < |s|
    ensures |r| == |s| - 1
    ensures r[..i] == s[..i]
    ensures i < |r| ==> r[i] == s[|s| - 1] && r[i + 1..] == s[i + 1..|s| - 1]
  {
    var last := |s| - 1;
    if i == last then
      s[..i]
    else
      s[..i] + [s[last]] + s[i + 1..last]
  }

  /** A swap-remove loses exactly the element at `i`. */
  lemma SwapRemovePermutes<T>(s: seq<T>, i: nat)
    requires i < |s|
    ensures multiset(SwapRemove(s, i)) + multiset{s[i]} == multiset(s)
  {
    var last := |s| - 1;
    if i == last {
      assert s == s[..i] + [s[i]];
    } else {
      assert s == s[..i] + [s[i]] + s[i + 1..last] + [s[last]];
    }
  }

  /** After a swap-remove the removed element is gone (when the sequence had no duplicates)
      and every other element is still present. */
  lemma SwapRemoveMembers<T>(s: seq<T>, i: nat)
    requires i < |s| && NoDup(s)
    ensures s[i] !in SwapRemove(s, i)
    ensures forall x :: x in s && x != s[i] ==> x in SwapRemove(s, i)
    ensures NoDup(SwapRemove(s, i))
  {
    var r := SwapRemove(s, i);
    var last := |s| - 1;
    // every element of r comes from a position of s other than i, and distinct positions of r
    // come from distinct positions of s
    assert forall k :: 0 <= k < |r| ==> r[k] == s[if k == i then last else k];
    forall x | x in s && x != s[i] ensures x in r {
      var j :| 0 <= j < |s| && s[j] == x;
      if j == last {
        assert r[i] == x;
      } else {
        assert r[j] == x;
      }
    }
  }

  /** Position by position: a swap-remove keeps every element before and after `i` where it
      was, and puts the last element at `i`. */
  lemma SwapRemoveAt<T>(s: seq<T>, i: nat)
    requires i < |s|
    ensures forall k :: 0 <= k < |SwapRemove(s, i)| ==> SwapRemove(s, i)[k] == s[if k == i then |s| - 1 else k]
  {
    var r := SwapRemove(s, i);
    forall k | 0 <= k < |r| ensures r[k] == s[if k == i then |s| - 1 else k] {
      if k < i {
        assert r[..i][k] == s[..i][k];
      } else if k > i {
        assert r[i + 1..][k - i - 1] == s[i + 1..|s| - 1][k - i - 1];
      }
    }
  }

  /** Removing keys one set after another is removing their union. */
  lemma MapMinusUnion<K, V>(m: map<K, V>, a: set<K>, b: set<K>)
    ensures m - a - b == m - (a + b)
  {
  }
}
