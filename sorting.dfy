/** Rust's `sort_by_key`, a stable sort, as an insertion sort: the first element goes in front
    of every element whose key is not smaller than its own, which keeps equal keys in their
    original order. */
module Sorting {

  predicate SortedBy<T>(s: seq<T>, key: T -> nat) {
    forall i, j :: 0 <= i < j < |s| ==> key(s[i]) <= key(s[j])
  }

  function InsertBy<T>(e: T, s: seq<T>, key: T -> nat): (r: seq<T>)
    ensures |r| == |s| + 1
  {
    if s == [] || key(e) <= key(s[0]) then
      [e] + s
    else
      [s[0]] + InsertBy(e, s[1..], key)
  }

  /** Inserting adds the element and loses none. */
  lemma {:induction false} InsertByPermutes<T>(e: T, s: seq<T>, key: T -> nat)
    ensures multiset(InsertBy(e, s, key)) == multiset(s) + multiset{e}
  {
    if s != [] && key(e) > key(s[0]) {
      InsertByPermutes(e, s[1..], key);
      assert s == [s[0]] + s[1..];
    }
  }

  lemma {:induction false} InsertByMembers<T>(e: T, s: seq<T>, key: T -> nat)
    ensures forall x :: x in InsertBy(e, s, key) ==> x == e || x in s
  {
    if s != [] && key(e) > key(s[0]) {
      InsertByMembers(e, s[1..], key);
      assert s == [s[0]] + s[1..];
    }
  }

  /** Inserting into a sorted sequence keeps it sorted. */
  lemma {:induction false} InsertBySorted<T>(e: T, s: seq<T>, key: T -> nat)
    requires SortedBy(s, key)
    ensures SortedBy(InsertBy(e, s, key), key)
  {
    if s != [] && key(e) > key(s[0]) {
      var rest := InsertBy(e, s[1..], key);
      InsertBySorted(e, s[1..], key);
      assert s == [s[0]] + s[1..];
      InsertByMembers(e, s[1..], key);
      forall j | 0 <= j < |rest| ensures key(s[0]) <= key(rest[j]) {
        assert rest[j] in rest;
        if rest[j] != e {
          // it came from the tail, which is sorted after `s[0]`
          var m :| 0 <= m < |s[1..]| && s[1..][m] == rest[j];
          assert s[m + 1] == rest[j];
        }
      }
      var r := InsertBy(e, s, key);
      assert r == [s[0]] + rest;
      forall i, j | 0 <= i < j < |r| ensures key(r[i]) <= key(r[j]) {
        if i > 0 {
          assert r[i] == rest[i - 1] && r[j] == rest[j - 1];
        }
      }
    }
  }

  /** Where `InsertBy` puts the new element: after every element whose key is below its own
      and in front of the first one whose key is not. */
  lemma {:induction false} InsertBySplit<T>(e: T, s: seq<T>, key: T -> nat) returns (k: nat)
    ensures k <= |s| && InsertBy(e, s, key) == s[..k] + [e] + s[k..]
    ensures forall j :: 0 <= j < k ==> key(s[j]) < key(e)
    ensures k < |s| ==> key(e) <= key(s[k])
  {
    if s == [] || key(e) <= key(s[0]) {
      k := 0;
    } else {
      var k' := InsertBySplit(e, s[1..], key);
      k := k' + 1;
      assert s[..k] == [s[0]] + s[1..][..k'];
      assert s[k..] == s[1..][k'..];
      forall j | 0 <= j < k ensures key(s[j]) < key(e) {
        if j > 0 {
          assert s[j] == s[1..][j - 1];
        }
      }
    }
  }

  function SortByKey<T>(s: seq<T>, key: T -> nat): (r: seq<T>)
    ensures |r| == |s|
    ensures multiset(r) == multiset(s)
    ensures SortedBy(r, key)
  {
    if s == [] then []
    else
      assert s == [s[0]] + s[1..];
      InsertBySorted(s[0], SortByKey(s[1..], key), key);
      InsertByPermutes(s[0], SortByKey(s[1..], key), key);
      InsertBy(s[0], SortByKey(s[1..], key), key)
  }

  /** Sorting a sequence that is already sorted leaves it as it is (the sort is stable). */
  lemma {:induction false} SortOfSorted<T>(s: seq<T>, key: T -> nat)
    requires SortedBy(s, key)
    ensures SortByKey(s, key) == s
  {
    if s != [] {
      SortOfSorted(s[1..], key);
      assert SortByKey(s[1..], key) == s[1..];
      assert s == [s[0]] + s[1..];
    }
  }
}
