/** Sequence vocabulary shared by the graph and the health pipeline:
    duplicate-freedom, first occurrence and first-seen order. */
module Seqs {

  /** No element occurs twice. */
  predicate NoDup<T(==)>(s: seq<T>) {
    forall i, j :: 0 <= i < j < |s| ==> s[i] != s[j]
  }

  /** Position of the first occurrence of `x` in `s`, or `|s|` when `x` does not occur. */
  function FirstIndex<T(==)>(s: seq<T>, x: T): (k: nat)
    ensures k <= |s|
    ensures k < |s| <==> x in s
    ensures k < |s| ==> s[k] == x
    ensures forall j :: 0 <= j < k ==> s[j] != x
  {
    if |s| == 0 then 0
    else if s[0] == x then 0
    else 1 + FirstIndex(s[1..], x)
  }

  /** `r` lists its elements in the order in which they first occur in `s`. */
  predicate InFirstSeenOrder<T(==)>(r: seq<T>, s: seq<T>) {
    forall i, j :: 0 <= i < j < |r| ==> FirstIndex(s, r[i]) < FirstIndex(s, r[j])
  }

  /** The first occurrence of an element of `s` does not move when more is appended. */
  lemma FirstIndexAppend<T>(s: seq<T>, t: seq<T>, x: T)
    ensures x in s ==> FirstIndex(s + t, x) == FirstIndex(s, x)
    ensures x !in s ==> FirstIndex(s + t, x) == |s| + FirstIndex(t, x)
  {
    var k := FirstIndex(s + t, x);
    if x in s {
      var m := FirstIndex(s, x);
      assert (s + t)[m] == x;
    } else if x in t {
      var m := FirstIndex(t, x);
      assert (s + t)[|s| + m] == x;
      assert forall j :: 0 <= j < m ==> (s + t)[|s| + j] == t[j];
    } else {
      assert x !in s + t;
    }
  }

  /** Concatenation of the inner sequences, in order. */
  function Flatten<T(!new)>(ss: seq<seq<T>>): (r: seq<T>)
    ensures forall x :: x in r <==> exists k :: 0 <= k < |ss| && x in ss[k]
  {
    if |ss| == 0 then []
    else
      var r := ss[0] + Flatten(ss[1..]);
      assert forall k :: 1 <= k < |ss| ==> ss[k] == ss[1..][k - 1];
      r
  }

  /** In a duplicate-free sequence every element occurs exactly once. */
  lemma {:induction false} NoDupMultiplicity<T>(s: seq<T>, x: T)
    requires NoDup(s)
    ensures multiset(s)[x] == if x in s then 1 else 0
  {
    if |s| > 0 {
      assert s == [s[0]] + s[1..];
      assert NoDup(s[1..]);
      NoDupMultiplicity(s[1..], x);
      assert s[0] !in s[1..];
    }
  }

  /** The count of `x` in a non-empty sequence: its head plus its tail. */
  lemma MultisetCons<T>(s: seq<T>, x: T)
    requires |s| > 0
    ensures multiset(s)[x] == (if s[0] == x then 1 else 0) + multiset(s[1..])[x]
  {
    assert s == [s[0]] + s[1..];
  }

  /** Flattening distributes over appending one more inner sequence. */
  lemma {:induction false} FlattenSnoc<T(!new)>(ss: seq<seq<T>>, t: seq<T>)
    ensures Flatten(ss + [t]) == Flatten(ss) + t
  {
    if |ss| > 0 {
      assert (ss + [t])[1..] == ss[1..] + [t];
      FlattenSnoc(ss[1..], t);
    } else {
      assert Flatten([t]) == t + Flatten([t][1..]);
    }
  }

  /** The head of a duplicate-free sequence does not recur in its tail, which is duplicate-free too. */
  lemma NoDupCons<T>(s: seq<T>)
    requires NoDup(s) && |s| > 0
    ensures s[0] !in s[1..] && NoDup(s[1..])
  {
    forall k | 0 <= k < |s[1..]| ensures s[1..][k] != s[0] {
      assert s[1..][k] == s[k + 1];
    }
  }

  /** First-seen order relative to the tail of `s` carries over to `s`
      itself, also with the head of `s` put in front. */
  lemma FirstSeenOrderCons<T>(r: seq<T>, s: seq<T>)
    requires |s| > 0 && s[0] !in r
    requires InFirstSeenOrder(r, s[1..])
    ensures InFirstSeenOrder(r, s)
    ensures InFirstSeenOrder([s[0]] + r, s)
  {
    forall y | y in r ensures FirstIndex(s, y) == 1 + FirstIndex(s[1..], y) {
    }
    var r' := [s[0]] + r;
    forall i, j | 0 <= i < j < |r'| ensures FirstIndex(s, r'[i]) < FirstIndex(s, r'[j]) {
      assert r'[j] == r[j - 1] && r[j - 1] in r;
      if i > 0 {
        assert r'[i] == r[i - 1] && r[i - 1] in r;
      }
    }
  }

  /** A sequence in first-seen order has no duplicates. */
  lemma FirstSeenOrderNoDup<T>(r: seq<T>, s: seq<T>)
    requires InFirstSeenOrder(r, s)
    ensures NoDup(r)
  {
  }

  /** `r` is `s` with some elements left out and the rest kept in order. */
  predicate IsSubsequence<T(==)>(r: seq<T>, s: seq<T>)
    decreases |s|
  {
    if |r| == 0 then true
    else if |s| == 0 then false
    else (r[0] == s[0] && IsSubsequence(r[1..], s[1..])) || IsSubsequence(r, s[1..])
  }

  /** Every element of a prefix is an element of the whole. */
  lemma PrefixMembers<T>(a: seq<T>, b: seq<T>)
    requires a <= b
    ensures forall x :: x in a ==> x in b
  {
    forall x | x in a ensures x in b {
      var i :| 0 <= i < |a| && a[i] == x;
      assert b[i] == x;
    }
  }
}
