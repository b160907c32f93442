/** The iterator adaptors the move search is built from, over sequences and a predicate. */
module Iterators {
  import opened Prelude

  /** `Iterator::find`: the first element satisfying `p`. */
  function Find<T>(s: seq<T>, p: T -> bool): (r: Option<T>)
    ensures r.Some? ==> r.value in s && p(r.value)
    ensures r.None? <==> forall i :: 0 <= i < |s| ==> !p(s[i])
  {
    if s == [] then None
    else if p(s[0]) then Some(s[0])
    else
      var r := Find(s[1..], p);
      assert forall i :: 1 <= i < |s| ==> s[i] == s[1..][i - 1];
      r
  }

  /** When `find` returns nothing, no element of the sequence satisfies `p`. */
  lemma FindNoneExcludes<T>(s: seq<T>, p: T -> bool, x: T)
    requires Find(s, p).None? && x in s
    ensures !p(x)
  {
    var i :| 0 <= i < |s| && s[i] == x;
  }

  /** The index of the element `find` returns, or `|s|` when it returns nothing. */
  function FindIndex<T>(s: seq<T>, p: T -> bool): (k: nat)
    ensures k <= |s|
    ensures forall j :: 0 <= j < k ==> !p(s[j])
    ensures k < |s| ==> p(s[k]) && Find(s, p) == Some(s[k])
    ensures k == |s| <==> Find(s, p).None?
  {
    if s == [] then 0
    else if p(s[0]) then 0
    else
      var k := FindIndex(s[1..], p);
      assert forall j :: 1 <= j < |s| ==> s[j] == s[1..][j - 1];
      k + 1
  }

  /** `Iterator::partition`: the elements satisfying `p` and the others, each in their order. */
  function Partition<T>(s: seq<T>, p: T -> bool): (r: (seq<T>, seq<T>))
    ensures forall i :: 0 <= i < |r.0| ==> p(r.0[i])
    ensures forall i :: 0 <= i < |r.1| ==> !p(r.1[i])
  {
    if s == [] then ([], [])
    else
      var rest := Partition(s[1..], p);
      if p(s[0]) then
        var yes := [s[0]] + rest.0;
        assert forall i :: 1 <= i < |yes| ==> yes[i] == rest.0[i - 1];
        (yes, rest.1)
      else
        var no := [s[0]] + rest.1;
        assert forall i :: 1 <= i < |no| ==> no[i] == rest.1[i - 1];
        (rest.0, no)
  }

  /** Together the two parts of `partition` hold exactly the input's elements. */
  lemma {:induction false} PartitionPermutes<T>(s: seq<T>, p: T -> bool)
    ensures multiset(Partition(s, p).0) + multiset(Partition(s, p).1) == multiset(s)
  {
    if s != [] {
      PartitionPermutes(s[1..], p);
      assert s == [s[0]] + s[1..];
    }
  }

  /** `find` gives the head of the first part of `partition`, and nothing when that part is empty. */
  lemma {:induction false} PartitionHeadIsFind<T>(s: seq<T>, p: T -> bool)
    ensures Find(s, p) == if Partition(s, p).0 == [] then None else Some(Partition(s, p).0[0])
  {
    if s != [] && !p(s[0]) {
      PartitionHeadIsFind(s[1..], p);
    }
  }

  /** Each part of `partition` keeps the relative order of the input: the first part is what a
      filter by `p` keeps, and the second what a filter by its negation keeps. */
  lemma {:induction false} PartitionIsFilter<T>(s: seq<T>, p: T -> bool)
    ensures Partition(s, p).0 == Filter(s, p)
    ensures Partition(s, p).1 == Filter(s, x => !p(x))
  {
    if s != [] {
      PartitionIsFilter(s[1..], p);
    }
  }

  /** `Iterator::filter`, collected. */
  function Filter<T>(s: seq<T>, p: T -> bool): (r: seq<T>)
    ensures |r| <= |s|
    ensures forall i :: 0 <= i < |r| ==> r[i] in s && p(r[i])
    ensures forall i :: 0 <= i < |s| && p(s[i]) ==> s[i] in r
  {
    if s == [] then []
    else
      var rest := Filter(s[1..], p);
      assert forall i :: 1 <= i < |s| ==> s[i] == s[1..][i - 1];
      if p(s[0]) then [s[0]] + rest else rest
  }
}
