/**
 * The endpoint selector: picks one element of a request's candidate list. The random
 * draw `random.nextInt(size)` is a parameter; it is made only when more than one
 * candidate remains.
 */
module Selector {
  import opened Wrappers

  /**
   * getLbEndpoint: null for an empty list, the only element of a singleton list, and
   * otherwise the element at the drawn index.
   */
  function LbEndpoint(list: seq<string>, nextInt: int): (r: Option<string>)
    requires |list| > 1 ==> 0 <= nextInt < |list|
    ensures r.None? <==> list == []
    ensures r.Some? ==> r.value in list
    ensures |list| == 1 ==> r == Some(list[0])
    ensures |list| > 1 ==> r == Some(list[nextInt])
  {
    var num := |list|;
    if num == 0 then None
    else Some(list[if num > 1 then nextInt else 0])
  }

  /** Selection has no bias built in: every candidate is the pick for some draw. */
  lemma EveryCandidateSelectable(list: seq<string>, i: nat)
    requires i < |list|
    ensures exists draw :: 0 <= draw < |list| && LbEndpoint(list, draw) == Some(list[i])
  {
    assert LbEndpoint(list, i) == Some(list[i]);
  }

  /** `list` has no repeated element (true of a snapshot of a map's key set). */
  predicate NoDup(list: seq<string>) {
    forall i, j :: 0 <= i < j < |list| ==> list[i] != list[j]
  }

  /** ArrayList.indexOf(Object) for a present element: the position of its first occurrence. */
  function FirstIndex(list: seq<string>, x: string): (i: nat)
    requires x in list
    ensures i < |list| && list[i] == x && x !in list[..i]
  {
    if list[0] == x then 0
    else
      var i := 1 + FirstIndex(list[1..], x);
      assert list[..i] == [list[0]] + list[1..][..i - 1];
      i
  }

  /**
   * ArrayList.remove(Object): finds the first occurrence of `x`, if any, and removes the
   * element at that position, keeping the other elements in their order.
   */
  function RemoveFirst(list: seq<string>, x: string): (r: seq<string>)
    ensures x in list ==> exists i :: 0 <= i < |list| && list[i] == x && x !in list[..i] && r == list[..i] + list[i + 1..]
    ensures x in list ==> |r| == |list| - 1
    ensures x !in list ==> r == list
    ensures multiset(r) == multiset(list) - multiset{x}
  {
    if x in list then
      var i := FirstIndex(list, x);
      assert list == list[..i] + [x] + list[i + 1..];
      list[..i] + list[i + 1..]
    else list
  }

  /** Removing an endpoint from a list without repetitions removes it entirely and keeps the rest. */
  lemma RemoveFirstNoDup(list: seq<string>, x: string)
    requires NoDup(list)
    ensures NoDup(RemoveFirst(list, x))
    ensures forall y :: y in RemoveFirst(list, x) <==> y in list && y != x
  {
    var r := RemoveFirst(list, x);
    forall y ensures y in r <==> y in list && y != x {
      assert y in r <==> y in multiset(r);
      assert y in list <==> y in multiset(list);
      if y in list && y == x {
        assert multiset(list)[x] == 1 by { NoDupCountsOnce(list, x); }
      }
    }
    forall i, j | 0 <= i < j < |r| ensures r[i] != r[j] {
      if r[i] == r[j] {
        NoDupCountsOnce(list, r[i]);
        TwiceInSeq(r, i, j);
      }
    }
  }

  lemma {:induction false} NoDupCountsOnce(list: seq<string>, x: string)
    requires NoDup(list)
    ensures multiset(list)[x] <= 1
  {
    if list != [] {
      assert list == [list[0]] + list[1..];
      assert NoDup(list[1..]);
      NoDupCountsOnce(list[1..], x);
      if list[0] == x {
        assert x !in list[1..];
      }
    }
  }

  lemma {:induction false} TwiceInSeq(list: seq<string>, i: nat, j: nat)
    requires i < j < |list| && list[i] == list[j]
    ensures multiset(list)[list[i]] >= 2
  {
    var x := list[i];
    assert list == list[..j] + [list[j]] + list[j + 1..];
    assert x in list[..j];
    assert multiset(list[..j])[x] >= 1;
  }
}
