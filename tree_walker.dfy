/**
 * Collecting the pending leaf rules of an evaluation result tree
 * (`findLeafChildren`).
 */
module TreeWalker {
  import opened Common

  /** A rule with no children that is still pending and did not fail. */
  predicate IsPendingLeaf(r: Result)
  {
    |r.children| == 0 && r.status == Pending && !r.hasError
  }

  /**
   * The leaves `findLeafChildren` returns for `r`: `r` itself when it is a
   * pending, error-free leaf; for a node with children, the results of its
   * pending children, left to right.
   */
  function LeafChildren(r: Result): (leaves: seq<Result>)
    decreases r, 1
    ensures forall x :: x in leaves ==> IsPendingLeaf(x)
  {
    if |r.children| == 0 then
      (if r.status == Pending && !r.hasError then [r] else [])
    else
      LeafChildrenFrom(r, 0)
  }

  /** The leaves contributed by the children of `r` from index `i` on. */
  function LeafChildrenFrom(r: Result, i: nat): (leaves: seq<Result>)
    requires i <= |r.children|
    decreases r, 0, |r.children| - i
    ensures forall x :: x in leaves ==> IsPendingLeaf(x)
  {
    if i == |r.children| then []
    else
      (if r.children[i].status == Pending then LeafChildren(r.children[i]) else [])
      + LeafChildrenFrom(r, i + 1)
  }

  /** The walk itself: recursion on pending children, appending in order. */
  method FindLeafChildren(result: Result) returns (r: seq<Result>)
    ensures r == LeafChildren(result)
    decreases result
  {
    r := [];
    if |result.children| == 0 {
      if result.status == Pending && !result.hasError {
        return [result];
      }
    } else {
      var i := 0;
      while i < |result.children|
        invariant 0 <= i <= |result.children|
        invariant r + LeafChildrenFrom(result, i) == LeafChildrenFrom(result, 0)
      {
        var c := result.children[i];
        if c.status == Pending {
          var sub := FindLeafChildren(c);
          r := r + sub;
        }
        i := i + 1;
      }
    }
  }

  /**
   * `x` is `r`, or is reached from `r` by stepping only into children whose
   * own status is pending. The status of `r` itself is not looked at.
   */
  ghost predicate Reaches(r: Result, x: Result)
    decreases r
  {
    x == r || exists i :: 0 <= i < |r.children| && r.children[i].status == Pending && Reaches(r.children[i], x)
  }

  /**
   * The walk finds exactly the pending, error-free leaves reachable through
   * pending children: nothing below a non-pending child, and nothing missed.
   */
  lemma {:induction false} LeafChildrenComplete(r: Result, x: Result)
    ensures x in LeafChildren(r) <==> IsPendingLeaf(x) && Reaches(r, x)
    decreases r, 1
  {
    if |r.children| == 0 {
      assert Reaches(r, x) <==> x == r;
    } else {
      LeafChildrenFromComplete(r, 0, x);
      if x == r {
        assert !IsPendingLeaf(x);
      }
    }
  }

  lemma {:induction false} LeafChildrenFromComplete(r: Result, i: nat, x: Result)
    requires i <= |r.children|
    ensures x in LeafChildrenFrom(r, i) <==>
      IsPendingLeaf(x) && exists k :: i <= k < |r.children| && r.children[k].status == Pending && Reaches(r.children[k], x)
    decreases r, 0, |r.children| - i
  {
    if i < |r.children| {
      var c := r.children[i];
      LeafChildrenFromComplete(r, i + 1, x);
      if c.status == Pending {
        LeafChildrenComplete(c, x);
      }
    }
  }

  /**
   * Two nodes whose children agree, except where both have a non-pending
   * child, contribute the same leaves from index `i` on.
   */
  lemma {:induction false} LeafChildrenFromIgnoresNonPending(r: Result, r': Result, i: nat)
    requires |r.children| == |r'.children| && i <= |r.children|
    requires forall k :: i <= k < |r.children| ==>
      r.children[k] == r'.children[k] || (r.children[k].status != Pending && r'.children[k].status != Pending)
    ensures LeafChildrenFrom(r, i) == LeafChildrenFrom(r', i)
    decreases |r.children| - i
  {
    if i < |r.children| {
      LeafChildrenFromIgnoresNonPending(r, r', i + 1);
    }
  }

  /** The subtree under a non-pending child is never entered. */
  lemma NonPendingSubtreeIgnored(r: Result, i: nat, c: Result)
    requires i < |r.children|
    requires r.children[i].status != Pending && c.status != Pending
    ensures LeafChildren(r.(children := r.children[i := c])) == LeafChildren(r)
  {
    LeafChildrenFromIgnoresNonPending(r, r.(children := r.children[i := c]), 0);
  }

  /** A node with children is never tested itself: its status and error do not matter. */
  lemma InnerNodeNotTested(r: Result, status: Status, hasError: bool)
    requires |r.children| > 0
    ensures LeafChildren(r.(status := status, hasError := hasError)) == LeafChildren(r)
  {
    LeafChildrenFromIgnoresNonPending(r, r.(status := status, hasError := hasError), 0);
  }
}
