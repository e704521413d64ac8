/**
 * Sampling reviewers without replacement (`selectRandomUsers`): draw indices
 * into the candidate list until `n` distinct ones are found, giving up (a
 * panic in the original) when one pick sees `5 * n + 1` draws in a row hit
 * indices already chosen.
 */
module RandomSampler {
  import opened Util
  import opened Rand

  /** Outcome of one pick: a fresh index and the position after it, or giving up. */
  datatype Pick = Fresh(index: nat, next: nat) | GaveUp

  /** Outcome of all picks: the chosen indices in order, or giving up. */
  datatype Sample = Picked(indices: seq<nat>, next: nat) | Exhausted

  /** What `selectRandomUsers` returns, or `Panicked` when it panics. */
  datatype Selection = Selected(users: seq<string>, next: nat) | Panicked

  /**
   * One pick: attempt `j` and the ones after it, up to attempt `retryBound`,
   * each drawing an index below `m` and accepting the first one not `taken`.
   */
  function PickFresh(src: Source, pos: nat, m: nat, taken: set<nat>, j: nat, retryBound: int): (r: Pick)
    requires m > 0
    decreases retryBound + 1 - j
    ensures r.Fresh? ==> r.index < m && r.index !in taken && pos < r.next <= pos + retryBound + 1 - j
  {
    if j > retryBound then GaveUp
    else
      var d := Intn(src, pos, m);
      if d !in taken then Fresh(d, pos + 1)
      else PickFresh(src, pos + 1, m, taken, j + 1, retryBound)
  }

  /**
   * A pick accepts the first draw that is not taken, every draw before it
   * being taken; it gives up exactly when all its draws are taken.
   */
  lemma {:induction false} PickFreshContract(src: Source, pos: nat, m: nat, taken: set<nat>, j: nat, retryBound: int)
    requires m > 0
    decreases retryBound + 1 - j
    ensures var r := PickFresh(src, pos, m, taken, j, retryBound);
      && (r.Fresh? ==> r.index == Intn(src, r.next - 1, m) && forall q :: pos <= q < r.next - 1 ==> Intn(src, q, m) in taken)
      && (r.GaveUp? <==> forall q :: pos <= q <= pos + retryBound - j ==> Intn(src, q, m) in taken)
  {
    if j <= retryBound && Intn(src, pos, m) in taken {
      PickFreshContract(src, pos + 1, m, taken, j + 1, retryBound);
    }
  }

  /**
   * Picks number `|picked|` up to `n - 1`, each with its own retry budget,
   * after the indices `picked` have been chosen.
   */
  function PickAll(src: Source, pos: nat, m: nat, n: int, picked: seq<nat>, retryBound: int): (r: Sample)
    requires n <= |picked| || m > 0
    requires NoDuplicates(picked)
    requires forall k :: 0 <= k < |picked| ==> picked[k] < m
    decreases n - |picked|
    ensures r.Picked? ==>
      && |r.indices| == (if n > |picked| then n else |picked|)
      && r.indices[..|picked|] == picked
      && NoDuplicates(r.indices)
      && (forall k :: 0 <= k < |r.indices| ==> r.indices[k] < m)
  {
    if |picked| >= n then Picked(picked, pos)
    else
      match PickFresh(src, pos, m, Elems(picked), 0, retryBound)
      case GaveUp => Exhausted
      case Fresh(d, next) =>
        var picked' := picked + [d];
        assert NoDuplicates(picked') by {
          assert d !in picked;
        }
        var r := PickAll(src, next, m, n, picked', retryBound);
        assert r.Picked? ==> r.indices[..|picked|] == r.indices[..|picked'|][..|picked|];
        r
  }

  /** One step of `PickAll`: a fresh index is appended and picking goes on after it. */
  lemma PickAllStep(src: Source, pos: nat, m: nat, n: int, picked: seq<nat>, retryBound: int)
    requires |picked| < n && m > 0
    requires NoDuplicates(picked)
    requires forall k :: 0 <= k < |picked| ==> picked[k] < m
    requires PickFresh(src, pos, m, Elems(picked), 0, retryBound).Fresh?
    ensures var p := PickFresh(src, pos, m, Elems(picked), 0, retryBound);
      && NoDuplicates(picked + [p.index])
      && (forall k :: 0 <= k < |picked| + 1 ==> (picked + [p.index])[k] < m)
      && PickAll(src, pos, m, n, picked, retryBound) == PickAll(src, p.next, m, n, picked + [p.index], retryBound)
  {
    var p := PickFresh(src, pos, m, Elems(picked), 0, retryBound);
    assert p.index !in picked;
  }

  /** Every pick takes at least one draw and at most `retryBound + 1`. */
  lemma {:induction false} PickAllDraws(src: Source, pos: nat, m: nat, n: int, picked: seq<nat>, retryBound: int)
    requires n <= |picked| || m > 0
    requires NoDuplicates(picked)
    requires forall k :: 0 <= k < |picked| ==> picked[k] < m
    ensures var r := PickAll(src, pos, m, n, picked, retryBound);
      r.Picked? ==> pos + (|r.indices| - |picked|) <= r.next <= pos + (|r.indices| - |picked|) * (retryBound + 1)
    decreases n - |picked|
  {
    if |picked| < n {
      match PickFresh(src, pos, m, Elems(picked), 0, retryBound)
      case GaveUp =>
      case Fresh(d, next) =>
        var picked' := picked + [d];
        assert NoDuplicates(picked') by {
          assert d !in picked;
        }
        PickAllDraws(src, next, m, n, picked', retryBound);
        var r := PickAll(src, next, m, n, picked', retryBound);
        if r.Picked? {
          DrawCountStep(pos, next, r.next, |r.indices| - |picked'|, retryBound + 1);
        }
    }
  }

  lemma DrawCountStep(pos: int, next: int, last: int, c: int, b: int)
    requires 0 <= c && pos < next <= pos + b
    requires next + c <= last <= next + c * b
    ensures pos + (c + 1) <= last <= pos + (c + 1) * b
  {
    assert (c + 1) * b == c * b + b;
  }

  /** The users at the given indices, in the order of the indices. */
  function Gather(users: seq<string>, indices: seq<nat>): (s: seq<string>)
    requires forall k :: 0 <= k < |indices| ==> indices[k] < |users|
  {
    seq(|indices|, k requires 0 <= k < |indices| => users[indices[k]])
  }

  lemma GatherSnoc(users: seq<string>, indices: seq<nat>, i: nat)
    requires forall k :: 0 <= k < |indices| ==> indices[k] < |users|
    requires i < |users|
    ensures forall k :: 0 <= k < |indices| + 1 ==> (indices + [i])[k] < |users|
    ensures Gather(users, indices + [i]) == Gather(users, indices) + [users[i]]
  {
  }

  /** Gathering at distinct indices takes each occurrence of a user at most once. */
  lemma {:induction false} GatherDistinctIsSubMultiset(users: seq<string>, indices: seq<nat>)
    requires NoDuplicates(indices)
    requires forall k :: 0 <= k < |indices| ==> indices[k] < |users|
    ensures multiset(Gather(users, indices)) <= multiset(users)
    decreases |indices|
  {
    if indices != [] {
      var i := indices[0];
      var rest := indices[1..];
      var without := users[..i] + users[i + 1..];
      var shifted := seq(|rest|, k requires 0 <= k < |rest| => if rest[k] < i then rest[k] else rest[k] - 1);
      forall k | 0 <= k < |rest|
        ensures rest[k] != i && shifted[k] < |without| && without[shifted[k]] == users[rest[k]]
      {
        assert rest[k] == indices[k + 1];
      }
      assert NoDuplicates(shifted) by {
        forall a, b | 0 <= a < b < |shifted| ensures shifted[a] != shifted[b] {
          assert rest[a] == indices[a + 1] && rest[b] == indices[b + 1];
        }
      }
      GatherDistinctIsSubMultiset(without, shifted);
      assert Gather(users, indices) == [users[i]] + Gather(without, shifted);
      assert users == users[..i] + [users[i]] + users[i + 1..];
      assert multiset(users) == multiset(without) + multiset{users[i]};
    }
  }

  /** Gathering distinct indices from a duplicate-free list gives a duplicate-free list. */
  lemma GatherDistinct(users: seq<string>, indices: seq<nat>)
    requires NoDuplicates(indices)
    requires forall k :: 0 <= k < |indices| ==> indices[k] < |users|
    ensures NoDuplicates(users) ==> NoDuplicates(Gather(users, indices))
  {
  }

  /**
   * The selection `selectRandomUsers(n, users, r)` makes when `r` is at
   * position `pos` of `src`: nothing for `n == 0` (and, since the loop then
   * never runs, for negative `n`), the whole list unchanged when `n` reaches
   * its length, otherwise `n` users at distinct indices drawn from `src`.
   */
  function Select(n: int, users: seq<string>, src: Source, pos: nat): (r: Selection)
    ensures r.Selected? ==> pos <= r.next && |r.users| <= |users| && |r.users| <= (if n > 0 then n else 0)
    ensures r.Panicked? ==> 0 < n < |users|
  {
    if n == 0 then Selected([], pos)
    else if n >= |users| then Selected(users, pos)
    else
      match PickAll(src, pos, |users|, n, [], 5 * n)
      case Exhausted => Panicked
      case Picked(indices, next) =>
        PickAllDraws(src, pos, |users|, n, [], 5 * n);
        Selected(Gather(users, indices), next)
  }

  /**
   * What a selection is: empty for a non-positive count, the list itself when
   * the count reaches its length, otherwise exactly `n` users, each drawn
   * with between one and `5 * n + 1` draws; a panic is possible only in that
   * last case. The users come from the list, no occurrence taken twice.
   */
  lemma SelectContract(n: int, users: seq<string>, src: Source, pos: nat)
    ensures var r := Select(n, users, src, pos);
      && (n <= 0 ==> r == Selected([], pos))
      && (0 < n && |users| <= n ==> r == Selected(users, pos))
      && (r.Panicked? ==> 0 < n < |users|)
      && (r.Selected? && 0 < n < |users| ==> |r.users| == n && pos + n <= r.next <= pos + n * (5 * n + 1))
      && (r.Selected? ==> multiset(r.users) <= multiset(users))
      && (r.Selected? && NoDuplicates(users) ==> NoDuplicates(r.users))
  {
    if 0 < n < |users| {
      match PickAll(src, pos, |users|, n, [], 5 * n)
      case Exhausted =>
      case Picked(indices, next) =>
        PickAllDraws(src, pos, |users|, n, [], 5 * n);
        GatherDistinctIsSubMultiset(users, indices);
        GatherDistinct(users, indices);
    }
  }

  /**
   * The retry loop of one pick in `selectRandomUsers`: draw until an index
   * not yet `selected` comes up, giving up once the retry counter passes
   * `retryBound`.
   */
  method PickOne(src: Source, pos: nat, m: nat, selected: set<nat>, retryBound: int) returns (p: Pick)
    requires m > 0
    ensures p == PickFresh(src, pos, m, selected, 0, retryBound)
  {
    var cur := pos;
    var j := 0;
    while true
      invariant 0 <= j && pos <= cur
      invariant PickFresh(src, cur, m, selected, j, retryBound) == PickFresh(src, pos, m, selected, 0, retryBound)
      decreases retryBound + 1 - j
    {
      if j > retryBound {
        return GaveUp;
      }
      var d := Intn(src, cur, m);
      cur := cur + 1;
      if d !in selected {
        return Fresh(d, cur);
      }
      j := j + 1;
    }
  }

  /**
   * `selectRandomUsers`: the map `selected` of used indices becomes a set,
   * the retry counter restarts at 0 for every pick.
   */
  method SelectRandomUsers(n: int, users: seq<string>, src: Source, pos: nat) returns (sel: Selection)
    ensures sel == Select(n, users, src, pos)
  {
    if n == 0 {
      return Selected([], pos);
    }
    if n >= |users| {
      return Selected(users, pos);
    }
    var selected: set<nat> := {};
    var selections: seq<string> := [];
    ghost var picked: seq<nat> := [];
    var cur := pos;
    var i := 0;
    while i < n
      invariant 0 <= i && |picked| == i && (i <= n || i == 0)
      invariant selected == Elems(picked)
      invariant NoDuplicates(picked) && forall k :: 0 <= k < |picked| ==> picked[k] < |users|
      invariant selections == Gather(users, picked)
      invariant PickAll(src, cur, |users|, n, picked, 5 * n) == PickAll(src, pos, |users|, n, [], 5 * n)
    {
      var p := PickOne(src, cur, |users|, selected, 5 * n);
      if p.GaveUp? {
        return Panicked;
      }
      var m := p.index;
      ghost var picked' := picked + [m];
      PickAllStep(src, cur, |users|, n, picked, 5 * n);
      GatherSnoc(users, picked, m);
      selected := selected + {m};
      selections := selections + [users[m]];
      picked := picked';
      cur := p.next;
      i := i + 1;
    }
    assert PickAll(src, cur, |users|, n, picked, 5 * n) == Picked(picked, cur);
    return Selected(selections, cur);
  }
}
