/**
 * `FindRandomRequesters`: for each pending leaf of the result tree, build
 * the candidate pool, keep the eligible candidates, sample the rule's
 * required count from them, and concatenate the samples in leaf order. A
 * failed collaborator listing makes the whole call fail, discarding what
 * earlier leaves selected.
 *
 * The filter enumerates a Go map, whose order is unspecified. The
 * specification functions therefore take that order as an argument,
 * `orders[k]` for leaf `k`; an argument that is not an enumeration of the
 * eligible set is replaced by some enumeration, so every lemma below holds
 * for every order the map may produce.
 */
module Reviewer {
  import opened Util
  import opened Common
  import opened Pull
  import opened Rand
  import opened TreeWalker
  import opened RandomSampler
  import opened CandidatePool

  /** Outcome of the pipeline for one leaf. */
  datatype LeafStep = Chosen(users: seq<string>, next: nat) | LeafFailed | LeafPanic

  /** What `FindRandomRequesters` returns: the users, an error (`nil, err`), or a panic. */
  datatype Requesters = Requested(users: seq<string>, next: nat) | Failed | Panic

  /** The enumeration of the eligible set the sampler is given. */
  ghost function CandidateList(eligible: set<string>, order: seq<string>): (list: seq<string>)
    ensures IsEnumeration(list, eligible)
  {
    if IsEnumeration(order, eligible) then order else SomeEnumeration(eligible)
  }

  /**
   * One leaf: the pool, the filter, then `selectRandomUsers` with the rule's
   * required count, starting at position `pos` of the random source. Every
   * selected user is a collaborator other than the author, and none is
   * selected twice.
   */
  ghost function LeafSelection(ctx: Context, rule: ReviewRequestRule, src: Source, pos: nat, order: seq<string>): (r: LeafStep)
    ensures r.Chosen? ==>
      forall u :: u in r.users ==> ctx.collaborators.Some? && u in ctx.collaborators.value && u != ctx.author
    ensures r.Chosen? ==> NoDuplicates(r.users)
    ensures r.LeafFailed? <==> BuildPool(ctx, rule, src, pos).CollaboratorsFailed?
    ensures r.Chosen? ==> pos <= r.next && |r.users| <= RequestedAtMost(rule)
  {
    BuildPoolContract(ctx, rule, src, pos);
    match BuildPool(ctx, rule, src, pos)
    case PoolPanic => LeafPanic
    case CollaboratorsFailed => LeafFailed
    case Pool(users, perms, next) =>
      var eligible := Eligible(users, perms, ctx.author);
      var list := CandidateList(eligible, order);
      SelectContract(rule.requiredCount, list, src, next);
      match Select(rule.requiredCount, list, src, next)
      case Panicked => LeafPanic
      case Selected(picked, after) =>
        assert ctx.collaborators == Some(perms);
        assert forall u :: u in picked ==> u in multiset(list) && u in list && u in eligible;
        Chosen(picked, after)
  }

  /**
   * How many users a leaf gets: none for a non-positive count, all eligible
   * candidates when the count reaches their number, otherwise exactly the
   * count, each one eligible.
   */
  lemma LeafSelectionCount(ctx: Context, rule: ReviewRequestRule, src: Source, pos: nat, order: seq<string>)
    requires BuildPool(ctx, rule, src, pos).Pool?
    ensures var p := BuildPool(ctx, rule, src, pos);
      var eligible := Eligible(p.users, p.perms, ctx.author);
      var r := LeafSelection(ctx, rule, src, pos, order);
      var n := rule.requiredCount;
      && (n <= 0 ==> r == Chosen([], p.next))
      && (0 < n && |eligible| <= n ==> r.Chosen? && Elems(r.users) == eligible && |r.users| == |eligible|)
      && (0 < n < |eligible| ==> r.Chosen? ==> |r.users| == n && Elems(r.users) <= eligible)
  {
    var p := BuildPool(ctx, rule, src, pos);
    var eligible := Eligible(p.users, p.perms, ctx.author);
    var list := CandidateList(eligible, order);
    DistinctCardinality(list);
    SelectContract(rule.requiredCount, list, src, p.next);
    var r := LeafSelection(ctx, rule, src, pos, order);
    if r.Chosen? {
      assert forall u :: u in r.users ==> u in multiset(list);
    }
  }

  /**
   * The pool-building part of the per-leaf loop body of
   * `FindRandomRequesters`: explicit users, one team, one organisation, the
   * collaborator listing, then the admin and write-collaborator loops.
   */
  method CollectCandidates(ctx: Context, rule: ReviewRequestRule, src: Source, pos: nat) returns (step: PoolStep)
    ensures step == BuildPool(ctx, rule, src, pos)
  {
    var allUsers := ShoveIntoMap({}, rule.users);
    var cur := pos;
    ghost var teamListing := Listed([]);
    if |rule.teams| > 0 {
      var pick := SelectTeamMembers(ctx, rule.teams, src, cur);
      if pick.SplitPanic? {
        return PoolPanic;
      }
      teamListing := pick.listing;
      allUsers := ShoveIntoMap(allUsers, MembersOrNil(pick.listing));
      cur := pick.next;
    }
    assert TeamStep(ctx, rule, src, pos) == TeamPick(teamListing, cur);
    ghost var afterTeam := cur;
    ghost var withTeam := allUsers;
    assert withTeam == Elems(rule.users) + Elems(MembersOrNil(teamListing));
    if |rule.organizations| > 0 {
      var randomOrg := rule.organizations[Intn(src, cur, |rule.organizations|)];
      var orgMembers := ListOrganizationMembers(ctx, randomOrg);
      allUsers := ShoveIntoMap(allUsers, MembersOrNil(orgMembers));
      cur := cur + 1;
    }
    ghost var withOrg := allUsers;
    assert withOrg == withTeam + Elems(OrganizationStep(ctx, rule, src, afterTeam));
    if ctx.collaborators.None? {
      return CollaboratorsFailed;
    }
    var perms := ctx.collaborators.value;
    allUsers := AddPermissionHolders(allUsers, perms, rule);
    return Pool(allUsers, perms, cur);
  }

  /**
   * The per-leaf loop body of `FindRandomRequesters`: the pool, the filter
   * loop, and `selectRandomUsers`.
   */
  method RequestForLeaf(ctx: Context, rule: ReviewRequestRule, src: Source, pos: nat)
    returns (step: LeafStep, ghost order: seq<string>)
    ensures step == LeafSelection(ctx, rule, src, pos, order)
    ensures step.Chosen? ==> NoDuplicates(step.users)
    ensures step.Chosen? ==>
      forall u :: u in step.users ==> ctx.collaborators.Some? && u in ctx.collaborators.value && u != ctx.author
  {
    order := [];
    var pool := CollectCandidates(ctx, rule, src, pos);
    match pool
    case PoolPanic =>
      return LeafPanic, order;
    case CollaboratorsFailed =>
      return LeafFailed, order;
    case Pool(allUsers, perms, cur) =>
      var allUserList := FilterEligible(allUsers, perms, ctx.author);
      assert Elems(allUserList) == Eligible(allUsers, perms, ctx.author);
      order := allUserList;
      var randomSelection := SelectRandomUsers(rule.requiredCount, allUserList, src, cur);
      match randomSelection
      case Panicked =>
        step := LeafPanic;
      case Selected(picked, after) =>
        step := Chosen(picked, after);
  }

  /** The most users a rule can be given: its required count, or none when that is not positive. */
  function RequestedAtMost(rule: ReviewRequestRule): nat
  {
    if rule.requiredCount > 0 then rule.requiredCount else 0
  }

  /** The most users the given leaves can be given together. */
  function RequestedTotal(leaves: seq<Result>): nat
  {
    if leaves == [] then 0 else RequestedTotal(leaves[..|leaves| - 1]) + RequestedAtMost(leaves[|leaves| - 1].rule)
  }

  /** The order argument for leaf `k`. */
  function OrderAt(orders: seq<seq<string>>, k: nat): seq<string>
  {
    if k < |orders| then orders[k] else []
  }

  /** The per-leaf pipeline as a function of the rule, the random position and the enumeration order. */
  type Stepper = (ReviewRequestRule, nat, seq<string>) -> LeafStep

  /**
   * The loop of `FindRandomRequesters` over the given pending leaves, for
   * any per-leaf `step`, starting at position `pos` of the random source:
   * the leaves are processed in order and their selections concatenated;
   * the first leaf that fails or panics decides the outcome, and nothing
   * selected before it is returned.
   */
  ghost function RunSteps(step: Stepper, leaves: seq<Result>, pos: nat, orders: seq<seq<string>>): Requesters
    decreases |leaves|
  {
    if leaves == [] then Requested([], pos)
    else
      var last := |leaves| - 1;
      match RunSteps(step, leaves[..last], pos, orders)
      case Failed => Failed
      case Panic => Panic
      case Requested(users, next) =>
        match step(leaves[last].rule, next, OrderAt(orders, last))
        case LeafFailed => Failed
        case LeafPanic => Panic
        case Chosen(picked, after) => Requested(users + picked, after)
  }

  /** The pipeline of one leaf, for the given context and random source. */
  ghost function LeafStepper(ctx: Context, src: Source): Stepper
  {
    (rule: ReviewRequestRule, p: nat, order: seq<string>) => LeafSelection(ctx, rule, src, p, order)
  }

  /** `FindRandomRequesters` over the given pending leaves. */
  ghost function Run(ctx: Context, leaves: seq<Result>, src: Source, pos: nat, orders: seq<seq<string>>): (r: Requesters)
    ensures r.Requested? ==> pos <= r.next
  {
    StepsMoveForward(LeafStepper(ctx, src), leaves, pos, orders);
    RunSteps(LeafStepper(ctx, src), leaves, pos, orders)
  }

  /** When no leaf moves the random position back, neither does the loop. */
  lemma {:induction false} StepsMoveForward(step: Stepper, leaves: seq<Result>, pos: nat, orders: seq<seq<string>>)
    requires forall rule, p: nat, order :: step(rule, p, order).Chosen? ==> p <= step(rule, p, order).next
    ensures var r := RunSteps(step, leaves, pos, orders); r.Requested? ==> pos <= r.next
    decreases |leaves|
  {
    if leaves != [] {
      StepsMoveForward(step, leaves[..|leaves| - 1], pos, orders);
    }
  }

  /** Only the orders of the leaves processed matter. */
  lemma {:induction false} RunUsesOwnOrders(step: Stepper, leaves: seq<Result>, pos: nat, o1: seq<seq<string>>, o2: seq<seq<string>>)
    requires forall k :: 0 <= k < |leaves| ==> OrderAt(o1, k) == OrderAt(o2, k)
    ensures RunSteps(step, leaves, pos, o1) == RunSteps(step, leaves, pos, o2)
    decreases |leaves|
  {
    if leaves != [] {
      RunUsesOwnOrders(step, leaves[..|leaves| - 1], pos, o1, o2);
    }
  }

  /** No more users are requested than the leaves' required counts add up to. */
  lemma {:induction false} RunRequestsAtMost(ctx: Context, leaves: seq<Result>, src: Source, pos: nat, orders: seq<seq<string>>)
    ensures var r := Run(ctx, leaves, src, pos, orders);
      r.Requested? ==> |r.users| <= RequestedTotal(leaves)
    decreases |leaves|
  {
    if leaves != [] {
      RunRequestsAtMost(ctx, leaves[..|leaves| - 1], src, pos, orders);
    }
  }

  /** Every requested user is a repository collaborator and not the author. */
  lemma {:induction false} RunRequestsOnlyEligible(ctx: Context, leaves: seq<Result>, src: Source, pos: nat, orders: seq<seq<string>>)
    ensures var r := Run(ctx, leaves, src, pos, orders);
      r.Requested? ==>
        forall u :: u in r.users ==> ctx.collaborators.Some? && u in ctx.collaborators.value && u != ctx.author
    decreases |leaves|
  {
    if leaves != [] {
      RunRequestsOnlyEligible(ctx, leaves[..|leaves| - 1], src, pos, orders);
    }
  }

  /**
   * Once a prefix of the leaves fails or panics, so does the whole loop,
   * with nothing returned.
   */
  lemma {:induction false} FailureIsFinal(step: Stepper, leaves: seq<Result>, k: nat, pos: nat, orders: seq<seq<string>>)
    requires k <= |leaves|
    requires !RunSteps(step, leaves[..k], pos, orders).Requested?
    ensures RunSteps(step, leaves, pos, orders) == RunSteps(step, leaves[..k], pos, orders)
    decreases |leaves|
  {
    if k < |leaves| {
      var last := |leaves| - 1;
      assert leaves[..last][..k] == leaves[..k];
      FailureIsFinal(step, leaves[..last], k, pos, orders);
    } else {
      assert leaves[..k] == leaves;
    }
  }

  /**
   * A successful loop's users start with what every prefix of the leaves
   * selected: later leaves only append.
   */
  lemma {:induction false} RequestedExtendsPrefixes(step: Stepper, leaves: seq<Result>, k: nat, pos: nat, orders: seq<seq<string>>)
    requires k <= |leaves|
    requires RunSteps(step, leaves, pos, orders).Requested?
    ensures var prefix := RunSteps(step, leaves[..k], pos, orders);
      prefix.Requested? && prefix.users <= RunSteps(step, leaves, pos, orders).users
    decreases |leaves|
  {
    if k < |leaves| {
      var last := |leaves| - 1;
      assert leaves[..last][..k] == leaves[..k];
      RequestedExtendsPrefixes(step, leaves[..last], k, pos, orders);
    } else {
      assert leaves[..k] == leaves;
    }
  }

  /**
   * A failed collaborator listing is fatal: the run returns users only when
   * there is no pending leaf at all.
   */
  lemma {:induction false} CollaboratorListingFailureIsFatal(ctx: Context, leaves: seq<Result>, src: Source, pos: nat, orders: seq<seq<string>>)
    requires ctx.collaborators.None?
    ensures Run(ctx, leaves, src, pos, orders).Requested? <==> leaves == []
    decreases |leaves|
  {
    if leaves != [] {
      var last := |leaves| - 1;
      CollaboratorListingFailureIsFatal(ctx, leaves[..last], src, pos, orders);
      var prefix := Run(ctx, leaves[..last], src, pos, orders);
      if prefix.Requested? {
        assert BuildPool(ctx, leaves[last].rule, src, prefix.next).Pool? == false;
      }
    }
  }

  /**
   * `FindRandomRequesters`: collects the pending leaves, then runs the
   * per-leaf pipeline on each in order, returning early on a fatal error.
   */
  method FindRandomRequesters(ctx: Context, result: Result, src: Source, pos: nat)
    returns (out: Requesters, ghost orders: seq<seq<string>>)
    ensures out == Run(ctx, LeafChildren(result), src, pos, orders)
    ensures out.Requested? ==>
      forall u :: u in out.users ==> ctx.collaborators.Some? && u in ctx.collaborators.value && u != ctx.author
  {
    var pendingLeafNodes := FindLeafChildren(result);
    var requestedUsers: seq<string> := [];
    var cur := pos;
    orders := [];
    for i := 0 to |pendingLeafNodes|
      invariant |orders| == i
      invariant Run(ctx, pendingLeafNodes[..i], src, pos, orders) == Requested(requestedUsers, cur)
    {
      var step, order := RequestForLeaf(ctx, pendingLeafNodes[i].rule, src, cur);
      RunUsesOwnOrders(LeafStepper(ctx, src), pendingLeafNodes[..i], pos, orders, orders + [order]);
      orders := orders + [order];
      assert pendingLeafNodes[..i + 1][..i] == pendingLeafNodes[..i];
      match step
      case LeafFailed =>
        FailureIsFinal(LeafStepper(ctx, src), pendingLeafNodes, i + 1, pos, orders);
        return Failed, orders;
      case LeafPanic =>
        FailureIsFinal(LeafStepper(ctx, src), pendingLeafNodes, i + 1, pos, orders);
        return Panic, orders;
      case Chosen(randomSelection, after) =>
        requestedUsers := requestedUsers + randomSelection;
        cur := after;
    }
    assert pendingLeafNodes[..|pendingLeafNodes|] == pendingLeafNodes;
    out := Requested(requestedUsers, cur);
    RunRequestsOnlyEligible(ctx, pendingLeafNodes, src, pos, orders);
  }
}
