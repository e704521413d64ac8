# Random reviewer assignment in policy-bot, modelled in Dafny

policy-bot evaluates an approval policy into a tree of results. When a pull
request still needs approvals, the package `reviewer` decides whom to ask
for a review. It does this in four parts:

- `findLeafChildren` collects the pending, error-free leaf rules. It only
  walks into children that are pending themselves.
- For every such leaf, `FindRandomRequesters` builds a pool of candidates.
  The pool holds the rule's explicit users and the members of one randomly
  chosen team and of one randomly chosen organisation. When the rule asks
  for admins or write collaborators, the pool also gets whatever the admin
  and write loops collect; as explained below, those loops do not collect
  the admins and writers themselves. Sets are built with `shoveIntoMap`,
  and the team is chosen by `selectTeamMembers`.
- The pool is filtered down to repository collaborators other than the
  pull request's author.
- `selectRandomUsers` samples the rule's required count from the filtered
  list without replacement. The samples of all leaves are concatenated.

The model is split into these modules:

| file | module | contents |
|---|---|---|
| `util.dfy` | `Util` | `Option`, element sets, duplicate-freedom, enumerations of a set |
| `common.dfy` | `Common` | the result tree, review-request rules, permission names |
| `pull.dfy` | `Pull` | the pull-request context as a snapshot of data |
| `rand.dfy` | `Rand` | the random source as a stream of draws |
| `tree_walker.dfy` | `TreeWalker` | `findLeafChildren` |
| `random_sampler.dfy` | `RandomSampler` | `selectRandomUsers` |
| `candidate_pool.dfy` | `CandidatePool` | `shoveIntoMap`, `selectTeamMembers`, the permission loops, the filter, the pool of one leaf |
| `reviewer.dfy` | `Reviewer` | `FindRandomRequesters` |

Modelling choices:

- **Random source.** The generator is a function from draw positions to raw
  values. `Intn` brings the value at a position into `[0, bound)`, and every
  draw moves one position on. Each method takes the start position and
  returns the position after its last draw. Any sequence of in-range draws
  comes from some source, so the lemmas cover every run of the generator.
- **Map iteration order.** The filter loop and the permission loops
  enumerate Go maps, whose order is unspecified. The methods take an
  arbitrary element on each iteration (`:|`). The specification functions
  take the order of the filtered list as a ghost argument, one per leaf.
  When that argument is not an enumeration of the eligible set, some other
  enumeration is used in its place. The lemmas therefore hold for every
  order.
- **Panics.** Two things panic: a team name without `/`, where the second
  segment of `strings.Split` does not exist, and a pick in
  `selectRandomUsers` that exceeds its retry bound. Both become explicit
  panic outcomes (`SplitPanic`, `Panicked`, `LeafPanic`, `Panic`).
- **Errors.** A failed collaborator listing returns `nil` with an error.
  This becomes the outcome `Failed`, which discards what earlier leaves
  selected. A failed team or organisation listing contributes no members.
- **The pull-request context.** It is plain data. A team or organisation
  missing from its map is one whose listing fails. An absent collaborator
  map is a failed collaborator listing. One snapshot answers every leaf.

The collaborator map is fetched for every pending leaf
(`reviewer/reviewer.go:121-124`), whether or not the rule asks for admins or
write collaborators. A failure there aborts the whole call, even for a rule
that only names users. The model does the same.

The admin and write-collaborator loops (`reviewer/reviewer.go:128-131` and
`138-141`) range over the map's *values*, the permission strings. They then
look a value up as if it were a login and append the value itself. The model
keeps this exactly as written (`PermissionValuesAt`). It proves that these
loops add only users who hold the permission (`PermissionValuesAreHolders`).
It also proves that they add only values of the map, and so miss every
holder whose login is not itself a value of the map
(`PermissionLoopMissesOtherHolders`). When no login is also a value of the
map, they add nobody (`PermissionLoopAddsNobodyWithoutOverlap`); the map
`alice: admin, bob: write` is one example (`PermissionLoopMissesAdmins`). The model claims nowhere that admins or
writers end up in the pool.

## Model

| member | source | states |
|---|---|---|
| Rand.Intn | reviewer/reviewer.go:65 | a draw `r.Intn(bound)` lies in `[0, bound)` |
| TreeWalker.LeafChildren | reviewer/reviewer.go:30-44 | every node returned has no children, is pending and has no error |
| TreeWalker.FindLeafChildren | reviewer/reviewer.go:30-44 | the recursive walk with its loop over children returns exactly `LeafChildren(result)`, the pending children's leaves concatenated in order |
| TreeWalker.LeafChildrenComplete | reviewer/reviewer.go:32-41 | `x` is returned iff it is a pending, error-free leaf reached from the root through pending children only; a childless root that fails the test gives nothing |
| TreeWalker.LeafChildrenFromComplete | reviewer/reviewer.go:37-41 | the children from index `i` on contribute exactly the pending leaves reachable through a pending child at an index `>= i` |
| TreeWalker.LeafChildrenFromIgnoresNonPending | reviewer/reviewer.go:37-39 | two nodes whose children differ only at indices where both children are non-pending give the same leaves |
| TreeWalker.NonPendingSubtreeIgnored | reviewer/reviewer.go:38-39 | replacing a non-pending child by any other non-pending subtree does not change the result: it is never descended into |
| TreeWalker.InnerNodeNotTested | reviewer/reviewer.go:32-41 | the status and error of a node with children are never looked at |
| RandomSampler.PickFresh | reviewer/reviewer.go:58-72 | a pick's index is below `len(users)` and not selected yet, and it uses at least one and at most `retryBound + 1 - j` draws |
| RandomSampler.PickFreshContract | reviewer/reviewer.go:59-72 | a pick accepts the first unselected draw, every earlier draw being already selected; it gives up iff all `retryBound + 1 - j` draws hit selected indices |
| RandomSampler.PickAll | reviewer/reviewer.go:57-73 | the picks produce `n` pairwise distinct indices, all in range, extending those already picked |
| RandomSampler.PickAllStep | reviewer/reviewer.go:66-69 | a successful pick appends a fresh index, keeps the indices distinct and in range, and picking continues after its last draw |
| RandomSampler.PickAllDraws | reviewer/reviewer.go:57-73 | `c` picks use between `c` and `c * (retryBound + 1)` draws, with the counter `j` reset for each pick |
| RandomSampler.GatherDistinctIsSubMultiset | reviewer/reviewer.go:66-68 | users taken at distinct indices take each occurrence in `users` at most once |
| RandomSampler.GatherDistinct | reviewer/reviewer.go:66-68 | users taken at distinct indices of a duplicate-free list are duplicate-free |
| RandomSampler.Select | reviewer/reviewer.go:47-75 | what `selectRandomUsers` returns: never more users than the list holds or than a positive `n` asks for, with the random position only moving forward; a panic only when `0 < n < len(users)` |
| RandomSampler.SelectContract | reviewer/reviewer.go:47-75 | the selection is empty for `n <= 0`, is `users` unchanged for `n >= len(users)`, and otherwise has exactly `n` elements using between `n` and `n * (5n + 1)` draws; a panic happens only when `0 < n < len(users)`; the result is a sub-multiset of `users`, and duplicate-free when `users` is |
| RandomSampler.PickOne | reviewer/reviewer.go:58-72 | the retry loop of one pick returns what `PickFresh` specifies, with the counter starting at 0 |
| RandomSampler.SelectRandomUsers | reviewer/reviewer.go:47-75 | the nested loops return exactly `Select(n, users, src, pos)`, or `Panicked` where the code panics |
| CandidatePool.ShoveIntoMap | reviewer/reviewer.go:77-81 | the new key set is the old one united with the elements of `u`; nothing is removed; adding elements already present changes nothing, so a repeated call is a no-op |
| CandidatePool.SplitTeamName | reviewer/reviewer.go:85-86 | splitting a team name fails, which panics in the code, iff the name has no `/` |
| CandidatePool.SplitTeamNameParts | reviewer/reviewer.go:85-86 | the two segments hold no `/`, and joined by `/` they are the whole name or are followed in it by another `/` |
| CandidatePool.SplitTeamNameJoin | reviewer/reviewer.go:85-86 | `org/team`, with or without a further `/tail`, splits back into `org` and `team` |
| CandidatePool.SelectTeamMembers | reviewer/reviewer.go:83-91 | one draw picks the team; the call panics iff the picked name has no `/`, and otherwise returns the listing of one of the rule's teams |
| CandidatePool.PermissionValuesAreHolders | reviewer/reviewer.go:128-131 | the permission loop adds only users who hold the permission |
| CandidatePool.PermissionValuesAt | reviewer/reviewer.go:127-132 | what the admin loop, and likewise the write loop at lines 137-142, collects: only values of the collaborator map |
| CandidatePool.PermissionLoopMissesOtherHolders | reviewer/reviewer.go:128-131 | for every map and level, a holder of the level whose login is not a value of the map is never collected |
| CandidatePool.PermissionLoopAddsNobodyWithoutOverlap | reviewer/reviewer.go:126-144 | for every non-empty level, a collaborator map in which no login is also a value yields nobody from the permission loops |
| CandidatePool.PermissionLoopMissesAdmins | reviewer/reviewer.go:126-144 | for the collaborator map `alice: admin, bob: write` the admin and write loops add nobody, although alice is an admin and bob a writer |
| CandidatePool.CollectByPermission | reviewer/reviewer.go:127-132 | the loop over the map, in whatever order it runs, collects exactly `PermissionValuesAt(perms, level)` |
| CandidatePool.Eligible | reviewer/reviewer.go:146-154 | the filtered candidates are drawn from the pool, are keys of the collaborator map, and never include the author |
| CandidatePool.FilterEligible | reviewer/reviewer.go:146-154 | the list is duplicate-free and holds `u` iff `u` is in the pool, is a key of the collaborator map and is not the author |
| CandidatePool.TeamStep | reviewer/reviewer.go:104-110 | without team references there is no draw, no listing call and no members; with them one draw is spent, and only then can the step panic |
| CandidatePool.TeamStepListsRuleTeam | reviewer/reviewer.go:104-110 | the members the team step adds are exactly the listing of one of the rule's teams, split into organisation and team name |
| CandidatePool.OrganizationStep | reviewer/reviewer.go:112-119 | without organisation references no members are added |
| CandidatePool.OrganizationStepListsARuleOrganization | reviewer/reviewer.go:112-119 | the members the organisation step adds are exactly the listing of one of the rule's organisations; a failed listing adds none |
| CandidatePool.PermissionStep | reviewer/reviewer.go:126-144 | the admin and write loops together add only values of the collaborator map, and nothing when the rule asks for neither |
| CandidatePool.AddPermissionHolders | reviewer/reviewer.go:126-144 | the admin loop runs only for `Admins` and the write loop only for `WriteCollaborators`; the pool grows by exactly what they collect |
| CandidatePool.BuildPool | reviewer/reviewer.go:101-144 | a built pool holds the rule's explicit users and comes with the collaborator map the context lists; building it spends at most two draws (what else enters the pool, and that nothing more does, is stated by `BuildPoolContract` and `PoolOnlyFromRuleSources`) |
| CandidatePool.PoolOnlyFromRuleSources | reviewer/reviewer.go:101-144 | every candidate in a built pool is an explicit user, a member of one of the rule's teams or organisations, or found by the permission loops the rule asks for |
| CandidatePool.BuildPoolContract | reviewer/reviewer.go:101-144 | the explicit users are always in the pool, and so are the members of the drawn team and of the drawn organisation and the loop results the rule asks for; one draw is spent per non-empty team list and per non-empty organisation list; the pool panics iff the drawn team name has no `/`; otherwise a failed collaborator listing is fatal |
| CandidatePool.TeamListingFailureAddsNothing | reviewer/reviewer.go:104-110 | a failed team listing does not abort; the pool equals the one built without teams, one draw later |
| CandidatePool.OrganizationListingFailureAddsNothing | reviewer/reviewer.go:112-119 | a failed organisation listing does not abort and adds no user; it only spends its draw |
| CandidatePool.ExplicitCollaboratorsStayEligible | reviewer/reviewer.go:101-154 | an explicitly named user who is a collaborator and not the author always survives the filter |
| Reviewer.LeafSelection | reviewer/reviewer.go:101-158 | every user chosen for a leaf is a collaborator other than the author, none twice; the leaf fails iff the collaborator listing fails and no panic comes first; a leaf gets at most its positive required count of users, and the random position only moves forward |
| Reviewer.LeafSelectionCount | reviewer/reviewer.go:146-157 | a leaf gets no users for a count `<= 0`, all eligible candidates when the count reaches their number, and otherwise exactly the count, all eligible |
| Reviewer.CollectCandidates | reviewer/reviewer.go:101-144 | the pool-building statements of the loop body compute exactly `BuildPool` |
| Reviewer.RequestForLeaf | reviewer/reviewer.go:101-158 | the loop body computes exactly `LeafSelection` for the order in which the map was enumerated; the users it picks are collaborators other than the author, none twice |
| Reviewer.Run | reviewer/reviewer.go:100-161 | the loop over the pending leaves as a specification (`RunSteps` with the per-leaf pipeline): each leaf's selection is appended in leaf order, and the first failing or panicking leaf decides the outcome; its contract says the random position only moves forward, and the lemmas below state the rest |
| Reviewer.RunRequestsAtMost | reviewer/reviewer.go:157-158 | a successful call requests no more users than the leaves' positive required counts add up to |
| Reviewer.StepsMoveForward | reviewer/reviewer.go:100-159 | when no leaf moves the random position back, the loop over the leaves does not either |
| Reviewer.RunUsesOwnOrders | reviewer/reviewer.go:147-154 | for any per-leaf step, the outcome depends only on the enumeration orders of the leaves actually processed |
| Reviewer.RunRequestsOnlyEligible | reviewer/reviewer.go:100-161 | every requested user is a repository collaborator other than the author |
| Reviewer.FailureIsFinal | reviewer/reviewer.go:121-124 | for any per-leaf step, once a prefix of the leaves fails or panics the whole call does too, and nothing earlier leaves selected is returned |
| Reviewer.RequestedExtendsPrefixes | reviewer/reviewer.go:157-161 | for any per-leaf step, a successful result begins with what every prefix of the leaves selected: later leaves only append, in leaf order |
| Reviewer.CollaboratorListingFailureIsFatal | reviewer/reviewer.go:121-124 | with a failing collaborator listing the call returns users iff there is no pending leaf |
| Reviewer.FindRandomRequesters | reviewer/reviewer.go:93-162 | the loop over the pending leaves returns exactly `Run` over `LeafChildren(result)`, and every requested user is a collaborator other than the author |

## Left out

- Logging through zerolog and the text of the wrapped errors: they only serve observability. An error is modelled as the outcome `Failed`.
- The network behind the team, organisation and collaborator listings and behind `Author`. These are given data, one snapshot for the whole call.
- `context.Context`: the code uses it only to obtain the logger (`reviewer/reviewer.go:94`).
- Rand.Intn: states only that a draw is in range. It does not model the distribution of `math/rand` or its seeding, which a verifier cannot check.
- Reviewer.LeafSelection: the order of the filtered list is an argument, because Go's map iteration order is unspecified. The lemmas hold for every order, and a position in the list is never relied on.
- Reviewer.RunRequestsOnlyEligible: does not claim the concatenated result is duplicate-free. Two leaves can request the same user, and the code does not remove such repeats.
- CandidatePool.OrganizationListingFailureAddsNothing: assumes a failing organisation listing returns no members along with its error. The listing code is not part of this model.
- The random position after a failure or a panic: the model drops it, since nothing uses the generator after the call aborts.
- Nil child pointers in the result tree are not modelled: children are values.
- CandidatePool.ShoveIntoMap: returns the new key set instead of updating the caller's map in place. No other reference to that map exists, so nothing is lost by this.
- The split of a team name takes only the first two segments. Whatever follows a second `/` is ignored, as in the code.
