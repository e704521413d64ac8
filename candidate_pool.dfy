/**
 * Building one leaf's candidate pool: the set algebra of `shoveIntoMap`, the
 * random team choice of `selectTeamMembers`, the permission loops over the
 * collaborator map, and the filter that keeps collaborators other than the
 * author.
 */
module CandidatePool {
  import opened Util
  import opened Common
  import opened Pull
  import opened Rand

  /**
   * `shoveIntoMap`: adds every element of `u` to the key set `m` (a Go
   * `map[string]struct{}`). Nothing is removed, and adding elements that are
   * already there changes nothing, so a second call with the same `u` is a
   * no-op.
   */
  method ShoveIntoMap(m: set<string>, u: seq<string>) returns (m': set<string>)
    ensures m' == m + Elems(u)
    ensures m <= m'
    ensures Elems(u) <= m ==> m' == m
  {
    m' := m;
    for i := 0 to |u|
      invariant m' == m + Elems(u[..i])
    {
      assert Elems(u[..i + 1]) == Elems(u[..i]) + {u[i]} by {
        assert u[..i + 1] == u[..i] + [u[i]];
      }
      m' := m' + {u[i]};
    }
    assert u[..|u|] == u;
  }

  /** Position of the first `c` in `s`, or `|s|` when there is none. */
  function IndexOf(s: string, c: char): (i: nat)
    ensures i <= |s|
    ensures i < |s| ==> s[i] == c
    ensures forall k :: 0 <= k < i ==> s[k] != c
  {
    if s == [] || s[0] == c then 0 else 1 + IndexOf(s[1..], c)
  }

  /**
   * The first two segments of `strings.Split(name, "/")`, or `None` when the
   * name has no slash (the split then has one segment and indexing the
   * second one panics).
   */
  function SplitTeamName(name: string): (r: Option<(string, string)>)
    ensures r.None? <==> '/' !in name
  {
    var i := IndexOf(name, '/');
    if i == |name| then None
    else
      var rest := name[i + 1..];
      Some((name[..i], rest[..IndexOf(rest, '/')]))
  }

  /**
   * The two segments hold no slash and, joined by one, are the whole name or
   * a prefix of it followed by a further slash.
   */
  lemma SplitTeamNameParts(name: string)
    requires '/' in name
    ensures var (org, team) := SplitTeamName(name).value;
      && '/' !in org && '/' !in team
      && (name == org + "/" + team || org + "/" + team + "/" <= name)
  {
    var i := IndexOf(name, '/');
    var rest := name[i + 1..];
    SplitAt(name, i, rest, IndexOf(rest, '/'));
  }

  /** The facts behind `SplitTeamNameParts`, stated on the two slash positions. */
  lemma SplitAt(name: string, i: nat, rest: string, j: nat)
    requires i < |name| && name[i] == '/' && forall k :: 0 <= k < i ==> name[k] != '/'
    requires rest == name[i + 1..]
    requires j <= |rest| && (j < |rest| ==> rest[j] == '/')
    requires forall k :: 0 <= k < j ==> rest[k] != '/'
    ensures var org, team := name[..i], rest[..j];
      && '/' !in org && '/' !in team
      && (name == org + "/" + team || org + "/" + team + "/" <= name)
  {
    var org := name[..i];
    var team := rest[..j];
    PrefixHasNoSlash(name, i);
    PrefixHasNoSlash(rest, j);
    JoinAtSlash(name, i);
    if j < |rest| {
      JoinAtSlash(rest, j);
      assert name == (org + "/" + team + "/") + rest[j + 1..];
    }
  }

  lemma PrefixHasNoSlash(s: string, i: nat)
    requires i <= |s|
    requires forall k :: 0 <= k < i ==> s[k] != '/'
    ensures '/' !in s[..i]
  {
    forall k | 0 <= k < i ensures s[..i][k] != '/' {
      assert s[..i][k] == s[k];
    }
  }

  lemma JoinAtSlash(s: string, i: nat)
    requires i < |s| && s[i] == '/'
    ensures s == s[..i] + "/" + s[i + 1..]
  {
  }

  /** Joining an organisation and a team slug with a slash splits back into the two. */
  lemma SplitTeamNameJoin(org: string, team: string, tail: Option<string>)
    requires '/' !in org && '/' !in team
    ensures var name := if tail.Some? then org + "/" + team + "/" + tail.value else org + "/" + team;
      SplitTeamName(name) == Some((org, team))
  {
    var after := if tail.Some? then team + "/" + tail.value else team;
    assert org + "/" + after == if tail.Some? then org + "/" + team + "/" + tail.value else org + "/" + team;
    JoinedAtFirstSlash(org, after);
    if tail.Some? {
      JoinedAtFirstSlash(team, tail.value);
    } else {
      assert team[..IndexOf(team, '/')] == team;
    }
  }

  /** In `a + "/" + b` with no slash in `a`, the first slash is the joining one. */
  lemma {:induction false} JoinedAtFirstSlash(a: string, b: string)
    requires '/' !in a
    ensures var s := a + "/" + b;
      IndexOf(s, '/') == |a| && s[..|a|] == a && s[|a| + 1..] == b
    decreases |a|
  {
    var s := a + "/" + b;
    if a != [] {
      assert s[1..] == a[1..] + "/" + b;
      JoinedAtFirstSlash(a[1..], b);
    }
  }

  /** Outcome of `selectTeamMembers`: the listing with the position after its draw, or a panic. */
  datatype TeamPick = TeamPick(listing: Listing, next: nat) | SplitPanic

  /**
   * `selectTeamMembers`: one draw chooses one of the rule's teams; its name
   * is split at the slash and the team's members are listed. A failed
   * listing is reported, not fatal.
   */
  function SelectTeamMembers(ctx: Context, allTeams: seq<string>, src: Source, pos: nat): (r: TeamPick)
    requires |allTeams| > 0
    ensures r.SplitPanic? <==> '/' !in allTeams[Intn(src, pos, |allTeams|)]
    ensures r.TeamPick? ==>
      && r.next == pos + 1
      && exists i :: 0 <= i < |allTeams| && SplitTeamName(allTeams[i]).Some? &&
           r.listing == ListTeamMembers(ctx, SplitTeamName(allTeams[i]).value.0, SplitTeamName(allTeams[i]).value.1)
  {
    var randomTeam := allTeams[Intn(src, pos, |allTeams|)];
    match SplitTeamName(randomTeam)
    case None => SplitPanic
    case Some((org, team)) => TeamPick(ListTeamMembers(ctx, org, team), pos + 1)
  }

  /** Go's map index: the zero value for a missing key. */
  function Lookup(perms: map<string, string>, key: string): string
  {
    if key in perms then perms[key] else ""
  }

  /** The logins that hold permission `level`. */
  function HoldersOf(perms: map<string, string>, level: string): set<string>
  {
    set k | k in perms && perms[k] == level
  }

  /**
   * What the admin and write-collaborator loops add: they range over the
   * map's VALUES, keep a value `c` when the map indexed by `c` yields
   * `level`, and append `c` itself.
   */
  function PermissionValuesAt(perms: map<string, string>, level: string): (added: set<string>)
    ensures added <= perms.Values
  {
    set k | k in perms && Lookup(perms, perms[k]) == level :: perms[k]
  }

  /** The loops add only holders of the level, since what they add must be a key... */
  lemma PermissionValuesAreHolders(perms: map<string, string>, level: string)
    requires level != ""
    ensures PermissionValuesAt(perms, level) <= HoldersOf(perms, level)
  {
  }

  /** ...but they miss every holder whose login is not itself a value of the map. */
  lemma PermissionLoopMissesOtherHolders(perms: map<string, string>, level: string)
    ensures forall u :: u in HoldersOf(perms, level) && u !in perms.Values ==> u !in PermissionValuesAt(perms, level)
  {
  }

  /**
   * So when no login is also a value of the map (no user is named after a
   * permission), the loops add nobody at all.
   */
  lemma PermissionLoopAddsNobodyWithoutOverlap(perms: map<string, string>, level: string)
    requires level != "" && perms.Keys * perms.Values == {}
    ensures PermissionValuesAt(perms, level) == {}
  {
    PermissionValuesAreHolders(perms, level);
  }

  /**
   * For instance, with the usual logins (none of them a permission name)
   * the loops add nobody at all.
   */
  lemma PermissionLoopMissesAdmins()
    ensures var perms := map["alice" := AdminPermission, "bob" := WritePermission];
      && HoldersOf(perms, AdminPermission) == {"alice"}
      && PermissionValuesAt(perms, AdminPermission) == {}
      && HoldersOf(perms, WritePermission) == {"bob"}
      && PermissionValuesAt(perms, WritePermission) == {}
  {
    var perms := map["alice" := AdminPermission, "bob" := WritePermission];
    assert Lookup(perms, AdminPermission) == "" && Lookup(perms, WritePermission) == "";
  }

  /** What the permission loop has added after visiting the keys `seen`. */
  function PermissionValuesFrom(perms: map<string, string>, level: string, seen: set<string>): set<string>
  {
    set k | k in seen && k in perms && Lookup(perms, perms[k]) == level :: perms[k]
  }

  lemma PermissionValuesFromStep(perms: map<string, string>, level: string, seen: set<string>, k: string)
    requires k in perms
    ensures PermissionValuesFrom(perms, level, seen + {k}) ==
      PermissionValuesFrom(perms, level, seen) + (if Lookup(perms, perms[k]) == level then {perms[k]} else {})
  {
    var after := PermissionValuesFrom(perms, level, seen + {k});
    var before := PermissionValuesFrom(perms, level, seen);
    forall x | x in after
      ensures x in before || (x == perms[k] && Lookup(perms, perms[k]) == level)
    {
      var k' :| k' in seen + {k} && k' in perms && Lookup(perms, perms[k']) == level && perms[k'] == x;
      if k' != k {
        assert x in before;
      }
    }
  }

  /** The loop over the collaborator map that collects `repoAdmins` or `repoCollaborators`. */
  method CollectByPermission(perms: map<string, string>, level: string) returns (found: seq<string>)
    ensures Elems(found) == PermissionValuesAt(perms, level)
  {
    found := [];
    var rest := perms.Keys;
    while rest != {}
      invariant rest <= perms.Keys
      invariant Elems(found) == PermissionValuesFrom(perms, level, perms.Keys - rest)
      decreases rest
    {
      var k :| k in rest;
      var c := perms[k];
      PermissionValuesFromStep(perms, level, perms.Keys - rest, k);
      assert perms.Keys - (rest - {k}) == (perms.Keys - rest) + {k};
      if Lookup(perms, c) == level {
        found := found + [c];
      }
      rest := rest - {k};
    }
    assert PermissionValuesFrom(perms, level, perms.Keys) == PermissionValuesAt(perms, level);
  }

  /** The candidates a pool leaves after removing the author and every non-collaborator. */
  function Eligible(pool: set<string>, perms: map<string, string>, author: string): (eligible: set<string>)
    ensures eligible <= pool && eligible <= perms.Keys && author !in eligible
  {
    set u | u in pool && u in perms && u != author
  }

  /**
   * The filter loop over `allUsers`: lists, in an unspecified order, each
   * candidate that is a key of the collaborator map and is not the author,
   * once.
   */
  method FilterEligible(allUsers: set<string>, perms: map<string, string>, author: string) returns (list: seq<string>)
    ensures NoDuplicates(list)
    ensures forall u :: u in list <==> u in allUsers && u in perms && u != author
  {
    list := [];
    var rest := allUsers;
    while rest != {}
      invariant rest <= allUsers
      invariant NoDuplicates(list)
      invariant forall u :: u in list <==> u in allUsers && u !in rest && u in perms && u != author
      decreases rest
    {
      var u :| u in rest;
      if u != author && u in perms {
        list := list + [u];
      }
      rest := rest - {u};
    }
  }

  /** Outcome of building one leaf's pool. */
  datatype PoolStep =
    | Pool(users: set<string>, perms: map<string, string>, next: nat)
    | PoolPanic
    | CollaboratorsFailed

  /**
   * The team step: `selectTeamMembers` when the rule names teams, otherwise
   * no draw, no listing call and no members.
   */
  function TeamStep(ctx: Context, rule: ReviewRequestRule, src: Source, pos: nat): (r: TeamPick)
    ensures r.SplitPanic? ==> |rule.teams| > 0
    ensures |rule.teams| == 0 ==> r.TeamPick? && MembersOrNil(r.listing) == []
    ensures r.TeamPick? ==> r.next == pos + (if |rule.teams| > 0 then 1 else 0)
  {
    if |rule.teams| > 0 then SelectTeamMembers(ctx, rule.teams, src, pos) else TeamPick(Listed([]), pos)
  }

  /** The organisation step: one draw picks an organisation, whose members are listed (nil on failure). */
  function OrganizationStep(ctx: Context, rule: ReviewRequestRule, src: Source, pos: nat): (members: seq<string>)
    ensures |rule.organizations| == 0 ==> members == []
  {
    if |rule.organizations| > 0 then
      MembersOrNil(ListOrganizationMembers(ctx, rule.organizations[Intn(src, pos, |rule.organizations|)]))
    else []
  }

  /** The members the team step adds are the listing of one of the rule's teams. */
  lemma TeamStepListsRuleTeam(ctx: Context, rule: ReviewRequestRule, src: Source, pos: nat)
    ensures var r := TeamStep(ctx, rule, src, pos);
      r.TeamPick? && MembersOrNil(r.listing) != [] ==>
        exists i :: 0 <= i < |rule.teams| && SplitTeamName(rule.teams[i]).Some? &&
          SplitTeamName(rule.teams[i]).value in ctx.teamMembers &&
          MembersOrNil(r.listing) == ctx.teamMembers[SplitTeamName(rule.teams[i]).value]
  {
  }

  /** The members the organisation step adds are the listing of one of the rule's organisations. */
  lemma OrganizationStepListsARuleOrganization(ctx: Context, rule: ReviewRequestRule, src: Source, pos: nat)
    ensures var members := OrganizationStep(ctx, rule, src, pos);
      members != [] ==>
        exists i :: 0 <= i < |rule.organizations| && rule.organizations[i] in ctx.organizationMembers &&
          members == ctx.organizationMembers[rule.organizations[i]]
  {
  }

  /** What the admin and write-collaborator loops add for this rule. */
  function PermissionStep(perms: map<string, string>, rule: ReviewRequestRule): (added: set<string>)
    ensures added <= perms.Values
    ensures !rule.admins && !rule.writeCollaborators ==> added == {}
  {
    (if rule.admins then PermissionValuesAt(perms, AdminPermission) else {})
    + (if rule.writeCollaborators then PermissionValuesAt(perms, WritePermission) else {})
  }

  /** The admin and write-collaborator loops, each run only when the rule asks for it. */
  method AddPermissionHolders(allUsers: set<string>, perms: map<string, string>, rule: ReviewRequestRule)
    returns (pool: set<string>)
    ensures pool == allUsers + PermissionStep(perms, rule)
  {
    pool := allUsers;
    if rule.admins {
      var repoAdmins := CollectByPermission(perms, AdminPermission);
      pool := ShoveIntoMap(pool, repoAdmins);
    }
    ghost var withAdmins := pool;
    if rule.writeCollaborators {
      var repoCollaborators := CollectByPermission(perms, WritePermission);
      pool := ShoveIntoMap(pool, repoCollaborators);
    }
    assert pool == withAdmins + (if rule.writeCollaborators then PermissionValuesAt(perms, WritePermission) else {});
  }

  /**
   * The candidate pool of one pending leaf, before filtering: the explicit
   * users, the members of one randomly chosen team and of one randomly
   * chosen organisation (each skipped when its listing fails), then the
   * admin and write-collaborator loops. The collaborator listing is fetched
   * for every leaf, whether or not the rule asks for admins or writers, and
   * its failure is fatal.
   */
  function BuildPool(ctx: Context, rule: ReviewRequestRule, src: Source, pos: nat): (r: PoolStep)
    ensures r.Pool? ==> ctx.collaborators == Some(r.perms) && Elems(rule.users) <= r.users
    ensures r.Pool? ==> pos <= r.next <= pos + 2
  {
    match TeamStep(ctx, rule, src, pos)
    case SplitPanic => PoolPanic
    case TeamPick(teamListing, afterTeam) =>
      var orgMembers := OrganizationStep(ctx, rule, src, afterTeam);
      var afterOrg := if |rule.organizations| > 0 then afterTeam + 1 else afterTeam;
      match ctx.collaborators
      case None => CollaboratorsFailed
      case Some(perms) =>
        Pool(Elems(rule.users) + Elems(MembersOrNil(teamListing)) + Elems(orgMembers) + PermissionStep(perms, rule),
             perms, afterOrg)
  }

  /**
   * What a pool holds and when building it stops: the explicit users are
   * always in it, admins and writers as the loops find them when the rule
   * asks for them; one draw is spent per non-empty list of team or
   * organisation references; a team name without a slash panics, and
   * otherwise a failed collaborator listing is fatal.
   */
  lemma BuildPoolContract(ctx: Context, rule: ReviewRequestRule, src: Source, pos: nat)
    ensures var r := BuildPool(ctx, rule, src, pos);
      && (r.Pool? ==> Elems(rule.users) <= r.users && ctx.collaborators == Some(r.perms))
      && (r.Pool? ==>
            r.next == pos + (if |rule.teams| > 0 then 1 else 0) + (if |rule.organizations| > 0 then 1 else 0))
      && (r.Pool? ==> Elems(MembersOrNil(TeamStep(ctx, rule, src, pos).listing)) <= r.users)
      && (r.Pool? ==> Elems(OrganizationStep(ctx, rule, src, TeamStep(ctx, rule, src, pos).next)) <= r.users)
      && (r.Pool? && rule.admins ==> PermissionValuesAt(r.perms, AdminPermission) <= r.users)
      && (r.Pool? && rule.writeCollaborators ==> PermissionValuesAt(r.perms, WritePermission) <= r.users)
      && (r.PoolPanic? <==> |rule.teams| > 0 && '/' !in rule.teams[Intn(src, pos, |rule.teams|)])
      && (r.CollaboratorsFailed? <==> ctx.collaborators.None? && !r.PoolPanic?)
  {
  }

  /**
   * Nothing else enters the pool: every candidate is an explicit user, a
   * member of one of the rule's teams or organisations, or found by the
   * permission loops.
   */
  lemma PoolOnlyFromRuleSources(ctx: Context, rule: ReviewRequestRule, src: Source, pos: nat, u: string)
    ensures var r := BuildPool(ctx, rule, src, pos);
      r.Pool? && u in r.users ==>
        || u in rule.users
        || (exists i :: 0 <= i < |rule.teams| && SplitTeamName(rule.teams[i]).Some? &&
              SplitTeamName(rule.teams[i]).value in ctx.teamMembers &&
              u in ctx.teamMembers[SplitTeamName(rule.teams[i]).value])
        || (exists i :: 0 <= i < |rule.organizations| && rule.organizations[i] in ctx.organizationMembers &&
              u in ctx.organizationMembers[rule.organizations[i]])
        || u in PermissionStep(r.perms, rule)
  {
    var team := TeamStep(ctx, rule, src, pos);
    TeamStepListsRuleTeam(ctx, rule, src, pos);
    if team.TeamPick? {
      OrganizationStepListsARuleOrganization(ctx, rule, src, team.next);
    }
  }

  /**
   * A team whose listing fails adds nothing and does not abort: the pool is
   * the one built without team references, one draw later.
   */
  lemma TeamListingFailureAddsNothing(ctx: Context, rule: ReviewRequestRule, src: Source, pos: nat)
    requires |rule.teams| > 0
    requires SelectTeamMembers(ctx, rule.teams, src, pos) == TeamPick(ListFailed, pos + 1)
    ensures BuildPool(ctx, rule, src, pos) == BuildPool(ctx, rule.(teams := []), src, pos + 1)
  {
  }

  /**
   * An organisation whose listing fails adds nothing and does not abort:
   * the pool has the same users as the one built without organisation
   * references.
   */
  lemma OrganizationListingFailureAddsNothing(ctx: Context, rule: ReviewRequestRule, src: Source, pos: nat)
    requires |rule.organizations| > 0
    requires var afterTeam := if |rule.teams| > 0 then pos + 1 else pos;
      rule.organizations[Intn(src, afterTeam, |rule.organizations|)] !in ctx.organizationMembers
    ensures var with := BuildPool(ctx, rule, src, pos);
      var without := BuildPool(ctx, rule.(organizations := []), src, pos);
      && with.Pool? == without.Pool? && with.PoolPanic? == without.PoolPanic?
      && (with.Pool? ==> with.users == without.users && with.next == without.next + 1)
  {
  }

  /** Every explicitly named user who is a collaborator and not the author stays eligible. */
  lemma ExplicitCollaboratorsStayEligible(ctx: Context, rule: ReviewRequestRule, src: Source, pos: nat, u: string)
    requires BuildPool(ctx, rule, src, pos).Pool?
    requires u in rule.users && u in ctx.collaborators.value && u != ctx.author
    ensures var p := BuildPool(ctx, rule, src, pos); u in Eligible(p.users, p.perms, ctx.author)
  {
  }
}
