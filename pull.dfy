/**
 * The pull-request context the reviewer code consults, as a snapshot of
 * plain data: the author, the member listings that succeed, and the
 * repository's collaborator permissions, or `None` when that listing fails.
 * A team or organisation absent from its map is one whose listing fails.
 */
module Pull {
  import opened Util

  datatype Listing = Listed(members: seq<string>) | ListFailed

  datatype Context = Context(
    author: string,
    teamMembers: map<(string, string), seq<string>>,
    organizationMembers: map<string, seq<string>>,
    collaborators: Option<map<string, string>>)

  function ListTeamMembers(ctx: Context, org: string, team: string): Listing
  {
    if (org, team) in ctx.teamMembers then Listed(ctx.teamMembers[(org, team)]) else ListFailed
  }

  function ListOrganizationMembers(ctx: Context, org: string): Listing
  {
    if org in ctx.organizationMembers then Listed(ctx.organizationMembers[org]) else ListFailed
  }

  /** The member slice a listing call hands back: nil when it failed. */
  function MembersOrNil(l: Listing): seq<string>
  {
    if l.Listed? then l.members else []
  }
}
