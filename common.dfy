/**
 * The policy-evaluation result tree that reviewer assignment reads (the
 * package `policy/common` of policy-bot). Only the fields the reviewer code
 * looks at are modelled.
 */
module Common {

  /** Evaluation status of a rule or of a combination of rules. */
  datatype Status = Skipped | Pending | Approved | Disapproved

  /**
   * Who to ask for a review when a leaf rule is still pending: explicit
   * logins, team references of the form "org/team-slug", organisation
   * names, whether repository admins and write collaborators are eligible,
   * and how many reviewers to request.
   */
  datatype ReviewRequestRule = ReviewRequestRule(
    users: seq<string>,
    teams: seq<string>,
    organizations: seq<string>,
    admins: bool,
    writeCollaborators: bool,
    requiredCount: int)

  /**
   * One node of the evaluation result tree. `hasError` stands for a non-nil
   * `Error`; `children` is empty for a leaf rule.
   */
  datatype Result = Result(
    status: Status,
    hasError: bool,
    children: seq<Result>,
    rule: ReviewRequestRule)

  /** Permission levels as the collaborator listing reports them. */
  const AdminPermission: string := "admin"
  const WritePermission: string := "write"
}
