/** What an action returns, who calls it, and the role gate of `[Authorize(Roles = ...)]`. */
module Http {
  import opened Entities

  /**
   * The status results the controllers produce. `Fault` stands for an
   * exception escaping the action (HTTP 500).
   */
  datatype ActionResult<+T> =
    | Ok(value: T)
    | Created(value: T)
    | NoContent
    | NotFound
    | Forbid
    | BadRequest(message: string)
    | Unauthorized
    | Fault(message: string)

  /**
   * The caller. An authenticated caller has the NameIdentifier claim and the
   * Role claims of its token; an anonymous one has neither.
   */
  datatype Principal = Anonymous | Authenticated(userId: UserId, roles: set<string>)

  /** `User.IsInRole(role)`. */
  predicate IsInRole(p: Principal, role: string) {
    p.Authenticated? && role in p.roles
  }

  /** `[Authorize(Roles = "A,B")]` admits an authenticated caller that holds at least one of the roles. */
  predicate Authorize(p: Principal, allowed: set<string>) {
    p.Authenticated? && p.roles * allowed != {}
  }

  /** What the role gate answers when it does not admit the caller: 401 when anonymous, 403 otherwise. */
  function Denied<T>(p: Principal): (r: ActionResult<T>)
    ensures r.Unauthorized? <==> p.Anonymous?
    ensures r.Forbid? <==> p.Authenticated?
  {
    if p.Anonymous? then Unauthorized else Forbid
  }
}
