/**
 * `UsersController`: user provisioning by administrators and clients, the
 * role-filtered user list, and user deletion.
 */
module UsersController {
  import opened Wrappers
  import opened Entities
  import opened Contracts
  import opened Http
  import opened Identity

  /** What `CreateUser` decides before it touches the user store: an answer, or the user to create. */
  datatype Plan = Refuse(result: ActionResult<UserDto>) | Proceed(user: ApplicationUser)

  /**
   * `Forbid("Clients can only create evaluators.")` as written: the
   * argument of `ControllerBase.Forbid` names authentication schemes, no
   * handler is registered under this one, and executing the result throws
   * an InvalidOperationException.
   */
  function ClientRefusalAsWritten(): ActionResult<UserDto> {
    Fault("InvalidOperationException")
  }

  /** The refusal the comment above the check means: 403. */
  function ClientRefusal(): ActionResult<UserDto> {
    Forbid
  }

  /**
   * The decision of `CreateUser`, with `refusal` as the answer to a client
   * asking for a role other than evaluator. `roleExists` is the role
   * manager's answer for the requested role and `current` the caller's user.
   */
  function PlanWith(refusal: ActionResult<UserDto>, p: Principal, roleExists: bool, current: Option<ApplicationUser>,
                    dto: UserCreateDto, id: UserId): (r: Plan)
  {
    if !Authorize(p, {Admin, Client}) then Refuse(Denied(p))
    else if !roleExists then Refuse(BadRequest("Role " + dto.role + " not valid."))
    else if IsInRole(p, Client) && dto.role != Evaluator then Refuse(refusal)
    else
      var user := ApplicationUser(id, dto.email, dto.email, true, None, "");
      if IsInRole(p, Client) then
        if current.None? then Refuse(Fault("NullReferenceException"))
        else Proceed(user.(companyId := current.value.companyId))
      else Proceed(user)
  }

  /** `CreateUser`'s guards as the source has them. */
  function CreateUserPlanAsWritten(p: Principal, roleExists: bool, current: Option<ApplicationUser>,
                                   dto: UserCreateDto, id: UserId): Plan
  {
    PlanWith(ClientRefusalAsWritten(), p, roleExists, current, dto, id)
  }

  /**
   * `CreateUser`'s guards, in order: the role gate; an unknown role is
   * BadRequest; a client may ask only for the evaluator role (this holds
   * even for a caller that is also an administrator); a client's new user
   * joins the client's company, an administrator's joins none. The new
   * user's user name and email are the requested email, already confirmed.
   */
  function CreateUserPlan(p: Principal, roleExists: bool, current: Option<ApplicationUser>,
                          dto: UserCreateDto, id: UserId): (r: Plan)
    ensures !Authorize(p, {Admin, Client}) ==> r == Refuse(Denied(p))
    ensures Authorize(p, {Admin, Client}) && !roleExists ==> r == Refuse(BadRequest("Role " + dto.role + " not valid."))
    ensures Authorize(p, {Admin, Client}) && roleExists && IsInRole(p, Client) && dto.role != Evaluator ==>
      r == Refuse(Forbid)
    ensures Authorize(p, {Admin, Client}) && roleExists && IsInRole(p, Client) && dto.role == Evaluator ==>
      (r.Proceed? <==> current.Some?) && (r.Refuse? ==> r.result.Fault?)
    ensures Authorize(p, {Admin, Client}) && roleExists && !IsInRole(p, Client) ==> r.Proceed?
    ensures r.Proceed? ==>
      && Authorize(p, {Admin, Client}) && roleExists
      && r.user.id == id && r.user.userName == dto.email && r.user.email == dto.email && r.user.emailConfirmed
      && (IsInRole(p, Client) ==> dto.role == Evaluator && current.Some? && r.user.companyId == current.value.companyId)
      && (!IsInRole(p, Client) ==> r.user.companyId.None?)
  {
    PlanWith(ClientRefusal(), p, roleExists, current, dto, id)
  }

  /**
   * A client asking for any role but evaluator, the client role for one: as
   * written the action throws (HTTP 500) where a 403 was meant.
   */
  lemma ClientRefusalDiffers(p: Principal, roleExists: bool, current: Option<ApplicationUser>, dto: UserCreateDto, id: UserId)
    requires IsInRole(p, Client) && roleExists && dto.role != Evaluator
    ensures CreateUserPlanAsWritten(p, roleExists, current, dto, id).Refuse?
    ensures CreateUserPlanAsWritten(p, roleExists, current, dto, id).result.Fault?
    ensures CreateUserPlan(p, roleExists, current, dto, id) == Refuse(Forbid)
  {
    assert Client in p.roles * {Admin, Client};
    RefusalUsed(ClientRefusalAsWritten(), p, roleExists, current, dto, id);
  }

  /** On every input but a client asking for a role other than evaluator, the code as written and the corrected one agree. */
  lemma ClientRefusalOnlyDifference(roleExists: bool, current: Option<ApplicationUser>, dto: UserCreateDto, id: UserId)
    ensures forall p: Principal :: !(IsInRole(p, Client) && dto.role != Evaluator) ==>
      CreateUserPlanAsWritten(p, roleExists, current, dto, id) == CreateUserPlan(p, roleExists, current, dto, id)
  {
    forall p: Principal | !(IsInRole(p, Client) && dto.role != Evaluator)
      ensures CreateUserPlanAsWritten(p, roleExists, current, dto, id) == CreateUserPlan(p, roleExists, current, dto, id)
    {
      RefusalUnused(ClientRefusalAsWritten(), ClientRefusal(), p, roleExists, current, dto, id);
    }
  }

  /** A client asking for a role other than evaluator gets the refusal. */
  lemma RefusalUsed(r: ActionResult<UserDto>, p: Principal, roleExists: bool,
                    current: Option<ApplicationUser>, dto: UserCreateDto, id: UserId)
    requires Authorize(p, {Admin, Client}) && roleExists && IsInRole(p, Client) && dto.role != Evaluator
    ensures PlanWith(r, p, roleExists, current, dto, id) == Refuse(r)
  {
  }

  /** The refusal decides nothing for a caller that is not a client asking for another role. */
  lemma RefusalUnused(r1: ActionResult<UserDto>, r2: ActionResult<UserDto>, p: Principal, roleExists: bool,
                      current: Option<ApplicationUser>, dto: UserCreateDto, id: UserId)
    requires !(IsInRole(p, Client) && dto.role != Evaluator)
    ensures PlanWith(r1, p, roleExists, current, dto, id) == PlanWith(r2, p, roleExists, current, dto, id)
  {
  }

  /**
   * `CreateUser` on the guards of `CreateUserPlan`: once they pass, a user
   * the validators refuse is BadRequest with no role given; otherwise the
   * user is stored with the password and the requested role as its only
   * role, and the answer shows it as active. `id` is the fresh identity id.
   */
  method CreateUser(um: UserManager, p: Principal, dto: UserCreateDto, id: UserId) returns (r: ActionResult<UserDto>)
    requires um.Valid()
    requires forall i :: 0 <= i < |um.users| ==> um.users[i].id != id
    modifies um
    ensures um.Valid() && um.roleNames == old(um.roleNames)
    ensures var plan := CreateUserPlan(p, dto.role in old(um.roleNames), old(um.GetUser(p)), dto, id);
      if plan.Refuse? then r == plan.result && um.users == old(um.users) && um.roles == old(um.roles)
      else if !old(um.CanCreate(plan.user, dto.password)) then
        r.BadRequest? && um.users == old(um.users) && um.roles == old(um.roles)
      else
        && r == Ok(UserDto(id, dto.email, dto.role, true))
        && um.users == old(um.users) + [plan.user.(password := dto.password)]
        && um.roles == old(um.roles)[id := [dto.role]]
  {
    var plan := CreateUserPlan(p, dto.role in um.roleNames, um.GetUser(p), dto, id);
    if plan.Refuse? {
      return plan.result;
    }
    var user := plan.user;
    var ok := um.CreateAsync(user, dto.password);
    if !ok {
      return BadRequest("IdentityErrors");
    }
    assert dto.role in um.roleNames && um.roles[user.id] == [];
    var added := um.AddToRoleAsync(user.id, dto.role);
    assert [] + [dto.role] == [dto.role];
    r := Ok(UserDto(user.id, user.email, dto.role, true));
  }

  /** One entry of the list: the user's first role, or "" when it has none. */
  function UserView(u: ApplicationUser, roles: seq<string>): UserDto {
    UserDto(u.id, u.email, if roles == [] then "" else roles[0], true)
  }

  /** The list `GetUsers` builds from `users`, in order, keeping the users holding `role` when one is given. */
  function Listed(users: seq<ApplicationUser>, roles: map<UserId, seq<string>>, role: Option<string>): seq<UserDto>
  {
    if users == [] then []
    else
      var u := users[|users| - 1];
      var rest := Listed(users[..|users| - 1], roles, role);
      if Kept(u, roles, role) then rest + [UserView(u, RolesIn(roles, u.id))] else rest
  }

  /** The filter of the list: every user when no role is given, else the holders of the role. */
  predicate Kept(u: ApplicationUser, roles: map<UserId, seq<string>>, role: Option<string>) {
    role.None? || role.value in RolesIn(roles, u.id)
  }

  /**
   * The list holds a user's entry exactly when the user holds the role
   * (every user when no role is given), from every company alike; with no
   * role it has one entry per user.
   */
  lemma {:induction false} ListedMembers(users: seq<ApplicationUser>, roles: map<UserId, seq<string>>, role: Option<string>)
    ensures forall d :: d in Listed(users, roles, role) <==>
      exists i :: 0 <= i < |users| && Kept(users[i], roles, role) && d == UserView(users[i], RolesIn(roles, users[i].id))
    ensures role.None? ==> |Listed(users, roles, role)| == |users|
  {
    if users != [] {
      var n := |users| - 1;
      var front, u := users[..n], users[n];
      ListedMembers(front, roles, role);
      forall d | d in Listed(users, roles, role)
        ensures exists i :: 0 <= i < |users| && Kept(users[i], roles, role) && d == UserView(users[i], RolesIn(roles, users[i].id))
      {
        if d in Listed(front, roles, role) {
          var i :| 0 <= i < n && Kept(front[i], roles, role) && d == UserView(front[i], RolesIn(roles, front[i].id));
          assert front[i] == users[i];
        } else {
          assert Kept(u, roles, role) && d == UserView(u, RolesIn(roles, u.id));
        }
      }
      forall d | exists i :: 0 <= i < |users| && Kept(users[i], roles, role) && d == UserView(users[i], RolesIn(roles, users[i].id))
        ensures d in Listed(users, roles, role)
      {
        var i :| 0 <= i < |users| && Kept(users[i], roles, role) && d == UserView(users[i], RolesIn(roles, users[i].id));
        if i < n {
          assert front[i] == users[i];
          assert d in Listed(front, roles, role);
        }
      }
    }
  }

  /** One more user listed: its entry is appended when it holds the role. */
  lemma ListedStep(users: seq<ApplicationUser>, i: nat, roles: map<UserId, seq<string>>, role: Option<string>)
    requires i < |users|
    ensures Listed(users[..i + 1], roles, role) ==
      Listed(users[..i], roles, role)
        + if Kept(users[i], roles, role) then [UserView(users[i], RolesIn(roles, users[i].id))] else []
  {
    assert users[..i + 1][..i] == users[..i];
  }

  /**
   * `GetUsers(role)` (administrators and clients): every user with its
   * first role, narrowed to the users holding `role` when one is given.
   */
  method GetUsers(um: UserManager, p: Principal, role: Option<string>) returns (r: ActionResult<seq<UserDto>>)
    requires um.Valid()
    ensures !Authorize(p, {Admin, Client}) ==> r == Denied(p)
    ensures Authorize(p, {Admin, Client}) ==> r == Ok(Listed(um.users, um.roles, role))
  {
    if !Authorize(p, {Admin, Client}) {
      return Denied(p);
    }
    var users := um.users;
    var dtos: seq<UserDto> := [];
    var i := 0;
    while i < |users|
      invariant 0 <= i <= |users|
      invariant dtos == Listed(users[..i], um.roles, role)
    {
      var u := users[i];
      var roles := um.RolesOf(u.id);
      ListedStep(users, i, um.roles, role);
      if role.None? || role.value in roles {
        dtos := dtos + [UserView(u, roles)];
      }
      i := i + 1;
    }
    assert users[..|users|] == users;
    r := Ok(dtos);
  }

  /**
   * `DeleteUser(id)` (administrators and clients, of any user): an unknown
   * id is NotFound; otherwise the user and its roles are removed.
   */
  method DeleteUser(um: UserManager, p: Principal, id: UserId) returns (r: ActionResult<()>)
    requires um.Valid()
    modifies um
    ensures um.Valid() && um.roleNames == old(um.roleNames)
    ensures !Authorize(p, {Admin, Client}) ==> r == Denied(p) && um.users == old(um.users) && um.roles == old(um.roles)
    ensures Authorize(p, {Admin, Client}) && old(um.FindById(id)).None? ==>
      r == NotFound && um.users == old(um.users) && um.roles == old(um.roles)
    ensures Authorize(p, {Admin, Client}) && old(um.FindById(id)).Some? ==>
      r == NoContent && um.users == WithoutUser(old(um.users), id) && um.roles == old(um.roles) - {id}
  {
    if !Authorize(p, {Admin, Client}) {
      return Denied(p);
    }
    var user := um.FindById(id);
    if user.None? {
      return NotFound;
    }
    um.DeleteAsync(user.value.id);
    r := NoContent;
  }
}
