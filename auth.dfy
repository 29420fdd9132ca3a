/** `AuthController`: open registration and password login issuing a bearer token. */
module AuthController {
  import opened Wrappers
  import opened Clock
  import opened Entities
  import opened Contracts
  import opened Http
  import opened Identity

  datatype ClaimType = Sub | EmailClaim | NameIdentifier | RoleClaim
  datatype Claim = Claim(kind: ClaimType, value: string)

  /** What the token says: its claims and its expiry. Issuer, audience and signature are left out. */
  datatype Token = Token(claims: seq<Claim>, expires: DateTime)

  /**
   * `Register`, open to anyone: a role outside the three system roles is
   * BadRequest; the user, with the requested company copied as given, is
   * created when the validators allow (BadRequest otherwise, with no role
   * given) and then given the role, which throws when the role store does
   * not have it. `id` is the fresh identity id.
   */
  method Register(um: UserManager, req: RegisterRequest, id: UserId) returns (r: ActionResult<()>)
    requires um.Valid()
    requires forall i :: 0 <= i < |um.users| ==> um.users[i].id != id
    modifies um
    ensures um.Valid() && um.roleNames == old(um.roleNames)
    ensures req.role !in SystemRoles ==>
      r == BadRequest("Invalid role") && um.users == old(um.users) && um.roles == old(um.roles)
    ensures req.role in SystemRoles ==>
      var user := ApplicationUser(id, req.email, req.email, true, req.companyId, "");
      if !old(um.CanCreate(user, req.password)) then
        r.BadRequest? && um.users == old(um.users) && um.roles == old(um.roles)
      else
        && um.users == old(um.users) + [user.(password := req.password)]
        && if req.role in old(um.roleNames) then r == Ok(()) && um.roles == old(um.roles)[id := [req.role]]
           else r.Fault? && um.roles == old(um.roles)[id := []]
  {
    if req.role !in SystemRoles {
      return BadRequest("Invalid role");
    }
    var user := ApplicationUser(id, req.email, req.email, true, req.companyId, "");
    var ok := um.CreateAsync(user, req.password);
    if !ok {
      return BadRequest("IdentityErrors");
    }
    assert um.roles[id] == [];
    var added := um.AddToRoleAsync(id, req.role);
    if added == NoSuchRole {
      return Fault("InvalidOperationException");
    }
    assert [] + [req.role] == [req.role];
    r := Ok(());
  }

  /** The claim list of a token for `u` with role `role`. */
  function Claims(u: ApplicationUser, role: string): seq<Claim> {
    [Claim(Sub, u.id), Claim(EmailClaim, u.email), Claim(NameIdentifier, u.id), Claim(RoleClaim, role)]
  }

  /**
   * `Login`: an unknown email or a wrong password is Unauthorized; a user
   * with no role makes `roles.First()` throw; otherwise the token carries
   * the user's id as subject and name identifier, its email and its first
   * role, and expires twelve hours from `now` (an expiry past the last
   * representable instant throws).
   */
  function Login(um: UserManager, req: LoginRequest, now: DateTime): (r: ActionResult<Token>)
    reads um
    ensures um.FindByEmail(req.email).None? ==> r == Unauthorized
    ensures um.FindByEmail(req.email).Some? && !um.CheckPassword(um.FindByEmail(req.email).value, req.password) ==>
      r == Unauthorized
    ensures um.FindByEmail(req.email).Some? && um.CheckPassword(um.FindByEmail(req.email).value, req.password) ==>
      (r.Fault? <==> um.RolesOf(um.FindByEmail(req.email).value.id) == [] || AddHours(now, 12).None?)
    ensures r.Ok? ==>
      && um.FindByEmail(req.email).Some?
      && var u := um.FindByEmail(req.email).value;
      && u in um.users && u.email == req.email && u.password == req.password
      && r.value.expires == now + 12 * TicksPerHour
  {
    var user := um.FindByEmail(req.email);
    if user.None? then Unauthorized
    else if !um.CheckPassword(user.value, req.password) then Unauthorized
    else
      var roles := um.RolesOf(user.value.id);
      if roles == [] then Fault("InvalidOperationException")
      else
        var expires := AddHours(now, 12);
        if expires.None? then Fault("ArgumentOutOfRangeException")
        else Ok(Token(Claims(user.value, roles[0]), expires.value))
  }

  /** The value of the first claim of `kind`. */
  function FirstClaim(claims: seq<Claim>, kind: ClaimType): (r: Option<string>)
    ensures r.Some? ==> exists i :: 0 <= i < |claims| && claims[i].kind == kind && claims[i].value == r.value
                                   && forall j :: 0 <= j < i ==> claims[j].kind != kind
    ensures r.None? <==> forall i :: 0 <= i < |claims| ==> claims[i].kind != kind
  {
    if claims == [] then None
    else if claims[0].kind == kind then Some(claims[0].value)
    else
      var r := FirstClaim(claims[1..], kind);
      assert forall i :: 1 <= i < |claims| ==> claims[i] == claims[1..][i - 1];
      r
  }

  /** The caller a request bearing the token is seen as: its NameIdentifier and every role it claims. */
  function PrincipalOf(t: Token): Principal {
    var id := FirstClaim(t.claims, NameIdentifier);
    if id.None? then Anonymous
    else Authenticated(id.value, set c | c in t.claims && c.kind == RoleClaim :: c.value)
  }

  /**
   * A token from `Login` carries, in order, the subject, the email, the name
   * identifier and the first role of the user; so it names the user by
   * subject and name identifier alike, carries exactly one role claim, and
   * makes its bearer the user holding only its first role.
   */
  lemma LoginToken(um: UserManager, req: LoginRequest, now: DateTime)
    requires Login(um, req, now).Ok?
    ensures var u := um.FindByEmail(req.email).value;
      var t := Login(um, req, now).value;
      && t.claims == [Claim(Sub, u.id), Claim(EmailClaim, req.email), Claim(NameIdentifier, u.id), Claim(RoleClaim, um.RolesOf(u.id)[0])]
      && (forall c :: c in t.claims && (c.kind == Sub || c.kind == NameIdentifier) ==> c.value == u.id)
      && (forall i, j :: 0 <= i < |t.claims| && 0 <= j < |t.claims| && t.claims[i].kind == RoleClaim && t.claims[j].kind == RoleClaim ==> i == j)
      && PrincipalOf(t) == Authenticated(u.id, {um.RolesOf(u.id)[0]})
  {
    var u := um.FindByEmail(req.email).value;
    var t := Login(um, req, now).value;
    var role := um.RolesOf(u.id)[0];
    assert t.claims == Claims(u, role);
    assert t.claims[2].kind == NameIdentifier;
    assert forall i :: 0 <= i < |t.claims| && t.claims[i].kind == NameIdentifier ==> t.claims[i].value == u.id;
    assert (set c | c in t.claims && c.kind == RoleClaim :: c.value) == {role} by {
      assert Claim(RoleClaim, role) in t.claims;
    }
  }

  /**
   * A user registered with a role and an email no other user has can log in
   * with the same email and password, and its token makes it that role.
   */
  lemma RegisteredUserLogsIn(um: UserManager, u: ApplicationUser, role: string, now: DateTime)
    requires |um.users| > 0 && um.users[|um.users| - 1] == u
    requires forall i :: 0 <= i < |um.users| - 1 ==> um.users[i].email != u.email
    requires u.id in um.roles && um.roles[u.id] == [role]
    requires AddHours(now, 12).Some?
    ensures Login(um, LoginRequest(u.email, u.password), now).Ok?
    ensures PrincipalOf(Login(um, LoginRequest(u.email, u.password), now).value) == Authenticated(u.id, {role})
  {
    var found := um.FindByEmail(u.email);
    assert found.Some?;
    assert found.value == u by {
      var i :| 0 <= i < |um.users| && um.users[i] == found.value;
    }
    LoginToken(um, LoginRequest(u.email, u.password), now);
  }
}
