/** The identity store: users, their roles, and the three role names of the system. */
module Identity {
  import opened Wrappers
  import opened Entities
  import opened Http

  /** Super administrator: manages companies. */
  const Admin: string := "ADMIN"
  /** A client company's user: manages its agencies, employees and surveys. */
  const Client: string := "CLIENTE"
  /** A mystery-shopper evaluator. */
  const Evaluator: string := "EVALUADOR"

  const SystemRoles: set<string> := {Admin, Client, Evaluator}

  /** An identity user with the company it belongs to, if any. The password is kept as given. */
  datatype ApplicationUser = ApplicationUser(
    id: UserId,
    userName: string,
    email: string,
    emailConfirmed: bool,
    companyId: Option<Guid>,
    password: string)

  /** The first user satisfying `p`. */
  function FirstUser(users: seq<ApplicationUser>, p: ApplicationUser -> bool): (r: Option<ApplicationUser>)
    ensures r.Some? ==> r.value in users && p(r.value)
    ensures r.None? <==> forall i :: 0 <= i < |users| ==> !p(users[i])
  {
    if users == [] then None
    else if p(users[0]) then Some(users[0])
    else
      var r := FirstUser(users[1..], p);
      assert forall i :: 1 <= i < |users| ==> users[i] == users[1..][i - 1];
      r
  }

  /** `users` without the user whose id is `id`. */
  function WithoutUser(users: seq<ApplicationUser>, id: UserId): (r: seq<ApplicationUser>)
    ensures forall u :: u in r <==> u in users && u.id != id
    ensures |r| <= |users|
  {
    if users == [] then []
    else
      var rest := WithoutUser(users[1..], id);
      assert forall u :: u in users[1..] ==> u in users;
      if users[0].id == id then rest else [users[0]] + rest
  }

  ghost predicate DistinctUsers(users: seq<ApplicationUser>) {
    forall i, j :: 0 <= i < j < |users| ==> users[i].id != users[j].id && users[i].userName != users[j].userName
  }

  lemma {:induction false} WithoutUserDistinct(users: seq<ApplicationUser>, id: UserId)
    requires DistinctUsers(users)
    ensures DistinctUsers(WithoutUser(users, id))
  {
    if users != [] {
      assert DistinctUsers(users[1..]);
      WithoutUserDistinct(users[1..], id);
    }
  }

  /** The role map has an entry for exactly the stored users. */
  ghost predicate Covered(users: seq<ApplicationUser>, roles: map<UserId, seq<string>>) {
    forall id :: id in roles <==> exists i :: 0 <= i < |users| && users[i].id == id
  }

  lemma WithoutUserCovered(users: seq<ApplicationUser>, roles: map<UserId, seq<string>>, id: UserId)
    requires Covered(users, roles)
    ensures Covered(WithoutUser(users, id), roles - {id})
  {
    var rest, left := WithoutUser(users, id), roles - {id};
    forall x | x in left
      ensures exists i :: 0 <= i < |rest| && rest[i].id == x
    {
      var j :| 0 <= j < |users| && users[j].id == x;
      assert users[j] in rest;
    }
    forall i | 0 <= i < |rest|
      ensures rest[i].id in left
    {
      assert rest[i] in users;
    }
  }

  /** A user's role names in a role map; a user without an entry has none. */
  function RolesIn(roles: map<UserId, seq<string>>, id: UserId): seq<string> {
    if id in roles then roles[id] else []
  }

  datatype RoleOutcome = RoleAdded | AlreadyInRole | NoSuchRole

  /**
   * `UserManager<ApplicationUser>` together with the role store. `accepts`
   * stands for the configured user and password validators, which this
   * model does not spell out; unique user names are checked here.
   */
  class UserManager {
    var users: seq<ApplicationUser>
    /** Each user's role names, in the order they were added. */
    var roles: map<UserId, seq<string>>
    /** The roles the role manager knows. */
    var roleNames: set<string>
    const accepts: (ApplicationUser, string) -> bool

    ghost predicate Valid()
      reads this
    {
      && DistinctUsers(users)
      && Covered(users, roles)
    }

    constructor (roleNames: set<string>, accepts: (ApplicationUser, string) -> bool)
      ensures Valid() && users == [] && roles == map[] && this.roleNames == roleNames && this.accepts == accepts
    {
      users := [];
      roles := map[];
      this.roleNames := roleNames;
      this.accepts := accepts;
    }

    /** `GetRolesAsync`. */
    function RolesOf(id: UserId): seq<string>
      reads this
    {
      RolesIn(roles, id)
    }

    /** `FindByIdAsync`, and `GetUserAsync` on the caller's NameIdentifier claim. */
    function FindById(id: UserId): (r: Option<ApplicationUser>)
      reads this
      ensures r.Some? ==> r.value in users && r.value.id == id
      ensures r.None? <==> forall i :: 0 <= i < |users| ==> users[i].id != id
    {
      FirstUser(users, (u: ApplicationUser) => u.id == id)
    }

    /** `GetUserAsync(User)`: the user named by the caller's NameIdentifier claim; none for an anonymous caller. */
    function GetUser(p: Principal): Option<ApplicationUser>
      reads this
    {
      if p.Anonymous? then None else FindById(p.userId)
    }

    /** `FindByEmailAsync`. */
    function FindByEmail(email: string): (r: Option<ApplicationUser>)
      reads this
      ensures r.Some? ==> r.value in users && r.value.email == email
      ensures r.None? <==> forall i :: 0 <= i < |users| ==> users[i].email != email
    {
      FirstUser(users, (u: ApplicationUser) => u.email == email)
    }

    /** `CheckPasswordAsync`. */
    predicate CheckPassword(user: ApplicationUser, password: string) {
      user.password == password
    }

    predicate CanCreate(user: ApplicationUser, password: string)
      reads this
    {
      && accepts(user, password)
      && (forall i :: 0 <= i < |users| ==> users[i].id != user.id && users[i].userName != user.userName)
    }

    /** `CreateAsync(user, password)`: a new user with no roles, when the validators and the unique user name allow. */
    method CreateAsync(user: ApplicationUser, password: string) returns (ok: bool)
      requires Valid()
      modifies this
      ensures Valid() && roleNames == old(roleNames)
      ensures ok <==> old(CanCreate(user, password))
      ensures ok ==> users == old(users) + [user.(password := password)] && roles == old(roles)[user.id := []]
      ensures !ok ==> users == old(users) && roles == old(roles)
    {
      ok := CanCreate(user, password);
      if ok {
        ghost var users0 := users;
        users := users + [user.(password := password)];
        roles := roles[user.id := []];
        forall id | id in roles
          ensures exists i :: 0 <= i < |users| && users[i].id == id
        {
          if id == user.id {
            assert users[|users| - 1].id == id;
          } else {
            var j :| 0 <= j < |users0| && users0[j].id == id;
            assert users[j].id == id;
          }
        }
        forall i | 0 <= i < |users|
          ensures users[i].id in roles
        {
          if i < |users0| {
            assert users[i] == users0[i];
          }
        }
      }
    }

    /**
     * `AddToRoleAsync`: a role the role manager does not know is an error;
     * a role the user already has is reported and not added twice.
     */
    method AddToRoleAsync(userId: UserId, role: string) returns (o: RoleOutcome)
      requires Valid() && userId in roles
      modifies this
      ensures Valid() && users == old(users) && roleNames == old(roleNames)
      ensures role !in roleNames ==> o == NoSuchRole && roles == old(roles)
      ensures role in roleNames && role in old(roles)[userId] ==> o == AlreadyInRole && roles == old(roles)
      ensures role in roleNames && role !in old(roles)[userId] ==>
        o == RoleAdded && roles == old(roles)[userId := old(roles)[userId] + [role]]
    {
      if role !in roleNames {
        return NoSuchRole;
      }
      if role in roles[userId] {
        return AlreadyInRole;
      }
      roles := roles[userId := roles[userId] + [role]];
      o := RoleAdded;
    }

    /** `DeleteAsync`: the user and its role memberships are removed. */
    method DeleteAsync(userId: UserId)
      requires Valid()
      modifies this
      ensures Valid() && roleNames == old(roleNames)
      ensures users == WithoutUser(old(users), userId) && roles == old(roles) - {userId}
    {
      WithoutUserDistinct(users, userId);
      WithoutUserCovered(users, roles, userId);
      users := WithoutUser(users, userId);
      roles := roles - {userId};
    }
  }
}
