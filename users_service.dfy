/** UsersService of src/users/users.service.ts: the `users` table as a
    field updated in place. The current time, in whole minutes, is a
    parameter of the operations that read the clock. */
module UsersService {
  import opened Common
  import opened Users

  /** The index of the first row with the given primary key, if any. */
  function Lookup(users: seq<User>, id: nat): (r: Option<nat>)
    ensures r.Some? ==> r.value < |users| && users[r.value].id == id
    ensures r.Some? ==> forall i :: 0 <= i < r.value ==> users[i].id != id
    ensures r.None? ==> forall i :: 0 <= i < |users| ==> users[i].id != id
  {
    if users == [] then None
    else if users[0].id == id then Some(0)
    else match Lookup(users[1..], id)
      case None => None
      case Some(k) => Some(k + 1)
  }

  /** `findByPk(id)`: the row with that key, or none. */
  function FindUser(users: seq<User>, id: nat): (r: Option<User>)
    ensures r.Some? ==> r.value in users && r.value.id == id
    ensures r.None? <==> forall u :: u in users ==> u.id != id
  {
    match Lookup(users, id)
    case None => None
    case Some(k) => Some(users[k])
  }

  class UsersService {
    var users: seq<User>
    var nextUserId: nat
    /** The `roles` table; this service only reads it. */
    const roles: seq<Role>

    ghost predicate Valid()
      reads this`users, this`nextUserId
    {
      && (forall i :: 0 <= i < |users| ==> users[i].id < nextUserId)
      && (forall i, j :: 0 <= i < j < |users| ==> users[i].id != users[j].id)
    }

    constructor (roles: seq<Role>)
      ensures Valid()
      ensures this.roles == roles && users == []
    {
      this.roles := roles;
      users := [];
      nextUserId := 1;
    }

    /** create: NOT_FOUND for an unknown role; otherwise one new row with
        the role's id and the candidate status rule applied. */
    method Create(email: string, password: string, roleValue: string, supplied: Arg<CandidateStatus>) returns (r: Result<User>)
      requires Valid()
      modifies this`users, this`nextUserId
      ensures Valid()
      ensures FindRole(roles, roleValue).None? ==> r == Err(NotFound) && users == old(users)
      ensures FindRole(roles, roleValue).Some? ==>
        && r.Ok?
        && r.value.id == old(nextUserId) && r.value.email == email && r.value.role == FindRole(roles, roleValue).value
        && r.value.candidateStatus == InitialCandidateStatus(roleValue, supplied)
        && !r.value.emailValidated && !r.value.isBanned
        && users == old(users) + [r.value]
    {
      var role := FindRole(roles, roleValue);
      if role.None? {
        return Err(NotFound);
      }
      var user := User(nextUserId, email, password, role.value, InitialCandidateStatus(role.value.value, supplied),
                       false, None, None, false, None, None, None, [], []);
      users := users + [user];
      nextUserId := nextUserId + 1;
      r := Ok(user);
    }

    /** getByEmailAndRoleWithPassword: scan the table for the email, then
        select among the matches by role. */
    method GetByEmailAndRoleWithPassword(email: string, role: Option<string>) returns (r: Result<Option<User>>)
      ensures r == SelectLogin(WithEmail(users, email), role)
    {
      var matches: seq<User> := [];
      for i := 0 to |users|
        invariant matches == WithEmail(users[..i], email)
      {
        WithEmailAppend(users[..i], users[i], email);
        assert users[..i + 1] == users[..i] + [users[i]];
        if users[i].email == email {
          matches := matches + [users[i]];
        }
      }
      assert users[..|users|] == users;
      r := SelectLogin(matches, role);
    }

    /** Replace the row at index k, keeping its id. */
    method Put(k: nat, u: User)
      requires Valid() && k < |users| && u.id == users[k].id
      modifies this`users
      ensures Valid()
      ensures users == old(users)[k := u]
    {
      users := users[k := u];
    }

    /** updateEmail: the updated row, or none when no row has the id. */
    method UpdateEmail(id: nat, email: string) returns (r: Option<User>)
      requires Valid()
      modifies this`users
      ensures Valid()
      ensures FindUser(old(users), id).None? ==> r.None? && users == old(users)
      ensures FindUser(old(users), id).Some? ==>
        r == Some(ResetEmail(FindUser(old(users), id).value, email))
        && users == old(users)[Lookup(old(users), id).value := r.value]
    {
      var k := Lookup(users, id);
      if k.None? {
        return None;
      }
      var u := ResetEmail(users[k.value], email);
      Put(k.value, u);
      r := Some(u);
    }

    /** updateEmailValidationInfo, at minute `now`. */
    method UpdateEmailValidationInfo(id: nat, emailValidated: bool, code: Arg<string>, now: int) returns (r: Option<User>)
      requires Valid()
      modifies this`users
      ensures Valid()
      ensures FindUser(old(users), id).None? ==> r.None? && users == old(users)
      ensures FindUser(old(users), id).Some? ==>
        r == Some(SetValidationInfo(FindUser(old(users), id).value, emailValidated, code, now))
        && users == old(users)[Lookup(old(users), id).value := r.value]
    {
      var k := Lookup(users, id);
      if k.None? {
        return None;
      }
      var u := SetValidationInfo(users[k.value], emailValidated, code, now);
      Put(k.value, u);
      r := Some(u);
    }

    /** checkEmailValidationCode, at minute `now`, with the intended code
        comparison (see CheckCode in Users for the written one): on success
        the row is marked validated; on any failure nothing changes. */
    method CheckEmailValidationCode(id: nat, code: Arg<string>, now: int) returns (r: Result<bool>)
      requires Valid()
      modifies this`users
      ensures Valid()
      ensures var outcome := CheckCodeIntended(FindUser(old(users), id), code, now);
        && (outcome.Err? ==> r == Err(outcome.error) && users == old(users))
        && (outcome.Ok? ==> r == Ok(true) && users == old(users)[Lookup(old(users), id).value := outcome.value])
    {
      var k := Lookup(users, id);
      var outcome := CheckCodeIntended(if k.Some? then Some(users[k.value]) else None, code, now);
      if outcome.Err? {
        return Err(outcome.error);
      }
      Put(k.value, outcome.value);
      r := Ok(true);
    }

    /** changeIsBanned, at minute `now`. */
    method ChangeIsBanned(id: nat, isBanned: bool, banReason: Arg<string>, now: int) returns (r: Option<User>)
      requires Valid()
      modifies this`users
      ensures Valid()
      ensures FindUser(old(users), id).None? ==> r.None? && users == old(users)
      ensures FindUser(old(users), id).Some? ==>
        r == Some(SetBan(FindUser(old(users), id).value, isBanned, banReason, now))
        && users == old(users)[Lookup(old(users), id).value := r.value]
    {
      var k := Lookup(users, id);
      if k.None? {
        return None;
      }
      var u := SetBan(users[k.value], isBanned, banReason, now);
      Put(k.value, u);
      r := Some(u);
    }

    /** deleteImage's database part: clear the column or leave the row. */
    method DeleteImage(id: nat, imageName: Option<string>) returns (r: Result<User>)
      requires Valid()
      modifies this`users
      ensures Valid()
      ensures r == Users.DeleteImage(FindUser(old(users), id), imageName)
      ensures r.Err? ==> users == old(users)
      ensures r.Ok? ==> users == old(users)[Lookup(old(users), id).value := r.value]
    {
      var k := Lookup(users, id);
      r := Users.DeleteImage(if k.Some? then Some(users[k.value]) else None, imageName);
      if r.Ok? {
        Put(k.value, r.value);
      }
    }

    /** getFinanceAccountId with the company lists loaded (see the
        as-written rule in Users). */
    method GetFinanceAccountId(id: nat) returns (r: Result<Option<nat>>)
      ensures r == FinanceAccountIdLoaded(FindUser(users, id))
    {
      r := FinanceAccountIdLoaded(FindUser(users, id));
    }
  }
}
