/** Specification of the account decision rules in
    src/users/users.service.ts: the user row as a value, and the branch
    rules the UsersService methods are proved against. Time is in whole
    minutes. */
module Users {
  import opened Common

  datatype Role = Role(id: nat, value: string)

  /** `Roles.candidate`; only its distinctness from other role values matters. */
  const CandidateRoleValue: string := "CANDIDATE"

  datatype CandidateStatus = ActivelyConsideringOffers | OtherStatus(name: string)

  datatype Company = Company(id: nat, financeAccountId: Option<nat>)

  /** A `users` row with its role. Companies are association rows. */
  datatype User = User(
    id: nat,
    email: string,
    password: string,
    role: Role,
    candidateStatus: Option<CandidateStatus>,
    emailValidated: bool,
    emailValidationCode: Option<string>,
    emailValidationCodeSentAt: Option<int>,
    isBanned: bool,
    banReason: Option<string>,
    banDate: Option<int>,
    imageName: Option<string>,
    ownedCompanies: seq<Company>,
    memberedCompanies: seq<Company>)

  /** JavaScript truthiness of an optional string: undefined and "" are falsy. */
  predicate Truthy(s: Option<string>) { s.Some? && s.value != "" }

  /** Truthiness of an argument: undefined, null and "" are falsy. */
  predicate ArgTruthy(s: Arg<string>) { s.Value? && s.value != "" }

  /** The column an `update` leaves after writing an optional argument:
      unchanged when it was left out, null when it was null. */
  function Written<T>(stored: Option<T>, a: Arg<T>): (r: Option<T>)
    ensures a.Omitted? ==> r == stored
    ensures a.Null? ==> r.None?
    ensures a.Value? ==> r == Some(a.value)
  {
    match a
    case Omitted => stored
    case Null => None
    case Value(v) => Some(v)
  }

  // ---------------------------------------------------------------- login selection

  /** The first user whose role value is `role`. */
  function FirstWithRole(users: seq<User>, role: string): (r: Option<nat>)
    ensures r.Some? ==> r.value < |users| && users[r.value].role.value == role
    ensures r.Some? ==> forall j :: 0 <= j < r.value ==> users[j].role.value != role
    ensures r.None? ==> forall j :: 0 <= j < |users| ==> users[j].role.value != role
  {
    if users == [] then None
    else if users[0].role.value == role then Some(0)
    else
      var r := FirstWithRole(users[1..], role);
      assert forall j :: 1 <= j < |users| ==> users[j] == users[1..][j - 1];
      if r.Some? then Some(r.value + 1) else None
  }

  /** getByEmailAndRoleWithPassword over the users sharing the email: one
      or none is returned as is; among several, a role is required and
      picks the first user holding it. */
  function SelectLogin(users: seq<User>, role: Option<string>): (r: Result<Option<User>>)
    ensures |users| <= 1 ==> r == Ok(if users == [] then None else Some(users[0]))
    ensures |users| > 1 ==> (r.Err? <==> !Truthy(role) || forall u :: u in users ==> u.role.value != role.value)
    ensures |users| > 1 && r.Ok? ==>
      exists k :: 0 <= k < |users| && r.value == Some(users[k]) && users[k].role.value == role.value
                  && forall j :: 0 <= j < k ==> users[j].role.value != role.value
    ensures r.Err? ==> r.error == Unauthorized
  {
    if |users| > 1 then
      if Truthy(role) then
        match FirstWithRole(users, role.value)
        case Some(k) => Ok(Some(users[k]))
        case None => Err(Unauthorized)
      else Err(Unauthorized)
    else Ok(if users == [] then None else Some(users[0]))
  }

  /** With at most one user for the email, the role plays no part. */
  lemma SingleUserIgnoresRole(users: seq<User>, role1: Option<string>, role2: Option<string>)
    requires |users| <= 1
    ensures SelectLogin(users, role1) == SelectLogin(users, role2)
  {
  }

  /** `findAll({where: {email}})`, in table order. */
  function WithEmail(users: seq<User>, email: string): (r: seq<User>)
    ensures forall u :: u in r <==> u in users && u.email == email
  {
    if users == [] then []
    else
      var rest := WithEmail(users[1..], email);
      assert forall u :: u in users <==> u == users[0] || u in users[1..];
      (if users[0].email == email then [users[0]] else []) + rest
  }

  lemma {:induction false} WithEmailAppend(a: seq<User>, u: User, email: string)
    ensures WithEmail(a + [u], email) == WithEmail(a, email) + (if u.email == email then [u] else [])
  {
    if a == [] {
      assert a + [u] == [u];
    } else {
      var head := if a[0].email == email then [a[0]] else [];
      assert (a + [u])[0] == a[0];
      assert (a + [u])[1..] == a[1..] + [u];
      assert WithEmail(a + [u], email) == head + WithEmail(a[1..] + [u], email);
      WithEmailAppend(a[1..], u, email);
    }
  }

  // ---------------------------------------------------------------- reactions guard

  datatype ReactionModel = Vacancies | Resume
  datatype ReactionSubmodel =
    VacancyLikes | VacancyViews | VacancyComments | ResumeLikes | ResumeViews | ResumeComments

  /** The document table a reaction table refers to. */
  function ReactedDocument(s: ReactionSubmodel): ReactionModel
  {
    match s
    case VacancyLikes | VacancyViews | VacancyComments => Vacancies
    case ResumeLikes | ResumeViews | ResumeComments => Resume
  }

  /** The guard and `documentIdName` of getPaginatedUsersReactionsWithData:
      a model with a reaction table of the other document kind is an
      internal error; otherwise the join column of the model's document. */
  function ReactionDocumentKey(model: ReactionModel, submodel: ReactionSubmodel): (r: Result<string>)
    ensures r.Ok? <==> ReactedDocument(submodel) == model
    ensures r.Err? ==> r.error == InternalServerError
    ensures r.Ok? ==> r.value == (if ReactedDocument(submodel) == Vacancies then "vacancyId" else "resumeId")
  {
    if (model == Vacancies && (submodel == ResumeLikes || submodel == ResumeViews || submodel == ResumeComments))
       || (model == Resume && (submodel == VacancyLikes || submodel == VacancyViews || submodel == VacancyComments))
    then Err(InternalServerError)
    else Ok(if model == Vacancies then "vacancyId" else "resumeId")
  }

  // ---------------------------------------------------------------- email validation

  /** updateEmail's update: new address, validation reset. */
  function ResetEmail(u: User, email: string): (r: User)
    ensures r.email == email && !r.emailValidated
    ensures r.emailValidationCode.None? && r.emailValidationCodeSentAt.None?
    ensures r.(email := u.email, emailValidated := u.emailValidated,
               emailValidationCode := u.emailValidationCode, emailValidationCodeSentAt := u.emailValidationCodeSentAt) == u
  {
    u.(email := email, emailValidated := false, emailValidationCode := None, emailValidationCodeSentAt := None)
  }

  /** updateEmailValidationInfo's update: an omitted code leaves the code
      as it was and a null one clears it; sent-at becomes `now` only for a
      non-empty code and is otherwise left as it was. */
  function SetValidationInfo(u: User, emailValidated: bool, code: Arg<string>, now: int): (r: User)
    ensures r.emailValidated == emailValidated
    ensures r.emailValidationCode == Written(u.emailValidationCode, code)
    ensures r.(emailValidated := u.emailValidated, emailValidationCode := u.emailValidationCode,
               emailValidationCodeSentAt := u.emailValidationCodeSentAt) == u
  {
    u.(emailValidated := emailValidated,
       emailValidationCode := Written(u.emailValidationCode, code),
       emailValidationCodeSentAt := if ArgTruthy(code) then Some(now) else u.emailValidationCodeSentAt)
  }

  /** Sent-at is restamped exactly when a non-empty code is supplied. */
  lemma SentAtStampedIffCode(u: User, emailValidated: bool, code: Arg<string>, now: int)
    ensures ArgTruthy(code) ==> SetValidationInfo(u, emailValidated, code, now).emailValidationCodeSentAt == Some(now)
    ensures !ArgTruthy(code) ==> SetValidationInfo(u, emailValidated, code, now).emailValidationCodeSentAt == u.emailValidationCodeSentAt
  {
  }

  /** The code expires once ten whole minutes have elapsed; a row with no
      sent-at never expires (the minute difference is NaN). */
  predicate Expired(sentAt: Option<int>, now: int)
    ensures Expired(sentAt, now) ==> sentAt.Some? && sentAt.value <= now - 10
  {
    sentAt.Some? && now - sentAt.value >= 10
  }

  /** `user.emailValidationCode !== emailValidationCode` is false: the
      strict comparison of the stored column with the argument, where a
      stored null equals an explicit null but never an omitted code. */
  predicate SameCode(stored: Option<string>, code: Arg<string>)
  {
    match code
    case Omitted => false
    case Null => stored.None?
    case Value(c) => stored == Some(c)
  }

  /** checkEmailValidationCode as written: the row is read without a null
      check, the code must equal the stored one, and only then is expiry
      checked. */
  function CheckCode(user: Option<User>, code: Arg<string>, now: int): (r: Result<User>)
    ensures user.None? <==> r == Err(NullDereference)
    ensures user.Some? ==> (r == Err(Conflict) <==> !SameCode(user.value.emailValidationCode, code))
    ensures user.Some? ==>
      (r == Err(Gone) <==> (SameCode(user.value.emailValidationCode, code) && Expired(user.value.emailValidationCodeSentAt, now)))
    ensures r.Ok? ==> r.value == user.value.(emailValidated := true)
  {
    match user
    case None => Err(NullDereference)
    case Some(u) =>
      if !SameCode(u.emailValidationCode, code) then Err(Conflict)
      else if Expired(u.emailValidationCodeSentAt, now) then Err(Gone)
      else Ok(u.(emailValidated := true))
  }

  /** As written, an explicit null code validates any row whose code is
      null, such as one that updateEmail has just reset: the comparison
      passes and a null sent-at never expires. */
  lemma NullCodeValidatesResetUser(u: User, email: string, now: int)
    ensures CheckCode(Some(ResetEmail(u, email)), Null, now) == Ok(ResetEmail(u, email).(emailValidated := true))
  {
  }

  /** Evidently intended: only a supplied code can validate; a null code is
      a conflict like an omitted one. */
  function CheckCodeIntended(user: Option<User>, code: Arg<string>, now: int): (r: Result<User>)
    ensures user.None? <==> r == Err(NullDereference)
    ensures user.Some? ==> (r == Err(Conflict) <==> !code.Value? || user.value.emailValidationCode != Some(code.value))
    ensures r.Ok? ==> code.Value? && user.value.emailValidationCode == Some(code.value)
  {
    if code.Null? && user.Some? then Err(Conflict) else CheckCode(user, code, now)
  }

  /** The intended check differs from the written one only on a null code. */
  lemma IntendedAgreesExceptNull(user: Option<User>, code: Arg<string>, now: int)
    requires !code.Null?
    ensures CheckCodeIntended(user, code, now) == CheckCode(user, code, now)
  {
  }

  /** A wrong code is a conflict at any time, however long ago it was sent. */
  lemma MismatchBeforeExpiry(u: User, code: Arg<string>, now: int, later: int)
    requires !SameCode(u.emailValidationCode, code)
    ensures CheckCode(Some(u), code, now) == Err(Conflict) == CheckCode(Some(u), code, later)
  {
  }

  /** A code issued at minute t is accepted up to minute t + 9 and gone at
      minute t + 10; success is the only outcome that validates. */
  lemma IssueThenCheck(u: User, code: string, t: int, now: int)
    requires code != "" && t <= now
    ensures var issued := SetValidationInfo(u, false, Value(code), t);
      && (now < t + 10 ==> CheckCodeIntended(Some(issued), Value(code), now) == Ok(issued.(emailValidated := true)))
      && (now >= t + 10 ==> CheckCodeIntended(Some(issued), Value(code), now) == Err(Gone))
  {
  }

  /** After an address change no code is accepted until a new one is issued. */
  lemma ResetRejectsEveryCode(u: User, email: string, code: Arg<string>, now: int)
    ensures CheckCodeIntended(Some(ResetEmail(u, email)), code, now) == Err(Conflict)
  {
  }

  // ---------------------------------------------------------------- create

  /** create's `candidateStatus`, given the `candidateStatus` key of the
      `additional` record (missing, present but null or undefined, or a
      value): a candidate gets the supplied status or else
      ACTIVELY_CONSIDERING_OFFERS; then `...additional` overrides it
      whenever the key is present, whatever the role. */
  function InitialCandidateStatus(roleValue: string, supplied: Arg<CandidateStatus>): (r: Option<CandidateStatus>)
    ensures r.Some? ==> roleValue == CandidateRoleValue || supplied.Value?
  {
    var computed := if roleValue == CandidateRoleValue then
                      Some(if supplied.Value? then supplied.value else ActivelyConsideringOffers)
                    else None;
    if supplied.Omitted? then computed
    else if supplied.Value? then Some(supplied.value)
    else None
  }

  /** A supplied status always wins; without one a candidate is actively
      considering offers and any other role has no status. */
  lemma CandidateStatusRule(roleValue: string, supplied: Arg<CandidateStatus>)
    ensures supplied.Value? ==> InitialCandidateStatus(roleValue, supplied) == Some(supplied.value)
    ensures supplied.Omitted? ==>
      InitialCandidateStatus(roleValue, supplied) == (if roleValue == CandidateRoleValue then Some(ActivelyConsideringOffers) else None)
    ensures supplied.Null? ==> InitialCandidateStatus(roleValue, supplied).None?
  {
  }

  /** `roleService.getByValue`: the first role with that value. */
  function FindRole(roles: seq<Role>, value: string): (r: Option<Role>)
    ensures r.Some? ==> r.value in roles && r.value.value == value
    ensures r.None? ==> forall x :: x in roles ==> x.value != value
  {
    if roles == [] then None
    else if roles[0].value == value then Some(roles[0])
    else FindRole(roles[1..], value)
  }

  // ---------------------------------------------------------------- ban

  /** changeIsBanned's update: an omitted reason is left as it was and a
      null one clears it; the ban date is stamped on a ban and left as it
      was on an unban. */
  function SetBan(u: User, isBanned: bool, banReason: Arg<string>, now: int): (r: User)
    ensures r.isBanned == isBanned && r.banReason == Written(u.banReason, banReason)
    ensures isBanned ==> r.banDate == Some(now)
    ensures r.(isBanned := u.isBanned, banReason := u.banReason, banDate := u.banDate) == u
  {
    u.(isBanned := isBanned,
       banReason := Written(u.banReason, banReason),
       banDate := if isBanned then Some(now) else u.banDate)
  }

  /** Lifting a ban keeps the date of the last one, and its reason unless
      the reason is passed as null. */
  lemma UnbanKeepsRecord(u: User, reason: string, t: int, later: int)
    ensures var banned := SetBan(u, true, Value(reason), t);
      var lifted := SetBan(banned, false, Omitted, later);
      !lifted.isBanned && lifted.banDate == Some(t) && lifted.banReason == Some(reason)
      && lifted.(isBanned := u.isBanned, banDate := u.banDate, banReason := u.banReason) == u
    ensures var cleared := SetBan(SetBan(u, true, Value(reason), t), false, Null, later);
      !cleared.isBanned && cleared.banDate == Some(t) && cleared.banReason.None?
  {
  }

  // ---------------------------------------------------------------- image

  /** deleteImage clears the column iff no name is passed or the passed
      name is the stored one (a newer image is left alone). */
  predicate ClearsImage(stored: Option<string>, given: Option<string>)
  {
    stored == given || !Truthy(given)
  }

  /** deleteImage's database outcome; the row is read without a null check. */
  function DeleteImage(user: Option<User>, given: Option<string>): (r: Result<User>)
    ensures user.None? <==> r == Err(NullDereference)
    ensures r.Ok? ==> r.value == (if ClearsImage(user.value.imageName, given) then user.value.(imageName := None) else user.value)
  {
    match user
    case None => Err(NullDereference)
    case Some(u) => Ok(if ClearsImage(u.imageName, given) then u.(imageName := None) else u)
  }

  /** Deleting twice with the same name is deleting once, and a name other
      than the stored one never clears it. */
  lemma DeleteImageIdempotent(u: User, given: Option<string>)
    ensures DeleteImage(Some(DeleteImage(Some(u), given).value), given) == DeleteImage(Some(u), given)
    ensures Truthy(given) && u.imageName != given ==> DeleteImage(Some(u), given) == Ok(u)
  {
  }

  // ---------------------------------------------------------------- finance account

  /** getFinanceAccountId over the row and whichever company lists the
      query loaded (None: the association was not included). */
  function FinanceAccountId(user: Option<User>, owned: Option<seq<Company>>, membered: Option<seq<Company>>)
    : (r: Result<Option<nat>>)
    ensures user.None? ==> r == Err(NullDereference)
    ensures user.Some? && owned.None? && (membered.None? || |membered.value| <= 1) ==> r == Err(NullDereference)
  {
    if user.None? then Err(NullDereference)
    else if (owned.Some? && |owned.value| > 1) || (membered.Some? && |membered.value| > 1) then Err(NotImplemented)
    else if owned.None? then Err(NullDereference)
    else if owned.value != [] && owned.value[0].financeAccountId.Some? then Ok(owned.value[0].financeAccountId)
    else if membered.None? then Err(NullDereference)
    else if membered.value != [] then Ok(membered.value[0].financeAccountId)
    else Ok(None)
  }

  /** As written: getById includes only the role, so the company lists are
      never loaded and every call on an existing user fails. */
  function FinanceAccountIdAsWritten(user: Option<User>): (r: Result<Option<nat>>)
    ensures r.Err?
  {
    FinanceAccountId(user, None, None)
  }

  lemma FinanceAccountIdAsWrittenAlwaysFails(u: User)
    ensures FinanceAccountIdAsWritten(Some(u)) == Err(NullDereference)
  {
  }

  /** Evidently intended: with both company lists loaded, more than one
      company of either kind is not implemented; otherwise the owned
      company's account, else the membered company's, else none. */
  function FinanceAccountIdLoaded(user: Option<User>): (r: Result<Option<nat>>)
    ensures user.None? <==> r == Err(NullDereference)
    ensures user.Some? ==>
      (r == Err(NotImplemented) <==> |user.value.ownedCompanies| > 1 || |user.value.memberedCompanies| > 1)
    ensures r.Ok? && r.value.Some? ==>
      (exists c :: c in user.value.ownedCompanies && c.financeAccountId == r.value) ||
      (exists c :: c in user.value.memberedCompanies && c.financeAccountId == r.value)
    ensures user.Some? && |user.value.ownedCompanies| <= 1 && |user.value.memberedCompanies| <= 1 ==>
      var owned := user.value.ownedCompanies;
      var membered := user.value.memberedCompanies;
      r == Ok(if owned != [] && owned[0].financeAccountId.Some? then owned[0].financeAccountId
              else if membered != [] then membered[0].financeAccountId
              else None)
  {
    if user.None? then Err(NullDereference)
    else FinanceAccountId(user, Some(user.value.ownedCompanies), Some(user.value.memberedCompanies))
  }

  /** The owned company's account wins over the membered company's; an
      owned company without an account falls back to the membered one. */
  lemma OwnedAccountFirst(u: User, owner: Company, member: Company)
    ensures owner.financeAccountId.Some? ==>
      FinanceAccountIdLoaded(Some(u.(ownedCompanies := [owner], memberedCompanies := [member]))) == Ok(owner.financeAccountId)
    ensures owner.financeAccountId.None? ==>
      FinanceAccountIdLoaded(Some(u.(ownedCompanies := [owner], memberedCompanies := [member]))) == Ok(member.financeAccountId)
    ensures FinanceAccountIdLoaded(Some(u.(ownedCompanies := [owner], memberedCompanies := []))) == Ok(owner.financeAccountId)
    ensures FinanceAccountIdLoaded(Some(u.(ownedCompanies := [], memberedCompanies := [member]))) == Ok(member.financeAccountId)
    ensures FinanceAccountIdLoaded(Some(u.(ownedCompanies := [], memberedCompanies := []))) == Ok(None)
  {
  }
}
