/** backend/utils/user.py: the checks a new user's fields pass before the
    account is created. The users already stored are given as a sequence of
    rows; each field value is the text `str()` gives for it. */
module UserUtils {
  import opened PyStr
  import opened Outcomes
  import EmailUtils

  /** The stored user the duplicate query compares against. */
  datatype UserRow = UserRow(username: string, email: string)

  const RequiredFields: seq<string> := ["username", "email", "role"]
  const BadRequest: nat := 400
  const ShapeMessage: string := "Email must contain '@' and end with '.com'"
  const DuplicateMessage: string := "User with this username or email already exists"

  function EmptyFieldMessage(field: string): string {
    field + " cannot be empty"
  }

  /** `not user.get(field) or str(user.get(field)).strip() == ""` */
  predicate IsMissing(user: map<string, string>, field: string)
    ensures IsMissing(user, field) <==>
      field !in user || forall i :: 0 <= i < |user[field]| ==> IsSpace(user[field][i])
  {
    field !in user || user[field] == [] || Strip(user[field]) == []
  }

  /** The loop over the required fields: the first one, in order, that is
      missing or blank. */
  function FirstMissing(fields: seq<string>, user: map<string, string>): (r: Option<string>)
    ensures r.Some? ==> exists k :: 0 <= k < |fields| && fields[k] == r.value && IsMissing(user, r.value)
                                    && forall j :: 0 <= j < k ==> !IsMissing(user, fields[j])
    ensures r.None? <==> forall k :: 0 <= k < |fields| ==> !IsMissing(user, fields[k])
  {
    if fields == [] then None
    else if IsMissing(user, fields[0]) then Some(fields[0])
    else
      var r := FirstMissing(fields[1..], user);
      LaterMissing(fields, user, r);
      r
  }

  /** A field found missing past the first was found after a present one. */
  lemma LaterMissing(fields: seq<string>, user: map<string, string>, r: Option<string>)
    requires fields != [] && !IsMissing(user, fields[0])
    requires r.Some? ==> exists k :: 0 <= k < |fields[1..]| && fields[1..][k] == r.value && IsMissing(user, r.value)
                                     && forall j :: 0 <= j < k ==> !IsMissing(user, fields[1..][j])
    ensures r.Some? ==> exists k :: 0 <= k < |fields| && fields[k] == r.value && IsMissing(user, r.value)
                                    && forall j :: 0 <= j < k ==> !IsMissing(user, fields[j])
  {
    if r.Some? {
      var k :| 0 <= k < |fields[1..]| && fields[1..][k] == r.value && IsMissing(user, r.value)
               && forall j :: 0 <= j < k ==> !IsMissing(user, fields[1..][j]);
      assert fields[k + 1] == r.value;
      forall j | 0 <= j < k + 1
        ensures !IsMissing(user, fields[j])
      {
        if j > 0 { assert fields[j] == fields[1..][j - 1]; }
      }
    }
  }

  /** `"@" in email and email.endswith(".com")`, case-sensitive. */
  predicate HasUserEmailShape(email: string)
    ensures HasUserEmailShape(email) ==> |email| >= 5 && email[|email| - 4..] == ".com"
  {
    '@' in email && EndsWith(email, ".com")
  }

  /** The database query: some stored user has the username or the email. */
  predicate IsTaken(db: seq<UserRow>, username: string, email: string) {
    exists k :: 0 <= k < |db| && (db[k].username == username || db[k].email == email)
  }

  /** `validate_user_input(user, db)`: the required fields in order, then the
      address's shape, then the duplicate lookup; every refusal is a 400. */
  function ValidateUserInput(user: map<string, string>, db: seq<UserRow>): (r: Outcome<Raised>)
    ensures FirstMissing(RequiredFields, user).Some? ==>
              r == Fail(HttpException(BadRequest, EmptyFieldMessage(FirstMissing(RequiredFields, user).value)))
    ensures FirstMissing(RequiredFields, user).None? && !HasUserEmailShape(user["email"]) ==>
              r == Fail(HttpException(BadRequest, ShapeMessage))
    ensures r.Pass? <==> (forall k :: 0 <= k < |RequiredFields| ==> !IsMissing(user, RequiredFields[k]))
                         && HasUserEmailShape(user["email"]) && !IsTaken(db, user["username"], user["email"])
    ensures r.Fail? ==> r.error.HttpException? && r.error.status == BadRequest
  {
    match FirstMissing(RequiredFields, user)
    case Some(field) => Fail(HttpException(BadRequest, EmptyFieldMessage(field)))
    case None =>
      assert !IsMissing(user, RequiredFields[1]);
      var email := user["email"];
      if !HasUserEmailShape(email) then Fail(HttpException(BadRequest, ShapeMessage))
      else if IsTaken(db, user["username"], email) then Fail(HttpException(BadRequest, DuplicateMessage))
      else Pass
  }

  lemma FirstMissingHead(fields: seq<string>, user: map<string, string>)
    requires fields != [] && IsMissing(user, fields[0])
    ensures FirstMissing(fields, user) == Some(fields[0])
  {
  }

  lemma FirstMissingTail(fields: seq<string>, user: map<string, string>)
    requires fields != [] && !IsMissing(user, fields[0])
    ensures FirstMissing(fields, user) == FirstMissing(fields[1..], user)
  {
  }

  /** The first missing field is the one the refusal names. */
  lemma MissingFieldReported(user: map<string, string>, db: seq<UserRow>, field: string)
    requires FirstMissing(RequiredFields, user) == Some(field)
    ensures ValidateUserInput(user, db) == Fail(HttpException(BadRequest, EmptyFieldMessage(field)))
  {
  }

  lemma FieldMessages()
    ensures EmptyFieldMessage("username") == "username cannot be empty"
    ensures EmptyFieldMessage("email") == "email cannot be empty"
  {
  }

  /** A missing username is reported before anything else is looked at. */
  lemma UsernameReportedFirst(user: map<string, string>, db: seq<UserRow>)
    requires IsMissing(user, "username")
    ensures ValidateUserInput(user, db) == Fail(HttpException(BadRequest, "username cannot be empty"))
  {
    UsernameFirstMissing(user);
    MissingFieldReported(user, db, "username");
    FieldMessages();
  }

  lemma UsernameFirstMissing(user: map<string, string>)
    requires IsMissing(user, "username")
    ensures FirstMissing(RequiredFields, user) == Some("username")
  {
    assert RequiredFields[0] == "username";
    FirstMissingHead(RequiredFields, user);
  }

  /** With the username present, a missing email is reported whatever the role. */
  lemma EmailReportedBeforeRole(user: map<string, string>, db: seq<UserRow>)
    requires !IsMissing(user, "username") && IsMissing(user, "email")
    ensures ValidateUserInput(user, db) == Fail(HttpException(BadRequest, "email cannot be empty"))
  {
    EmailFirstMissing(user);
    MissingFieldReported(user, db, "email");
    FieldMessages();
  }

  lemma EmailFirstMissing(user: map<string, string>)
    requires !IsMissing(user, "username") && IsMissing(user, "email")
    ensures FirstMissing(RequiredFields, user) == Some("email")
  {
    assert RequiredFields[0] == "username" && RequiredFields[1..] == ["email", "role"];
    FirstMissingTail(RequiredFields, user);
    FirstMissingHead(["email", "role"], user);
  }

  /** The shape is refused before the database is consulted: the stored users
      do not change the answer. */
  lemma ShapeBeforeDuplicate(user: map<string, string>, db1: seq<UserRow>, db2: seq<UserRow>)
    requires FirstMissing(RequiredFields, user).None? && "email" in user
    requires !HasUserEmailShape(user["email"])
    ensures ValidateUserInput(user, db1) == ValidateUserInput(user, db2)
                                       == Fail(HttpException(BadRequest, ShapeMessage))
  {
  }

  /** A stored user with the same username or the same email blocks the new one. */
  lemma DuplicateRefused(user: map<string, string>, db: seq<UserRow>, k: nat)
    requires FirstMissing(RequiredFields, user).None? && "username" in user && "email" in user
    requires HasUserEmailShape(user["email"])
    requires k < |db| && (db[k].username == user["username"] || db[k].email == user["email"])
    ensures ValidateUserInput(user, db) == Fail(HttpException(BadRequest, DuplicateMessage))
  {
  }

  /** The user check is stricter than `validate_email`: an address it accepts
      is accepted there too. */
  lemma StricterThanValidateEmail(email: string)
    requires HasUserEmailShape(email)
    ensures EmailUtils.ValidateEmail(email) == Success(email)
  {
    var n := |email|;
    assert Lower(email)[n - 4..n] == ".com" by {
      forall i | n - 4 <= i < n
        ensures Lower(email)[i] == ".com"[i - (n - 4)]
      {
        assert email[i] == ".com"[i - (n - 4)];
      }
    }
    var at :| 0 <= at < n && email[at] == '@';
    EmailUtils.AcceptedAt(email, at, n - 4);
  }

  /** ... and not the other way round: `a@b.COM` passes `validate_email` but
      not the case-sensitive suffix check here. */
  lemma UpperCaseSuffixRefused()
    ensures EmailUtils.ValidateEmail("a@b.COM").Success?
    ensures !HasUserEmailShape("a@b.COM")
  {
    EmailUtils.LooseDotCom();
    assert "a@b.COM"[3..] != ".com" by { assert "a@b.COM"[4] == 'C'; }
  }
}
