/**
 * schemas/auth_reset.py and schemas/schemas_rbac.py: the request and
 * response bodies, as the field constraints and defaults their pydantic
 * models declare. A body arrives as fields that may be missing; validation
 * either builds the model or rejects the body.
 */
module Schemas {
  import opened Wrappers
  import opened Text
  import opened Store

  /** A field of an incoming body: left out, or given with a value (which may itself be null). */
  datatype Field<T> = Missing | Given(value: T)

  /** A required field: present, whatever its value. */
  function Required<T>(f: Field<T>): (r: Option<T>)
    ensures r.Some? <==> f.Given?
    ensures r.Some? ==> r.value == f.value
  {
    if f.Given? then Some(f.value) else None
  }

  /** A field with a default: the given value, or the default when left out. */
  function WithDefault<T>(f: Field<T>, default: T): (r: T)
    ensures f.Missing? ==> r == default
    ensures f.Given? ==> r == f.value
  {
    if f.Given? then f.value else default
  }

  /**
   * `SixDigits`: exactly six characters, each matched by `\d`. The pattern
   * engine reads `\d` as any decimal digit of Unicode (category Nd), not only
   * ASCII; that table is the parameter `isDecimal`.
   */
  predicate SixDigits(s: string, isDecimal: char -> bool) {
    |s| == 6 && forall i :: 0 <= i < |s| ==> isDecimal(s[i])
  }

  /** Six ASCII digits, the codes this service itself writes. */
  predicate AsciiSixDigits(s: string) {
    |s| == 6 && forall i :: 0 <= i < |s| ==> IsAsciiDigit(s[i])
  }

  /** The Unicode digit table holds the ASCII digits. */
  predicate HasAsciiDigits(isDecimal: char -> bool) {
    forall c :: IsAsciiDigit(c) ==> isDecimal(c)
  }

  /** Six ASCII digits pass the code check under any digit table that holds them. */
  lemma AsciiCodeIsSixDigits(s: string, isDecimal: char -> bool)
    requires AsciiSixDigits(s) && HasAsciiDigits(isDecimal)
    ensures SixDigits(s, isDecimal)
  {
    forall i | 0 <= i < |s| ensures isDecimal(s[i]) {
      assert IsAsciiDigit(s[i]);
    }
  }

  /** `StringConstraints(min_length=..., max_length=...)`, counted in characters. */
  predicate LengthWithin(s: string, min: nat, max: Option<nat>) {
    min <= |s| && (max.Some? ==> |s| <= max.value)
  }

  /*
   * `EmailStr` is the parameter `emailStr`: the address as the e-mail
   * validator normalises it (the domain lower-cased), or None when the
   * validator rejects it.
   */

  datatype ForgotVerifyIn = ForgotVerifyIn(email: string, code: string)

  /**
   * `ForgotVerifyIn`: both fields required, the e-mail valid and kept in its
   * normalised form, the code six digits.
   */
  function ParseForgotVerifyIn(email: Field<string>, code: Field<string>,
                               emailStr: string -> Option<string>, isDecimal: char -> bool)
    : (r: Option<ForgotVerifyIn>)
    ensures r.Some? <==> && email.Given? && code.Given?
                         && emailStr(email.value).Some? && SixDigits(code.value, isDecimal)
    ensures r.Some? ==> r.value.email == emailStr(email.value).value && r.value.code == code.value
  {
    if email.Given? && code.Given? && SixDigits(code.value, isDecimal) then
      match emailStr(email.value)
      case None => None
      case Some(e) => Some(ForgotVerifyIn(e, code.value))
    else None
  }

  datatype ResetPasswordIn = ResetPasswordIn(email: string, code: string, newPassword: string, resetToken: string)

  /**
   * `ResetPasswordIn`: every field required, a valid e-mail kept normalised,
   * a six-digit code, a new password of at least 6 characters.
   */
  function ParseResetPasswordIn(email: Field<string>, code: Field<string>, newPassword: Field<string>,
                                resetToken: Field<string>, emailStr: string -> Option<string>,
                                isDecimal: char -> bool): (r: Option<ResetPasswordIn>)
    ensures r.Some? <==> (&& email.Given? && code.Given? && newPassword.Given? && resetToken.Given?
                          && emailStr(email.value).Some? && SixDigits(code.value, isDecimal)
                          && |newPassword.value| >= 6)
    ensures r.Some? ==> && r.value.email == emailStr(email.value).value && r.value.code == code.value
                        && r.value.newPassword == newPassword.value && r.value.resetToken == resetToken.value
  {
    if && email.Given? && code.Given? && newPassword.Given? && resetToken.Given?
       && SixDigits(code.value, isDecimal) && LengthWithin(newPassword.value, 6, None)
    then
      match emailStr(email.value)
      case None => None
      case Some(e) => Some(ResetPasswordIn(e, code.value, newPassword.value, resetToken.value))
    else None
  }

  datatype UserCreate = UserCreate(
    name: string, cpf: string, email: string, phone: Option<string>,
    validFrom: Option<Day>, validTo: Option<Day>, password: string)

  /**
   * `UserCreate`: name, cpf, a valid email (kept normalised) and a password
   * of at least 6 characters required; phone and the validity dates default
   * to None.
   */
  function ParseUserCreate(name: Field<string>, cpf: Field<string>, email: Field<string>,
                           phone: Field<Option<string>>, validFrom: Field<Option<Day>>,
                           validTo: Field<Option<Day>>, password: Field<string>,
                           emailStr: string -> Option<string>): (r: Option<UserCreate>)
    ensures r.Some? <==> (&& name.Given? && cpf.Given? && email.Given? && password.Given?
                          && emailStr(email.value).Some? && |password.value| >= 6)
    ensures r.Some? ==> && r.value.name == name.value && r.value.cpf == cpf.value
                        && r.value.email == emailStr(email.value).value
                        && r.value.password == password.value
                        && r.value.phone == (if phone.Given? then phone.value else None)
                        && r.value.validFrom == (if validFrom.Given? then validFrom.value else None)
                        && r.value.validTo == (if validTo.Given? then validTo.value else None)
  {
    if && name.Given? && cpf.Given? && email.Given? && password.Given?
       && LengthWithin(password.value, 6, None)
    then
      match emailStr(email.value)
      case None => None
      case Some(e) =>
        Some(UserCreate(name.value, cpf.value, e, WithDefault(phone, None),
                        WithDefault(validFrom, None), WithDefault(validTo, None), password.value))
    else None
  }

  datatype TokenOut = TokenOut(accessToken: string, tokenType: string, refreshToken: string)

  /** `TokenOut`: the access and refresh tokens required, the type "Bearer" unless given. */
  function ParseTokenOut(accessToken: Field<string>, tokenType: Field<string>, refreshToken: Field<string>)
    : (r: Option<TokenOut>)
    ensures r.Some? <==> accessToken.Given? && refreshToken.Given?
    ensures r.Some? ==> r.value.accessToken == accessToken.value && r.value.refreshToken == refreshToken.value
    ensures r.Some? && tokenType.Missing? ==> r.value.tokenType == "Bearer"
  {
    if accessToken.Given? && refreshToken.Given? then
      Some(TokenOut(accessToken.value, WithDefault(tokenType, "Bearer"), refreshToken.value))
    else None
  }

  datatype UserGroupCreate = UserGroupCreate(name: string, description: Option<string>, reportIds: seq<string>)

  /**
   * `UserGroupCreate`: a name of 2 to 100 characters, an optional description
   * of at most 300, and the report ids, empty unless given.
   */
  function ParseUserGroupCreate(name: Field<string>, description: Field<Option<string>>, reportIds: Field<seq<string>>)
    : (r: Option<UserGroupCreate>)
    ensures r.Some? <==> (&& name.Given? && 2 <= |name.value| <= 100
                          && (description.Given? && description.value.Some? ==> |description.value.value| <= 300))
    ensures r.Some? ==> && r.value.name == name.value
                        && (description.Missing? ==> r.value.description == None)
                        && (reportIds.Missing? ==> r.value.reportIds == [])
  {
    var d := WithDefault(description, None);
    if name.Given? && LengthWithin(name.value, 2, Some(100)) && (d.Some? ==> LengthWithin(d.value, 0, Some(300))) then
      Some(UserGroupCreate(name.value, d, WithDefault(reportIds, [])))
    else None
  }

  datatype UserGroupOut = UserGroupOut(name: string, description: Option<string>, reportIds: seq<string>)

  /**
   * `UserGroupOut`: the name and the (nullable) description required, the
   * report ids empty unless given.
   */
  function ParseUserGroupOut(name: Field<string>, description: Field<Option<string>>, reportIds: Field<seq<string>>)
    : (r: Option<UserGroupOut>)
    ensures r.Some? <==> name.Given? && description.Given?
    ensures r.Some? ==> && r.value.name == name.value && r.value.description == description.value
                        && (reportIds.Missing? ==> r.value.reportIds == [])
  {
    if name.Given? && description.Given? then
      Some(UserGroupOut(name.value, description.value, WithDefault(reportIds, [])))
    else None
  }

  /** A token response holding all three fields parses back to itself. */
  lemma TokenOutRoundTrip(t: TokenOut)
    ensures ParseTokenOut(Given(t.accessToken), Given(t.tokenType), Given(t.refreshToken)) == Some(t)
  {
  }

  /**
   * A stored user group read through `from_attributes` (the row has no
   * `report_ids`, so the default applies) is a valid `UserGroupOut` with the
   * row's name and description.
   */
  lemma UserGroupOutFromRow(g: UserGroup)
    ensures ParseUserGroupOut(Given(g.name), Given(g.description), Missing) == Some(UserGroupOut(g.name, g.description, []))
  {
  }

  /**
   * Every accepted `UserGroupCreate` fits the `user_groups` columns: the name
   * within `String(120)` and the description within `String(300)`.
   */
  lemma AcceptedGroupFitsColumns(name: Field<string>, description: Field<Option<string>>, reportIds: Field<seq<string>>)
    requires ParseUserGroupCreate(name, description, reportIds).Some?
    ensures var x := ParseUserGroupCreate(name, description, reportIds).value;
      1 <= |x.name| <= 120 && (x.description.Some? ==> |x.description.value| <= 300)
  {
  }
}
