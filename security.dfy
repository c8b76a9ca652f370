/**
 * services/security.py: the access-token payload and the resolution of the
 * optional `authorization` value into the current user. That parameter has
 * no `Header()` marker, so FastAPI takes it from the query string; the model
 * reads whatever string arrives. JWT encoding and decoding
 * are parameters; the clock is the `now` argument, in seconds.
 */
module Security {
  import opened Wrappers
  import opened Text
  import opened Store

  /** `ACCESS_TOKEN_EXPIRE_MINUTES = 60 * 8`. */
  const AccessTokenExpireMinutes: int := 60 * 8

  /** `{"sub": ..., "adm": ..., "exp": ...}`. */
  datatype TokenPayload = TokenPayload(sub: UserId, adm: bool, exp: Instant)

  /** The payload `create_access_token` signs: the user, the admin flag and an expiry eight hours on. */
  function AccessTokenPayload(sub: UserId, isAdmin: bool, now: Instant): (p: TokenPayload)
    ensures p.sub == sub && p.adm == isAdmin
    ensures p.exp - now == 480 * 60
  {
    TokenPayload(sub, isAdmin, now + AccessTokenExpireMinutes * 60)
  }

  /** `create_access_token`, with `encode` standing for `jwt.encode` under the secret key. */
  function CreateAccessToken(sub: UserId, isAdmin: bool, now: Instant, encode: TokenPayload -> string): (t: string)
    ensures t == encode(AccessTokenPayload(sub, isAdmin, now))
  {
    encode(AccessTokenPayload(sub, isAdmin, now))
  }

  /** What `jwt.decode` yields for a token: a `JWTError`, or claims whose `sub` may be absent. */
  datatype Decoded = JwtError | Claims(sub: Option<UserId>)

  /** The `authorization` value starts with "bearer ", ignoring case. */
  predicate IsBearer(authorization: string) {
    |authorization| >= 7 && Lower(authorization[..7]) == "bearer "
  }

  /** Index of the first space of `s`, or `|s|` when there is none. */
  function FirstSpace(s: string): (k: nat)
    ensures k <= |s|
    ensures k < |s| ==> s[k] == ' '
    ensures forall i :: 0 <= i < k ==> s[i] != ' '
  {
    if |s| == 0 || s[0] == ' ' then 0 else 1 + FirstSpace(s[1..])
  }

  /** `s.split(" ", 1)[1]`, for a string that holds a space: the text after the first one. */
  function AfterFirstSpace(s: string): (t: string)
    requires ' ' in s
    ensures exists k :: 0 <= k < |s| && s[k] == ' ' && (forall i :: 0 <= i < k ==> s[i] != ' ') && t == s[k + 1..]
  {
    var k := FirstSpace(s);
    var j :| 0 <= j < |s| && s[j] == ' ';
    assert k <= j;
    s[k + 1..]
  }

  /** For a bearer value the first space is the seventh character, so the token is the rest. */
  lemma BearerToken(authorization: string)
    requires IsBearer(authorization)
    ensures ' ' in authorization
    ensures AfterFirstSpace(authorization) == authorization[7..]
  {
    var l := Lower(authorization[..7]);
    assert forall i :: 0 <= i < 6 ==> authorization[i] != ' ' by {
      forall i | 0 <= i < 6 ensures authorization[i] != ' ' {
        assert l[i] == LowerChar(authorization[..7][i]);
      }
    }
    assert authorization[6] == ' ' by {
      assert l[6] == LowerChar(authorization[..7][6]);
    }
    assert FirstSpace(authorization) == 6 by {
      FirstSpaceAt(authorization, 6);
    }
  }

  lemma {:induction false} FirstSpaceAt(s: string, k: nat)
    requires k < |s| && s[k] == ' ' && forall i :: 0 <= i < k ==> s[i] != ' '
    ensures FirstSpace(s) == k
  {
    if k > 0 {
      FirstSpaceAt(s[1..], k - 1);
    }
  }

  /**
   * `get_current_user_optional`: no user for a missing, empty or non-bearer
   * `authorization` value; 401 when decoding fails or the claims carry no `sub`; 403 when no
   * user has that id or the user is not approved; otherwise the user.
   */
  function GetCurrentUserOptional(users: seq<User>, authorization: Option<string>, decode: string -> Decoded)
    : (r: Result<Option<User>, HttpError>)
    ensures authorization.None? || authorization.value == "" || !IsBearer(authorization.value) ==> r == Ok(None)
    ensures (&& authorization.Some? && IsBearer(authorization.value)
             && decode(authorization.value[7..]) == JwtError)
      ==> r == Err(HttpError(401, "Invalid token"))
    ensures (&& authorization.Some? && IsBearer(authorization.value)
             && decode(authorization.value[7..]) == Claims(None))
      ==> r == Err(HttpError(401, "Invalid token"))
    ensures r.Ok? && r.value.Some? ==>
      && authorization.Some? && IsBearer(authorization.value)
      && decode(authorization.value[7..]) == Claims(Some(r.value.value.id))
      && r.value.value in users && r.value.value.status == Approved
    ensures authorization.Some? && IsBearer(authorization.value) ==>
      var d := decode(authorization.value[7..]);
      d.Claims? && d.sub.Some? ==>
        var u := UserById(users, d.sub.value);
        r == if u.Some? && u.value.status == Approved then Ok(u) else Err(HttpError(403, "User not approved"))
    ensures r.Err? ==> r.error == HttpError(401, "Invalid token") || r.error == HttpError(403, "User not approved")
  {
    if authorization.None? || authorization.value == "" || !IsBearer(authorization.value) then Ok(None)
    else
      BearerToken(authorization.value);
      var token := AfterFirstSpace(authorization.value);
      match decode(token)
      case JwtError => Err(HttpError(401, "Invalid token"))
      case Claims(sub) =>
        if sub.None? then Err(HttpError(401, "Invalid token"))
        else
          var user := UserById(users, sub.value);
          if user.None? || user.value.status != Approved then Err(HttpError(403, "User not approved"))
          else Ok(Some(user.value))
  }
}
