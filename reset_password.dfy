/**
 * services/reset_password.py: `send_reset_code`, the six-digit code flow.
 * The e-mail is normalised and looked up; for a known user every open code
 * of that user is closed and one new code, drawn by the random source
 * (`value`), is recorded with a fifteen-minute expiry. The reply is the same
 * message either way. The clock is the `now` argument, in seconds.
 */
module ResetPassword {
  import opened Wrappers
  import opened Text
  import opened Store
  import opened Schemas

  /** `RESET_CODE_EXPIRY_MINUTES`. */
  const ResetCodeExpiryMinutes: int := 15

  /** The reply that does not reveal whether the address is registered. */
  const Generic: string := "Se o e-mail existir, enviaremos um código de redefinição."

  /** `(email or "").strip().lower()`. */
  function NormalizeEmail(email: Option<string>): (r: string)
    ensures email.None? ==> r == ""
    ensures email.Some? ==> r == Lower(Strip(email.value))
    ensures Lower(r) == r
  {
    var e := if email.Some? then email.value else "";
    LowerIdempotent(Strip(e));
    Lower(Strip(e))
  }

  /** The decimal digit character for `d`. */
  function DigitChar(d: nat): (c: char)
    requires d < 10
    ensures IsAsciiDigit(c) && c as int - '0' as int == d
  {
    ('0' as int + d) as char
  }

  /** `f"{v:0{width}d}"` for a value that fits: the last `width` decimal digits of `v`. */
  function PadDecimal(v: nat, width: nat): (s: string)
    ensures |s| == width
    ensures forall i :: 0 <= i < |s| ==> IsAsciiDigit(s[i])
  {
    if width == 0 then [] else PadDecimal(v / 10, width - 1) + [DigitChar(v % 10)]
  }

  /** The number a string of decimal digits spells. */
  function DecimalValue(s: string): (n: nat)
    requires forall i :: 0 <= i < |s| ==> IsAsciiDigit(s[i])
  {
    if |s| == 0 then 0
    else
      assert IsAsciiDigit(s[|s| - 1]);
      DecimalValue(s[..|s| - 1]) * 10 + (s[|s| - 1] as int - '0' as int)
  }

  function Pow10(n: nat): (p: nat)
    ensures p >= 1
  {
    if n == 0 then 1 else 10 * Pow10(n - 1)
  }

  /** Reading the padded digits back gives the value, whenever it has at most `width` digits. */
  lemma {:induction false} PadDecimalRoundTrip(v: nat, width: nat)
    requires v < Pow10(width)
    ensures DecimalValue(PadDecimal(v, width)) == v
  {
    if width > 0 {
      var s := PadDecimal(v, width);
      assert s[..|s| - 1] == PadDecimal(v / 10, width - 1);
      PadDecimalRoundTrip(v / 10, width - 1);
    }
  }

  /** `f"{secrets.randbelow(1_000_000):06d}"`, for the drawn value. */
  function ResetCodeText(value: nat): (code: string)
    requires value < 1000000
    ensures AsciiSixDigits(code)
    ensures DecimalValue(code) == value
  {
    assert Pow10(6) == 1000000;
    PadDecimalRoundTrip(value, 6);
    PadDecimal(value, 6)
  }

  /** Distinct draws give distinct codes, so the code carries the whole draw. */
  lemma ResetCodeTextInjective(a: nat, b: nat)
    requires a < 1000000 && b < 1000000
    ensures ResetCodeText(a) == ResetCodeText(b) ==> a == b
  {
    if ResetCodeText(a) == ResetCodeText(b) {
      assert DecimalValue(ResetCodeText(a)) == DecimalValue(ResetCodeText(b));
    }
  }

  /** The bulk `update({"used": True})` on the user's unused codes; every other row unchanged. */
  function CloseOpenCodes(codes: seq<ResetCode>, userId: UserId): (r: seq<ResetCode>)
    ensures |r| == |codes|
    ensures forall i :: 0 <= i < |codes| ==>
      r[i] == if codes[i].userId == userId && !codes[i].used then codes[i].(used := true) else codes[i]
  {
    seq(|codes|, i requires 0 <= i < |codes| =>
      if codes[i].userId == userId && !codes[i].used then codes[i].(used := true) else codes[i])
  }

  /** The record added for the user: the code, expiring fifteen minutes on, unused. */
  function NewCode(userId: UserId, value: nat, now: Instant): (c: ResetCode)
    requires value < 1000000
    ensures c.userId == userId && !c.used && AsciiSixDigits(c.code)
    ensures c.expiresAt - now == 15 * 60
  {
    ResetCode(userId, ResetCodeText(value), now + ResetCodeExpiryMinutes * 60, false)
  }

  /**
   * Every code this service writes passes the code check of the verification
   * and reset bodies, whichever Unicode digit table the validator uses.
   */
  lemma NewCodeParses(userId: UserId, value: nat, now: Instant, email: string, newPassword: string,
                      resetToken: string, emailStr: string -> Option<string>, isDecimal: char -> bool)
    requires value < 1000000 && HasAsciiDigits(isDecimal)
    requires emailStr(email).Some? && |newPassword| >= 6
    ensures var code := NewCode(userId, value, now).code;
      && ParseForgotVerifyIn(Given(email), Given(code), emailStr, isDecimal)
         == Some(ForgotVerifyIn(emailStr(email).value, code))
      && ParseResetPasswordIn(Given(email), Given(code), Given(newPassword), Given(resetToken), emailStr, isDecimal)
         == Some(ResetPasswordIn(emailStr(email).value, code, newPassword, resetToken))
  {
    AsciiCodeIsSixDigits(NewCode(userId, value, now).code, isDecimal);
  }

  /** The codes table after `send_reset_code`: unchanged for an unknown address. */
  function CodesAfterSend(users: seq<User>, codes: seq<ResetCode>, email: Option<string>, value: nat, now: Instant)
    : (r: seq<ResetCode>)
    requires value < 1000000
    ensures UserByEmail(users, NormalizeEmail(email)).None? ==> r == codes
    ensures UserByEmail(users, NormalizeEmail(email)).Some? ==>
      var u := UserByEmail(users, NormalizeEmail(email)).value;
      r == CloseOpenCodes(codes, u.id) + [NewCode(u.id, value, now)]
  {
    var user := UserByEmail(users, NormalizeEmail(email));
    if user.None? then codes else CloseOpenCodes(codes, user.value.id) + [NewCode(user.value.id, value, now)]
  }

  /** `send_reset_code`: the state change, and the same reply for known and unknown addresses. */
  method SendResetCode(db: Database, email: Option<string>, value: nat, now: Instant) returns (message: string)
    requires db.Valid()
    requires value < 1000000
    modifies db`resetCodes
    ensures db.Valid()
    ensures message == Generic
    ensures db.resetCodes == CodesAfterSend(old(db.users), old(db.resetCodes), email, value, now)
  {
    var emailNorm := NormalizeEmail(email);
    var user := UserByEmail(db.users, emailNorm);
    if user.Some? {
      var codes := CloseOpenCodes(db.resetCodes, user.value.id) + [NewCode(user.value.id, value, now)];
      db.ReplaceResetCodes(codes);
    }
    message := Generic;
  }

  /**
   * For a known address, afterwards the user has exactly one open code, the
   * new one; codes of other users are untouched and no code is reopened.
   */
  lemma {:induction false} SendLeavesOneOpenCode(users: seq<User>, codes: seq<ResetCode>, email: Option<string>,
                                                 value: nat, now: Instant)
    requires value < 1000000
    requires UserByEmail(users, NormalizeEmail(email)).Some?
    ensures var u := UserByEmail(users, NormalizeEmail(email)).value;
      var r := CodesAfterSend(users, codes, email, value, now);
      && |r| == |codes| + 1
      && r[|codes|] == NewCode(u.id, value, now)
      && (forall i :: 0 <= i < |codes| && r[i].userId == u.id ==> r[i].used)
      && (forall i :: 0 <= i < |codes| && codes[i].userId != u.id ==> r[i] == codes[i])
      && (forall i :: 0 <= i < |codes| && codes[i].used ==> r[i] == codes[i])
  {
    var u := UserByEmail(users, NormalizeEmail(email)).value;
    CloseThenAdd(codes, u.id, NewCode(u.id, value, now));
  }

  /** Closing the user's open codes and appending `c`: the old rows keep their place. */
  lemma CloseThenAdd(codes: seq<ResetCode>, userId: UserId, c: ResetCode)
    ensures var r := CloseOpenCodes(codes, userId) + [c];
      && |r| == |codes| + 1 && r[|codes|] == c
      && (forall i :: 0 <= i < |codes| && r[i].userId == userId ==> r[i].used)
      && (forall i :: 0 <= i < |codes| && codes[i].userId != userId ==> r[i] == codes[i])
      && (forall i :: 0 <= i < |codes| && codes[i].used ==> r[i] == codes[i])
  {
    var closed := CloseOpenCodes(codes, userId);
    var r := closed + [c];
    forall i | 0 <= i < |codes| ensures r[i] == closed[i] {
    }
  }

  /** Sending twice to the same address leaves exactly the second code open for that user. */
  lemma {:induction false} SecondSendClosesFirst(users: seq<User>, codes: seq<ResetCode>, email: Option<string>,
                                                 v1: nat, v2: nat, t1: Instant, t2: Instant)
    requires v1 < 1000000 && v2 < 1000000
    requires UserByEmail(users, NormalizeEmail(email)).Some?
    ensures var u := UserByEmail(users, NormalizeEmail(email)).value;
      var r := CodesAfterSend(users, CodesAfterSend(users, codes, email, v1, t1), email, v2, t2);
      && |r| == |codes| + 2
      && r[|codes|] == NewCode(u.id, v1, t1).(used := true)
      && r[|codes| + 1] == NewCode(u.id, v2, t2)
  {
    var first := CodesAfterSend(users, codes, email, v1, t1);
    SendLeavesOneOpenCode(users, codes, email, v1, t1);
    SendLeavesOneOpenCode(users, first, email, v2, t2);
  }
}
