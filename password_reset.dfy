/**
 * services/password_reset.py: the life of a password-reset link record,
 * created with a hashed token and an expiry, valid while unused, unexpired
 * and matching, and then marked used. The random token, the record's uuid,
 * the hash and the clock are parameters.
 */
module PasswordResets {
  import opened Wrappers
  import opened Query
  import opened Store

  /** The record `create_password_reset` inserts: unused, expiring `expiresSeconds` from now, storing the hash only. */
  function NewReset(resetId: string, userId: UserId, rawToken: string, hash: string -> string,
                    now: Instant, expiresSeconds: int): (p: PasswordReset)
    ensures p.resetId == resetId && p.userId == userId
    ensures p.usedAt == None && p.expiresAt == now + expiresSeconds && p.tokenHash == hash(rawToken)
  {
    PasswordReset(resetId, userId, hash(rawToken), now + expiresSeconds, None)
  }

  /**
   * `create_password_reset`: one new record for the user; returns its id and
   * the raw token for the link. `resetId` is the uuid4 the column default
   * draws, fresh among the records.
   */
  method CreatePasswordReset(db: Database, u: User, rawToken: string, resetId: string,
                             hash: string -> string, now: Instant, expiresSeconds: int)
    returns (rid: string, token: string)
    requires db.Valid()
    requires forall p :: p in db.passwordResets ==> p.resetId != resetId
    modifies db`passwordResets
    ensures db.Valid()
    ensures db.passwordResets == old(db.passwordResets) + [NewReset(resetId, u.id, rawToken, hash, now, expiresSeconds)]
    ensures rid == resetId && token == rawToken
  {
    var pr := NewReset(resetId, u.id, rawToken, hash, now, expiresSeconds);
    ghost var before := db.passwordResets;
    db.passwordResets := db.passwordResets + [pr];
    assert UniqueResetIds(db.passwordResets) by {
      forall i, j | 0 <= i < j < |db.passwordResets|
        ensures db.passwordResets[i].resetId != db.passwordResets[j].resetId
      {
        if j == |before| { assert db.passwordResets[i] in before; }
      }
    }
    rid, token := resetId, rawToken;
  }

  /** `select(PasswordReset).where(PasswordReset.reset_id == reset_id).scalar_one_or_none()`. */
  function ResetById(resets: seq<PasswordReset>, resetId: string): (r: Option<PasswordReset>)
    ensures r.None? <==> forall p :: p in resets ==> p.resetId != resetId
    ensures r.Some? ==> r.value in resets && r.value.resetId == resetId
  {
    First(resets, (p: PasswordReset) => p.resetId == resetId)
  }

  /**
   * `get_valid_password_reset`: nothing for an unknown id, a used record, one
   * that expired before `now` (expiring exactly now is still valid) or a token
   * that does not verify against the stored hash; otherwise the record.
   */
  function GetValidPasswordReset(resets: seq<PasswordReset>, resetId: string, token: string, now: Instant,
                                 verify: (string, string) -> bool): (r: Option<PasswordReset>)
    ensures ResetById(resets, resetId).None? ==> r.None?
    ensures r.Some? <==> (&& ResetById(resets, resetId).Some?
                          && ResetById(resets, resetId).value.usedAt.None?
                          && now <= ResetById(resets, resetId).value.expiresAt
                          && verify(token, ResetById(resets, resetId).value.tokenHash))
    ensures r.Some? ==> r == ResetById(resets, resetId) && r.value in resets
  {
    var pr := ResetById(resets, resetId);
    if pr.None? then None
    else if pr.value.usedAt.Some? then None
    else if pr.value.expiresAt < now then None
    else if !verify(token, pr.value.tokenHash) then None
    else pr
  }

  /** `pr.used_at = now` on the record(s) with that id; every other record unchanged. */
  function MarkUsedIn(resets: seq<PasswordReset>, resetId: string, now: Instant): (r: seq<PasswordReset>)
    ensures |r| == |resets|
    ensures forall i :: 0 <= i < |resets| ==>
      r[i] == if resets[i].resetId == resetId then resets[i].(usedAt := Some(now)) else resets[i]
  {
    seq(|resets|, i requires 0 <= i < |resets| =>
      if resets[i].resetId == resetId then resets[i].(usedAt := Some(now)) else resets[i])
  }

  /** `mark_used`. */
  method MarkUsed(db: Database, pr: PasswordReset, now: Instant)
    requires db.Valid()
    modifies db`passwordResets
    ensures db.Valid()
    ensures db.passwordResets == MarkUsedIn(old(db.passwordResets), pr.resetId, now)
  {
    ghost var before := db.passwordResets;
    db.passwordResets := MarkUsedIn(db.passwordResets, pr.resetId, now);
    assert UniqueResetIds(db.passwordResets) by {
      forall i, j | 0 <= i < j < |db.passwordResets|
        ensures db.passwordResets[i].resetId != db.passwordResets[j].resetId
      {
        assert db.passwordResets[i].resetId == before[i].resetId;
        assert db.passwordResets[j].resetId == before[j].resetId;
      }
    }
  }

  /** Once a record is marked used, no token at any time makes its id valid again. */
  lemma {:induction false} UsedResetNeverValid(resets: seq<PasswordReset>, resetId: string, now: Instant,
                                               token: string, later: Instant, verify: (string, string) -> bool)
    ensures GetValidPasswordReset(MarkUsedIn(resets, resetId, now), resetId, token, later, verify).None?
  {
    var marked := MarkUsedIn(resets, resetId, now);
    var pr := ResetById(marked, resetId);
    if pr.Some? {
      var i :| 0 <= i < |marked| && marked[i] == pr.value;
      assert marked[i].usedAt == Some(now);
    }
  }

  /** A fresh record validates with its own raw token until it expires, given `verify(t, hash(t))`. */
  lemma FreshResetValid(resets: seq<PasswordReset>, resetId: string, userId: UserId, rawToken: string,
                        hash: string -> string, verify: (string, string) -> bool,
                        now: Instant, expiresSeconds: int, later: Instant)
    requires forall p :: p in resets ==> p.resetId != resetId
    requires verify(rawToken, hash(rawToken))
    requires later <= now + expiresSeconds
    ensures var after := resets + [NewReset(resetId, userId, rawToken, hash, now, expiresSeconds)];
      GetValidPasswordReset(after, resetId, rawToken, later, verify) == Some(after[|resets|])
  {
    var after := resets + [NewReset(resetId, userId, rawToken, hash, now, expiresSeconds)];
    assert ResetById(after, resetId) == Some(after[|resets|]) by {
      forall j | 0 <= j < |resets| ensures after[j].resetId != resetId {
        assert after[j] in resets;
      }
      FirstAt(after, (p: PasswordReset) => p.resetId == resetId, |resets|);
    }
  }
}
