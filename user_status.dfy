/**
 * services/user_status.py: a pending user whose validity window holds
 * today is promoted to approved; nobody else is touched. The date is the
 * `today` argument.
 */
module UserStatusWindow {
  import opened Wrappers
  import opened Store

  /** Both bounds are inclusive, and a missing bound does not restrict. */
  predicate InsideWindow(u: User, today: Day) {
    (u.validFrom.None? || today >= u.validFrom.value) && (u.validTo.None? || today <= u.validTo.value)
  }

  /** The status `enforce_validity_window` leaves the user with. */
  function WindowStatus(u: User, today: Day): (s: UserStatus)
    ensures s == Approved <==> u.status == Approved || (u.status == Pending && InsideWindow(u, today))
    ensures s == Blocked <==> u.status == Blocked
    ensures s == Pending <==> u.status == Pending && !InsideWindow(u, today)
  {
    if u.status == Pending && InsideWindow(u, today) then Approved else u.status
  }

  /** The flag the function computes by successive reassignment, and the update it makes. */
  method EnforceValidityWindow(db: Database, u: User, today: Day) returns (updated: User)
    requires db.Valid() && u in db.users
    modifies db`users
    ensures db.Valid()
    ensures updated == u.(status := WindowStatus(u, today))
    ensures db.users == if updated.status == u.status then old(db.users) else SetStatus(old(db.users), u.id, Approved)
  {
    var insideWindow := true;
    if u.validFrom.Some? && today < u.validFrom.value {
      insideWindow := false;
    }
    if u.validTo.Some? && today > u.validTo.value {
      insideWindow := false;
    }
    assert insideWindow == InsideWindow(u, today);
    updated := u;
    if u.status == Pending && insideWindow {
      updated := u.(status := Approved);
      db.SetUserStatus(u.id, Approved);
    }
  }

  /** Only a pending user changes, to approved: no user is ever demoted, and approved or blocked users stay. */
  lemma PromotionOnly(u: User, today: Day)
    ensures WindowStatus(u, today) == u.status || (u.status == Pending && WindowStatus(u, today) == Approved)
    ensures u.status != Pending ==> WindowStatus(u, today) == u.status
  {
  }

  /** Enforcing the window twice on the same day is enforcing it once. */
  lemma WindowIdempotent(u: User, today: Day)
    ensures WindowStatus(u.(status := WindowStatus(u, today)), today) == WindowStatus(u, today)
  {
  }
}
