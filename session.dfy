/** The session document (`models/Session.js`): expiry and refresh
    predicates over an explicit clock reading `now`, activity stamping, the
    clean-up of expired or inactive sessions and the per-user count of live
    sessions. */
module SessionModel {
  import opened Common

  /** The fields of a session document the model reads. Device information
      and the MFA flag are carried by the source but never decided on. */
  datatype Session = Session(userId: UserId, token: string, refreshToken: string, isActive: bool, lastActivity: Millis, expiresAt: Millis)

  /** The session collection, keyed by document id. */
  type Sessions = map<SessionId, Session>

  /** The default of `needsRefresh`: five minutes. */
  const DefaultRefreshThreshold: int := 5 * 60 * 1000

  /** `isExpired()`: the clock has passed the expiry instant. */
  predicate IsExpired(s: Session, now: Millis)
  {
    now > s.expiresAt
  }

  /** `needsRefresh(threshold)`: at most `threshold` milliseconds remain. */
  predicate NeedsRefresh(s: Session, now: Millis, threshold: int)
  {
    s.expiresAt - now <= threshold
  }

  /** The session is counted as live: active and expiring after `now`. */
  predicate CountsAsActive(s: Session, now: Millis)
  {
    s.isActive && s.expiresAt > now
  }

  /** The session is deleted by `cleanupExpired`: expired strictly before
      `now`, or inactive. */
  predicate Removable(s: Session, now: Millis)
  {
    s.expiresAt < now || !s.isActive
  }

  /** An expired session needs a refresh for any non-negative threshold. */
  lemma ExpiredNeedsRefresh(s: Session, now: Millis, threshold: int)
    requires threshold >= 0
    ensures IsExpired(s, now) ==> NeedsRefresh(s, now, threshold)
    ensures IsExpired(s, now) ==> NeedsRefresh(s, now, DefaultRefreshThreshold)
  {
  }

  /** At the expiry instant itself a session is neither expired, nor counted
      as live, nor removed by clean-up unless inactive. */
  lemma ExpiryInstant(s: Session, now: Millis)
    requires s.expiresAt == now
    ensures !IsExpired(s, now) && !CountsAsActive(s, now)
    ensures Removable(s, now) <==> !s.isActive
  {
  }

  /** A live session is never removed by clean-up at the same instant. */
  lemma LiveNotRemovable(s: Session, now: Millis)
    ensures CountsAsActive(s, now) ==> !Removable(s, now)
  {
  }

  /** The ids of the sessions `cleanupExpired` deletes. */
  function Removed(sessions: Sessions, now: Millis): (ids: set<SessionId>)
    ensures forall id :: id in ids <==> id in sessions && Removable(sessions[id], now)
  {
    set id | id in sessions && Removable(sessions[id], now)
  }

  /** The collection left by `cleanupExpired`. */
  function Survivors(sessions: Sessions, now: Millis): (kept: Sessions)
    ensures forall id :: id in kept <==> id in sessions && !Removable(sessions[id], now)
    ensures forall id :: id in kept ==> kept[id] == sessions[id]
  {
    map id | id in sessions && !Removable(sessions[id], now) :: sessions[id]
  }

  /** Clean-up splits the collection: what it deletes and what it keeps
      together make up all the sessions. */
  lemma CleanupPartition(sessions: Sessions, now: Millis)
    ensures |Removed(sessions, now)| + |Survivors(sessions, now)| == |sessions|
  {
    var gone, kept := Removed(sessions, now), Survivors(sessions, now).Keys;
    assert gone !! kept;
    assert gone + kept == sessions.Keys;
  }

  /** Cleaning up twice at the same instant deletes nothing more. */
  lemma CleanupIdempotent(sessions: Sessions, now: Millis)
    ensures Survivors(Survivors(sessions, now), now) == Survivors(sessions, now)
    ensures Removed(Survivors(sessions, now), now) == {}
  {
    var once := Survivors(sessions, now);
    assert Survivors(once, now).Keys == once.Keys;
  }

  /** The ids of `userId`'s live sessions. */
  function ActiveSessions(sessions: Sessions, userId: UserId, now: Millis): (ids: set<SessionId>)
    ensures forall id :: id in ids <==> id in sessions && sessions[id].userId == userId && CountsAsActive(sessions[id], now)
  {
    set id | id in sessions && sessions[id].userId == userId && CountsAsActive(sessions[id], now)
  }

  /** `getActiveSessionsCount(userId)`. */
  function ActiveSessionsCount(sessions: Sessions, userId: UserId, now: Millis): (count: nat)
    ensures count <= |sessions|
  {
    assert ActiveSessions(sessions, userId, now) <= sessions.Keys;
    SubsetCard(ActiveSessions(sessions, userId, now), sessions.Keys);
    |ActiveSessions(sessions, userId, now)|
  }

  /** Clean-up never changes how many live sessions a user has. */
  lemma CleanupKeepsActiveCount(sessions: Sessions, userId: UserId, now: Millis)
    ensures ActiveSessionsCount(Survivors(sessions, now), userId, now) == ActiveSessionsCount(sessions, userId, now)
  {
    assert ActiveSessions(Survivors(sessions, now), userId, now) == ActiveSessions(sessions, userId, now);
  }

  /** The session collection, updated in place. */
  class SessionStore {
    var sessions: Sessions

    constructor (initial: Sessions)
      ensures sessions == initial
    {
      sessions := initial;
    }

    /** `updateActivity()` on the stored session `id`: only its last activity
        changes, to `now`. */
    method UpdateActivity(id: SessionId, now: Millis)
      requires id in sessions
      modifies this
      ensures sessions == old(sessions)[id := old(sessions)[id].(lastActivity := now)]
    {
      sessions := sessions[id := sessions[id].(lastActivity := now)];
    }

    /** `cleanupExpired()`: deletes every expired or inactive session and
        answers how many were deleted. */
    method CleanupExpired(now: Millis) returns (deletedCount: nat)
      modifies this
      ensures sessions == Survivors(old(sessions), now)
      ensures deletedCount == |Removed(old(sessions), now)|
      ensures deletedCount + |sessions| == |old(sessions)|
    {
      deletedCount := |Removed(sessions, now)|;
      CleanupPartition(sessions, now);
      sessions := Survivors(sessions, now);
    }
  }
}
