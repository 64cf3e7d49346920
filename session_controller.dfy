/** The session handlers (`controllers/session.controller.js`): listing a
    user's sessions, terminating one or all of them, refreshing a session
    and the session statistics. Every clock reading is a parameter. */
module SessionController {
  import opened Common
  import opened RoleModel
  import opened SessionModel
  import UserModel

  /** The error answers of the session handlers. */
  datatype SessionError = SessionNotFound | NotAllowed | InvalidRefreshToken

  /** The HTTP status each error is answered with. */
  function Status(e: SessionError): int
  {
    match e
    case SessionNotFound => 404
    case NotAllowed => 403
    case InvalidRefreshToken => 401
  }

  // ---------------------------------------------------------------------
  // getUserSessions

  /** The session is one `getUserSessions` lists for `userId`. */
  predicate Listed(s: Session, userId: UserId)
  {
    s.userId == userId && s.isActive
  }

  /** Every id names a stored session. */
  predicate AllStored(sessions: Sessions, ids: seq<SessionId>)
  {
    forall i :: 0 <= i < |ids| ==> ids[i] in sessions
  }

  /** Most recent activity first. */
  predicate SortedByActivity(sessions: Sessions, ids: seq<SessionId>)
    requires AllStored(sessions, ids)
  {
    forall i, j :: 0 <= i < j < |ids| ==> sessions[ids[i]].lastActivity >= sessions[ids[j]].lastActivity
  }

  /** The ids in `scan` whose sessions are listed for `userId`, in scan order. */
  function Matching(sessions: Sessions, scan: seq<SessionId>, userId: UserId): (ids: seq<SessionId>)
    requires AllStored(sessions, scan)
    ensures AllStored(sessions, ids)
    ensures forall id :: id in ids <==> id in scan && Listed(sessions[id], userId)
    ensures Distinct(scan) ==> Distinct(ids)
    decreases |scan|
  {
    if |scan| == 0 then []
    else
      var rest := Matching(sessions, scan[1..], userId);
      assert forall id :: id in rest ==> id in scan[1..];
      if Listed(sessions[scan[0]], userId) then
        assert Distinct(scan) ==> scan[0] !in scan[1..];
        [scan[0]] + rest
      else rest
  }

  /** Places `id` before the first session with less recent activity. */
  function Insert(sessions: Sessions, id: SessionId, sorted: seq<SessionId>): (r: seq<SessionId>)
    requires id in sessions && AllStored(sessions, sorted)
    ensures AllStored(sessions, r)
    ensures multiset(r) == multiset(sorted) + multiset{id}
    decreases |sorted|
  {
    if |sorted| == 0 || sessions[id].lastActivity >= sessions[sorted[0]].lastActivity then
      [id] + sorted
    else
      assert sorted == [sorted[0]] + sorted[1..];
      [sorted[0]] + Insert(sessions, id, sorted[1..])
  }

  /** Inserting into a sorted listing keeps it sorted. */
  lemma {:induction false} InsertSorted(sessions: Sessions, id: SessionId, sorted: seq<SessionId>)
    requires id in sessions && AllStored(sessions, sorted) && SortedByActivity(sessions, sorted)
    ensures SortedByActivity(sessions, Insert(sessions, id, sorted))
    decreases |sorted|
  {
    if |sorted| > 0 && sessions[id].lastActivity < sessions[sorted[0]].lastActivity {
      var rest := Insert(sessions, id, sorted[1..]);
      InsertSorted(sessions, id, sorted[1..]);
      var head := sessions[sorted[0]].lastActivity;
      forall j | 0 <= j < |rest|
        ensures head >= sessions[rest[j]].lastActivity
      {
        var x := rest[j];
        assert x in multiset(rest);
        if x != id {
          assert x in multiset(sorted[1..]);
          var k :| 0 <= k < |sorted[1..]| && sorted[1..][k] == x;
          assert sorted[k + 1] == x;
        }
      }
      var r := [sorted[0]] + rest;
      assert Insert(sessions, id, sorted) == r;
      forall i, j | 0 <= i < j < |r|
        ensures sessions[r[i]].lastActivity >= sessions[r[j]].lastActivity
      {
        if i > 0 {
          assert r[i] == rest[i - 1] && r[j] == rest[j - 1];
        } else {
          assert r[j] == rest[j - 1];
        }
      }
    }
  }

  /** `sort({ lastActivity: -1 })`. */
  function SortByActivity(sessions: Sessions, ids: seq<SessionId>): (r: seq<SessionId>)
    requires AllStored(sessions, ids)
    ensures AllStored(sessions, r) && SortedByActivity(sessions, r)
    ensures multiset(r) == multiset(ids)
    decreases |ids|
  {
    if |ids| == 0 then []
    else
      assert ids == [ids[0]] + ids[1..];
      var rest := SortByActivity(sessions, ids[1..]);
      InsertSorted(sessions, ids[0], rest);
      Insert(sessions, ids[0], rest)
  }

  /** A rearrangement keeps the absence of repeats. */
  lemma SameMultisetDistinct(a: seq<SessionId>, b: seq<SessionId>)
    requires multiset(a) == multiset(b) && Distinct(a)
    ensures Distinct(b)
  {
    forall i, j | 0 <= i < j < |b|
      ensures b[i] != b[j]
    {
      if b[i] == b[j] {
        var x := b[i];
        assert multiset(b[..j])[x] >= 1 by {
          assert b[..j][i] == x;
        }
        assert b == b[..j] + b[j..];
        assert b[j..][0] == x;
        assert multiset(b)[x] >= 2;
        CountAtMostOne(a, x);
        assert false;
      }
    }
  }

  /** Without repeats every id occurs at most once. */
  lemma {:induction false} CountAtMostOne(a: seq<SessionId>, x: SessionId)
    requires Distinct(a)
    ensures multiset(a)[x] <= 1
    decreases |a|
  {
    if |a| > 0 {
      assert a == [a[0]] + a[1..];
      CountAtMostOne(a[1..], x);
      if a[0] == x {
        assert x !in a[1..];
      }
    }
  }

  /** `getUserSessions(userId)`: the user's active sessions, most recently
      used first. `scan` is the order in which the collection lists its
      documents, each once. */
  function GetUserSessions(sessions: Sessions, scan: seq<SessionId>, userId: UserId): (listed: seq<SessionId>)
    requires forall id :: id in scan <==> id in sessions
    requires Distinct(scan)
    ensures AllStored(sessions, listed) && SortedByActivity(sessions, listed) && Distinct(listed)
    ensures forall id :: id in listed <==> id in sessions && Listed(sessions[id], userId)
  {
    var matching := Matching(sessions, scan, userId);
    var listed := SortByActivity(sessions, matching);
    SameMultisetDistinct(matching, listed);
    assert forall id :: id in listed <==> id in multiset(listed);
    assert forall id :: id in matching <==> id in multiset(matching);
    listed
  }

  // ---------------------------------------------------------------------
  // terminateSession

  /** The value `req.user.role` holds once `protect` has populated it: the
      role document, or `null` for a role that is no longer stored. It is
      never a string. */
  datatype RoleField = RoleDocument(name: string) | NullRole

  /** `req.user.role` for the authenticated user `uid`. */
  function PopulatedRole(users: map<UserId, UserModel.User>, store: Store, uid: UserId): (role: RoleField)
    requires uid in users
    ensures role.RoleDocument? <==> users[uid].role in store
    ensures role.RoleDocument? ==> role.name == store[users[uid].role].name
  {
    if users[uid].role in store then RoleDocument(store[users[uid].role].name) else NullRole
  }

  /** JavaScript `===` between the role field and a string literal: a
      document or `null` is never strictly equal to a string. */
  function StrictEqualsString(v: RoleField, s: string): (eq: bool)
    ensures !eq
  {
    false
  }

  /** The ownership check as written: the caller owns the session, or the
      role field is strictly equal to `'admin'`. */
  function MayTerminateAsWritten(s: Session, callerId: UserId, role: RoleField): (ok: bool)
  {
    s.userId == callerId || StrictEqualsString(role, "admin")
  }

  /** The ownership check as intended: the caller owns the session, or the
      caller's role is named `admin`. */
  function MayTerminate(s: Session, callerId: UserId, role: RoleField): (ok: bool)
    ensures ok <==> s.userId == callerId || (role.RoleDocument? && role.name == "admin")
  {
    s.userId == callerId || (role.RoleDocument? && role.name == "admin")
  }

  /** As written, an administrator can never terminate another user's
      session; the intended check lets them. */
  lemma AdminRefusedAsWritten(users: map<UserId, UserModel.User>, store: Store, uid: UserId, s: Session)
    requires uid in users && users[uid].role in store && store[users[uid].role].name == "admin"
    requires s.userId != uid
    ensures !MayTerminateAsWritten(s, uid, PopulatedRole(users, store, uid))
    ensures MayTerminate(s, uid, PopulatedRole(users, store, uid))
  {
  }

  /** As written, only owners pass the check, whatever the caller's role. */
  lemma OnlyOwnersAsWritten(s: Session, callerId: UserId, role: RoleField)
    ensures MayTerminateAsWritten(s, callerId, role) <==> s.userId == callerId
  {
  }

  /** `terminateSession(sessionId)` by the caller `callerId` whose
      populated role field is `role`: 404 for a missing session, 403 for
      someone else's session unless the caller is an administrator;
      otherwise only that session becomes inactive. */
  method TerminateSession(store: SessionStore, callerId: UserId, role: RoleField, sessionId: SessionId)
    returns (result: Result<(), SessionError>)
    modifies store
    ensures result == Err(SessionNotFound) <==> sessionId !in old(store.sessions)
    ensures result == Err(NotAllowed) <==>
      sessionId in old(store.sessions) && !MayTerminate(old(store.sessions)[sessionId], callerId, role)
    ensures result.Err? ==> store.sessions == old(store.sessions)
    ensures result.Ok? ==> store.sessions == old(store.sessions)[sessionId := old(store.sessions)[sessionId].(isActive := false)]
  {
    if sessionId !in store.sessions {
      return Err(SessionNotFound);
    }
    var session := store.sessions[sessionId];
    if !MayTerminate(session, callerId, role) {
      return Err(NotAllowed);
    }
    store.sessions := store.sessions[sessionId := session.(isActive := false)];
    result := Ok(());
  }

  // ---------------------------------------------------------------------
  // terminateAllSessions

  /** The session is matched by the bulk update of `terminateAllSessions`:
      an active session of `userId` other than the excluded one. */
  predicate Terminated(id: SessionId, s: Session, userId: UserId, exclude: Option<SessionId>)
  {
    s.userId == userId && s.isActive && (exclude.None? || id != exclude.value)
  }

  /** The ids the bulk update matches. */
  function TerminatedIds(sessions: Sessions, userId: UserId, exclude: Option<SessionId>): (ids: set<SessionId>)
    ensures forall id :: id in ids <==> id in sessions && Terminated(id, sessions[id], userId, exclude)
  {
    set id | id in sessions && Terminated(id, sessions[id], userId, exclude)
  }

  /** The collection after the bulk update: matched sessions become
      inactive, every other session is as before. */
  function DeactivateAll(sessions: Sessions, userId: UserId, exclude: Option<SessionId>): (after: Sessions)
    ensures after.Keys == sessions.Keys
    ensures forall id :: id in after && Terminated(id, sessions[id], userId, exclude) ==>
      after[id] == sessions[id].(isActive := false)
    ensures forall id :: id in after && !Terminated(id, sessions[id], userId, exclude) ==> after[id] == sessions[id]
  {
    map id | id in sessions :: if Terminated(id, sessions[id], userId, exclude) then sessions[id].(isActive := false) else sessions[id]
  }

  /** `terminateAllSessions(userId, excludeCurrentSession)`: every active
      session of the user except the excluded one is deactivated; the
      answer is how many were modified. */
  method TerminateAllSessions(store: SessionStore, userId: UserId, exclude: Option<SessionId>) returns (terminated: nat)
    modifies store
    ensures store.sessions == DeactivateAll(old(store.sessions), userId, exclude)
    ensures terminated == |TerminatedIds(old(store.sessions), userId, exclude)|
  {
    terminated := |TerminatedIds(store.sessions, userId, exclude)|;
    store.sessions := DeactivateAll(store.sessions, userId, exclude);
  }

  /** After the bulk update the user has no live session left but possibly
      the excluded one, and every other user keeps all of theirs. */
  lemma DeactivateAllEffect(sessions: Sessions, userId: UserId, exclude: Option<SessionId>, now: Millis)
    ensures forall id :: id in ActiveSessions(DeactivateAll(sessions, userId, exclude), userId, now) ==>
      exclude == Some(id)
    ensures ActiveSessionsCount(DeactivateAll(sessions, userId, exclude), userId, now) <= (if exclude.Some? then 1 else 0)
    ensures forall other :: other != userId ==>
      ActiveSessions(DeactivateAll(sessions, userId, exclude), other, now) == ActiveSessions(sessions, other, now)
  {
    var after := DeactivateAll(sessions, userId, exclude);
    var live := ActiveSessions(after, userId, now);
    if exclude.Some? {
      assert live <= {exclude.value};
      SubsetCard(live, {exclude.value});
    } else {
      assert live == {};
    }
  }

  // ---------------------------------------------------------------------
  // refreshSession

  /** One day, the lifetime a refresh grants. */
  const Day: int := 24 * 60 * 60 * 1000

  /** The session is a candidate of `findOne({ refreshToken, isActive: true })`. */
  predicate Presents(s: Session, refreshToken: string)
  {
    s.refreshToken == refreshToken && s.isActive
  }

  /** `refreshSession(refreshToken)` at `now`: some active session carrying
      the token is looked up; if there is none, or it has expired, the
      answer is 401; otherwise it expires a day from now and its last
      activity is now. */
  method RefreshSession(store: SessionStore, refreshToken: string, now: Millis) returns (result: Result<SessionId, SessionError>)
    modifies store
    ensures result.Err? ==> result.error == InvalidRefreshToken && store.sessions == old(store.sessions)
    ensures result.Err? ==>
      (forall id :: id in old(store.sessions) ==> !Presents(old(store.sessions)[id], refreshToken))
      || (exists id :: id in old(store.sessions) && Presents(old(store.sessions)[id], refreshToken)
                       && IsExpired(old(store.sessions)[id], now))
    ensures result.Ok? ==>
      var id := result.value;
      id in old(store.sessions) && Presents(old(store.sessions)[id], refreshToken)
      && !IsExpired(old(store.sessions)[id], now)
      && store.sessions == old(store.sessions)[id := old(store.sessions)[id].(expiresAt := now + Day, lastActivity := now)]
    ensures (exists id :: id in old(store.sessions) && Presents(old(store.sessions)[id], refreshToken))
      && (forall id :: id in old(store.sessions) && Presents(old(store.sessions)[id], refreshToken) ==>
            !IsExpired(old(store.sessions)[id], now))
      ==> result.Ok?
  {
    if !exists id :: id in store.sessions && Presents(store.sessions[id], refreshToken) {
      return Err(InvalidRefreshToken);
    }
    var id :| id in store.sessions && Presents(store.sessions[id], refreshToken);
    var session := store.sessions[id];
    if IsExpired(session, now) {
      return Err(InvalidRefreshToken);
    }
    store.sessions := store.sessions[id := session.(expiresAt := now + Day, lastActivity := now)];
    result := Ok(id);
  }

  /** A refreshed session stays live for the whole next day and needs no
      refresh until five minutes before its end. */
  lemma RefreshedIsLive(s: Session, now: Millis, t: Millis)
    requires s.isActive
    ensures now <= t < now + Day ==> CountsAsActive(s.(expiresAt := now + Day, lastActivity := now), t)
    ensures !NeedsRefresh(s.(expiresAt := now + Day, lastActivity := now), t, DefaultRefreshThreshold)
      <==> t < now + Day - DefaultRefreshThreshold
  {
  }

  // ---------------------------------------------------------------------
  // getSessionStats

  /** The session is counted as expired by the statistics: inactive, or its
      expiry is not after `now`. */
  predicate CountsAsExpired(s: Session, now: Millis)
  {
    !s.isActive || s.expiresAt <= now
  }

  /** The ids of live sessions at `now`, over all users. */
  function LiveIds(sessions: Sessions, now: Millis): (ids: set<SessionId>)
    ensures forall id :: id in ids <==> id in sessions && CountsAsActive(sessions[id], now)
  {
    set id | id in sessions && CountsAsActive(sessions[id], now)
  }

  /** The ids of sessions counted as expired at `now`. */
  function ExpiredIds(sessions: Sessions, now: Millis): (ids: set<SessionId>)
    ensures forall id :: id in ids <==> id in sessions && CountsAsExpired(sessions[id], now)
  {
    set id | id in sessions && CountsAsExpired(sessions[id], now)
  }

  datatype Stats = Stats(activeSessions: nat, expiredSessions: nat, totalSessions: nat)

  /** The statistics as written: the two counts read the clock separately,
      at `now1` and at `now2`, and the total is their sum. */
  function SessionStatsAsWritten(sessions: Sessions, now1: Millis, now2: Millis): Stats
  {
    var active := |LiveIds(sessions, now1)|;
    var expired := |ExpiredIds(sessions, now2)|;
    Stats(active, expired, active + expired)
  }

  /** A session that expires between the two readings is counted twice, so
      the total exceeds the number of sessions. */
  lemma StatsDoubleCountAsWritten()
    ensures
      var sessions := map[0 := Session(1, "t", "r", true, 0, 5)];
      SessionStatsAsWritten(sessions, 4, 5).totalSessions == 2 && |sessions| == 1
  {
    var sessions := map[0 := Session(1, "t", "r", true, 0, 5)];
    assert LiveIds(sessions, 4) == {0};
    assert ExpiredIds(sessions, 5) == {0};
  }

  /** With the readings in clock order the written statistics never count
      fewer sessions than there are. */
  lemma StatsAsWrittenOvercount(sessions: Sessions, now1: Millis, now2: Millis)
    requires now1 <= now2
    ensures SessionStatsAsWritten(sessions, now1, now2).totalSessions >= |sessions|
  {
    var live, expired := LiveIds(sessions, now1), ExpiredIds(sessions, now2);
    assert sessions.Keys <= live + expired;
    SubsetCard(sessions.Keys, live + expired);
  }

  /** `getSessionStats` with one clock reading `now`: live and expired
      sessions partition the collection, so the total is its size. */
  function GetSessionStats(sessions: Sessions, now: Millis): (stats: Stats)
    ensures stats.activeSessions == |LiveIds(sessions, now)|
    ensures stats.expiredSessions == |ExpiredIds(sessions, now)|
    ensures stats.totalSessions == |sessions|
  {
    var live, expired := LiveIds(sessions, now), ExpiredIds(sessions, now);
    assert live !! expired;
    assert live + expired == sessions.Keys;
    Stats(|live|, |expired|, |live| + |expired|)
  }

  /** Right after a clean-up at `now`, the only sessions the statistics call
      expired are active ones expiring exactly at `now`: clean-up deletes
      expiries strictly before `now`, the statistics count those at `now`. */
  lemma ExpiredAfterCleanup(sessions: Sessions, now: Millis)
    ensures forall id :: id in ExpiredIds(Survivors(sessions, now), now) ==>
      sessions[id].isActive && sessions[id].expiresAt == now
  {
  }
}
