/**
 The advisory edit lock kept per sale id under `solis_edit_lock:<saleId>`
 (api/edit-lock.js). A POST carries an action (`acquire`, `release`,
 `refresh`, `force_release`), a sale id and a user id. Another user's lock
 expires lazily: `acquire` takes it over once it has been held five whole
 minutes. `refresh` checks ownership; `release` and `force_release` do not.
 */
module EditLock {
  import opened Common
  import opened Store

  datatype Request = Request(
    verb: HttpMethod,
    action: Option<string>,
    saleId: Option<string>,
    userId: Option<string>)

  datatype Body =
    | NoContent
    | Failure(error: string)
    | Held(error: string, lockedBy: string, timeHeld: int)   // 423
    | Granted(message: string, lock: Lock)                   // acquire, refresh
    | Cleared(message: string)                               // release, force_release

  const AcquireAction := "acquire"
  const ReleaseAction := "release"
  const RefreshAction := "refresh"
  const ForceReleaseAction := "force_release"

  const MillisPerMinute := 60000
  /** Another user's lock is taken over once held this many whole minutes. */
  const StaleMinutes := 5
  /** The expiry (`ex: 300`) the store attaches to every lock write, in milliseconds. */
  const TtlMillis := 300 * 1000

  /** `Math.floor((now - timestamp) / 60000)`: with a positive divisor,
      Dafny's division already rounds toward negative infinity. */
  function MinutesHeld(lock: Lock, now: int): int {
    (now - lock.timestamp) / MillisPerMinute
  }

  /** The lock on `key` belongs to someone other than `userId` and is still fresh. */
  predicate BlocksOther(st: Store, key: string, userId: string, now: int) {
    key in st.locks && st.locks[key].userId != userId && MinutesHeld(st.locks[key], now) < StaleMinutes
  }

  /** `st'` differs from `st` at most in the lock stored under `key`. */
  ghost predicate OnlyLockChanged(st: Store, st': Store, key: string) {
    && st' == st.(locks := st'.locks)
    && forall k :: k != key ==>
         (k in st'.locks <==> k in st.locks) && (k in st.locks ==> st'.locks[k] == st.locks[k])
  }

  function Acquire(st: Store, saleId: Option<string>, userId: Option<string>, now: int): (r: Reply<Body>)
    ensures r.status == StatusOk || r.status == StatusBadRequest || r.status == StatusLocked
    ensures r.status == StatusBadRequest <==> !Truthy(saleId) || !Truthy(userId)
    ensures r.status == StatusLocked <==>
              Truthy(saleId) && Truthy(userId) && BlocksOther(st, saleId.value, userId.value, now)
    ensures r.status != StatusOk ==> r.store == st
    ensures r.status == StatusLocked ==>
              var holder := st.locks[saleId.value];
              r.body.Held? && r.body.lockedBy == holder.userId && r.body.timeHeld == MinutesHeld(holder, now)
    ensures r.status == StatusOk ==>
              var lock := Lock(userId.value, saleId.value, now);
              r.store == st.(locks := st.locks[saleId.value := lock]) && r.body == Granted("Edit lock acquired", lock)
  {
    if !Truthy(saleId) || !Truthy(userId) then
      Reply(st, StatusBadRequest, Failure("saleId and userId are required for acquire"))
    else
      var key, user := saleId.value, userId.value;
      if key in st.locks && st.locks[key].userId != user && MinutesHeld(st.locks[key], now) < StaleMinutes then
        Reply(st, StatusLocked,
              Held("Sale is currently being edited by another user", st.locks[key].userId, MinutesHeld(st.locks[key], now)))
      else
        // another user's stale lock is deleted before the new one is written
        var cleared := if key in st.locks && st.locks[key].userId != user then st.locks - {key} else st.locks;
        var lock := Lock(user, key, now);
        Reply(st.(locks := cleared[key := lock]), StatusOk, Granted("Edit lock acquired", lock))
  }

  /** `release` and `force_release`: delete the lock, whoever holds it. */
  function Clear(st: Store, saleId: Option<string>, action: string, message: string): (r: Reply<Body>)
    ensures r.status == StatusOk <==> Truthy(saleId)
    ensures r.status != StatusOk ==> r.status == StatusBadRequest && r.store == st
    ensures r.status == StatusOk ==>
              saleId.value !in r.store.locks && r.store == st.(locks := st.locks - {saleId.value})
  {
    if !Truthy(saleId) then
      Reply(st, StatusBadRequest, Failure("saleId is required for " + action))
    else
      Reply(st.(locks := st.locks - {saleId.value}), StatusOk, Cleared(message))
  }

  function Refresh(st: Store, saleId: Option<string>, userId: Option<string>, now: int): (r: Reply<Body>)
    ensures r.status == StatusOk || r.status == StatusBadRequest || r.status == StatusForbidden
    ensures r.status == StatusBadRequest <==> !Truthy(saleId) || !Truthy(userId)
    ensures r.status == StatusForbidden <==>
              Truthy(saleId) && Truthy(userId) &&
              (saleId.value !in st.locks || st.locks[saleId.value].userId != userId.value)
    ensures r.status != StatusOk ==> r.store == st
    ensures r.status == StatusOk ==>
              var old_ := st.locks[saleId.value];
              var lock := Lock(old_.userId, old_.saleId, now);
              old_.userId == userId.value &&
              r.store == st.(locks := st.locks[saleId.value := lock]) && r.body == Granted("Edit lock refreshed", lock)
  {
    if !Truthy(saleId) || !Truthy(userId) then
      Reply(st, StatusBadRequest, Failure("saleId and userId are required for refresh"))
    else
      var key := saleId.value;
      if key !in st.locks || st.locks[key].userId != userId.value then
        Reply(st, StatusForbidden, Failure("Lock not held by this user or expired"))
      else
        var refreshed := st.locks[key].(timestamp := now);
        Reply(st.(locks := st.locks[key := refreshed]), StatusOk, Granted("Edit lock refreshed", refreshed))
  }

  /** The whole handler: method check, action check, then dispatch. */
  function Handle(st: Store, req: Request, now: int): (r: Reply<Body>)
    ensures req.verb == OPTIONS ==> r == Reply(st, StatusOk, NoContent)
    ensures req.verb != OPTIONS && req.verb != POST ==> r.status == StatusMethodNotAllowed && r.store == st
    ensures req.verb == POST && !Truthy(req.action) ==> r.status == StatusBadRequest && r.store == st
    ensures req.verb == POST && Truthy(req.action) &&
            req.action.value != AcquireAction && req.action.value != ReleaseAction &&
            req.action.value != RefreshAction && req.action.value != ForceReleaseAction
            ==> r.status == StatusBadRequest && r.store == st
    ensures r.store == st || (Truthy(req.saleId) && OnlyLockChanged(st, r.store, req.saleId.value))
  {
    if req.verb == OPTIONS then Reply(st, StatusOk, NoContent)
    else if req.verb != POST then Reply(st, StatusMethodNotAllowed, Failure("Method not allowed"))
    else if !Truthy(req.action) then Reply(st, StatusBadRequest, Failure("Action is required"))
    else if req.action.value == AcquireAction then Acquire(st, req.saleId, req.userId, now)
    else if req.action.value == ReleaseAction then Clear(st, req.saleId, ReleaseAction, "Edit lock released")
    else if req.action.value == RefreshAction then Refresh(st, req.saleId, req.userId, now)
    else if req.action.value == ForceReleaseAction then
      Clear(st, req.saleId, ForceReleaseAction, "Edit lock force released")
    else Reply(st, StatusBadRequest, Failure("Invalid action"))
  }

  /* ---------- The intended lock life cycle, and the handler against it ---------- */

  datatype LockState = Unlocked | Locked(owner: string, since: int)

  datatype Action = AcquireBy(user: string) | ReleaseAny | RefreshBy(user: string) | ForceReleaseAny

  datatype Transition = Transition(next: LockState, accepted: bool)

  /** The per-sale state the handler's store encodes. */
  function View(st: Store, saleId: string): LockState {
    if saleId in st.locks then Locked(st.locks[saleId].userId, st.locks[saleId].timestamp) else Unlocked
  }

  /** The intended life cycle of one sale's lock, unlocked or locked(owner, since), stated in
      elapsed milliseconds rather than whole minutes: anyone may acquire an unlocked sale, the
      owner may re-acquire or refresh, another user takes the lock over once five minutes have
      passed, and either release empties it. */
  function LifeCycle(s: LockState, a: Action, now: int): Transition {
    match a
    case AcquireBy(u) =>
      if s.Unlocked? || s.owner == u || now - s.since >= 5 * 60 * 1000 then Transition(Locked(u, now), true)
      else Transition(s, false)
    case RefreshBy(u) =>
      if s.Locked? && s.owner == u then Transition(Locked(u, now), true) else Transition(s, false)
    case ReleaseAny => Transition(Unlocked, true)
    case ForceReleaseAny => Transition(Unlocked, true)
  }

  /** The POST request that performs `a` on `saleId`; release requests may carry any user id. */
  function ActionRequest(a: Action, saleId: string, anyUser: Option<string>): Request {
    match a
    case AcquireBy(u) => Request(POST, Some(AcquireAction), Some(saleId), Some(u))
    case RefreshBy(u) => Request(POST, Some(RefreshAction), Some(saleId), Some(u))
    case ReleaseAny => Request(POST, Some(ReleaseAction), Some(saleId), anyUser)
    case ForceReleaseAny => Request(POST, Some(ForceReleaseAction), Some(saleId), anyUser)
  }

  /** Whole minutes held reach five exactly when five minutes of milliseconds have elapsed. */
  lemma StaleIffFiveMinutesElapsed(lock: Lock, now: int)
    ensures MinutesHeld(lock, now) >= StaleMinutes <==> now - lock.timestamp >= TtlMillis
  {
    var age := now - lock.timestamp;
    var q := age / MillisPerMinute;
    assert age == q * MillisPerMinute + age % MillisPerMinute;
    assert 0 <= age % MillisPerMinute < MillisPerMinute;
    if q >= StaleMinutes {
      assert q * MillisPerMinute >= StaleMinutes * MillisPerMinute;
    } else {
      assert q <= StaleMinutes - 1;
      assert q * MillisPerMinute <= (StaleMinutes - 1) * MillisPerMinute;
    }
  }

  /** For a named sale and user, the handler moves the sale's lock exactly as the intended
      life cycle does, and answers 200 exactly when the life cycle accepts the action. */
  lemma HandlerFollowsLifeCycle(st: Store, saleId: string, a: Action, anyUser: Option<string>, now: int)
    requires saleId != ""
    requires (a.AcquireBy? || a.RefreshBy?) ==> a.user != ""
    ensures var r := Handle(st, ActionRequest(a, saleId, anyUser), now);
            var t := LifeCycle(View(st, saleId), a, now);
            View(r.store, saleId) == t.next && (r.status == StatusOk <==> t.accepted)
  {
    if a.AcquireBy? && saleId in st.locks {
      StaleIffFiveMinutesElapsed(st.locks[saleId], now);
    }
  }

  /** The store's own expiry (`ex: 300`): a lock written at `timestamp` may vanish once
      300 seconds have passed. */
  function Expire(st: Store, saleId: string, now: int): (st': Store)
    ensures OnlyLockChanged(st, st', saleId)
    ensures saleId in st'.locks ==> saleId in st.locks && st'.locks[saleId] == st.locks[saleId]
    ensures saleId in st.locks && saleId !in st'.locks ==> now - st.locks[saleId].timestamp >= TtlMillis
  {
    if saleId in st.locks && now - st.locks[saleId].timestamp >= TtlMillis then st.(locks := st.locks - {saleId})
    else st
  }

  /** The store's expiry and the handler's five-minute takeover agree: an acquire cannot tell
      whether the store has already dropped an expired lock. */
  lemma ExpiryInvisibleToAcquire(st: Store, saleId: string, userId: string, now: int)
    requires saleId != "" && userId != ""
    ensures var req := Request(POST, Some(AcquireAction), Some(saleId), Some(userId));
            Handle(Expire(st, saleId, now), req, now) == Handle(st, req, now)
  {
    if saleId in st.locks {
      StaleIffFiveMinutesElapsed(st.locks[saleId], now);
      if now - st.locks[saleId].timestamp >= TtlMillis {
        assert (st.locks - {saleId})[saleId := Lock(userId, saleId, now)]
            == st.locks[saleId := Lock(userId, saleId, now)];
      }
    }
  }

  /** Once `a` has acquired the lock at `t`, any other user asking before the lock is five
      minutes old is refused with 423, told that `a` holds it, and changes nothing. */
  lemma AcquireExcludesOthers(st: Store, saleId: string, a: string, b: string, t: int, t': int)
    requires saleId != "" && a != "" && b != "" && a != b
    requires Handle(st, Request(POST, Some(AcquireAction), Some(saleId), Some(a)), t).status == StatusOk
    requires t' < t + TtlMillis
    ensures var st1 := Handle(st, Request(POST, Some(AcquireAction), Some(saleId), Some(a)), t).store;
            var r := Handle(st1, Request(POST, Some(AcquireAction), Some(saleId), Some(b)), t');
            r.status == StatusLocked && r.body.lockedBy == a && r.store == st1
  {
    var st1 := Handle(st, Request(POST, Some(AcquireAction), Some(saleId), Some(a)), t).store;
    StaleIffFiveMinutesElapsed(st1.locks[saleId], t');
  }

  /** After five minutes, another user's acquire takes the lock over. */
  lemma StaleLockChangesHands(st: Store, saleId: string, a: string, b: string, t: int, t': int)
    requires saleId != "" && a != "" && b != ""
    requires Handle(st, Request(POST, Some(AcquireAction), Some(saleId), Some(a)), t).status == StatusOk
    requires t' >= t + TtlMillis
    ensures var st1 := Handle(st, Request(POST, Some(AcquireAction), Some(saleId), Some(a)), t).store;
            var r := Handle(st1, Request(POST, Some(AcquireAction), Some(saleId), Some(b)), t');
            r.status == StatusOk && r.store.locks[saleId] == Lock(b, saleId, t')
  {
    var st1 := Handle(st, Request(POST, Some(AcquireAction), Some(saleId), Some(a)), t).store;
    StaleIffFiveMinutesElapsed(st1.locks[saleId], t');
  }

  /** `release` and `force_release` have the same effect and status, whatever user ids they carry. */
  lemma ReleaseMatchesForceRelease(st: Store, saleId: Option<string>, u1: Option<string>, u2: Option<string>, now: int)
    ensures var r1 := Handle(st, Request(POST, Some(ReleaseAction), saleId, u1), now);
            var r2 := Handle(st, Request(POST, Some(ForceReleaseAction), saleId, u2), now);
            r1.store == r2.store && r1.status == r2.status
  {
  }
}
