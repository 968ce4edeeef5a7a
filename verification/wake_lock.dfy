/**
 * The bookkeeping of `useWakeLock`: whether the Screen Wake Lock API exists,
 * the sentinel held in `wakeLockRef`, and the `isActiveRef` flag. What the
 * platform answers (a request granted or rejected, a release that resolves or
 * throws) and when it revokes a lock are parameters and events, not modelled
 * behaviour.
 */
module WakeLock {
  import opened Wrappers

  /** A `WakeLockSentinel`; only its `released` attribute is observable to the hook. */
  datatype Sentinel = Sentinel(released: bool)

  /**
   * `supported` is `"wakeLock" in navigator`, `handle` is `wakeLockRef.current`
   * and `isActive` is `isActiveRef.current`. `strays` counts sentinels the
   * platform still holds but the hook no longer references: a new request
   * overwrites `wakeLockRef` without releasing what was there. Each of those
   * sentinels still carries the hook's `release` listener.
   */
  datatype Lock = Lock(supported: bool, handle: Option<Sentinel>, isActive: bool, strays: nat)

  /** What `navigator.wakeLock.request("screen")` does: resolve with a sentinel or reject. */
  datatype RequestOutcome = Granted | Rejected

  /** What `sentinel.release()` does: resolve or reject. */
  datatype ReleaseOutcome = Released | ReleaseFailed

  /** `requestWakeLock()`'s effect and the boolean its promise resolves to. */
  datatype Requested = Requested(lock: Lock, ok: bool)

  /** The refs when the hook mounts. */
  function Fresh(supported: bool): (l: Lock)
    ensures l.supported == supported && l.handle == None && !l.isActive
    ensures Inv(l) && LiveCount(l) == 0
  {
    Lock(supported, None, false, 0)
  }

  /**
   * `releaseWakeLock`'s guard: the hook references a sentinel the platform
   * has not released, which is exactly a reference to an unreleased sentinel.
   */
  predicate Held(l: Lock)
    ensures Held(l) <==> l.handle == Some(Sentinel(false))
  {
    l.handle.Some? && !l.handle.value.released
  }

  /** Number of unreleased sentinels the platform holds for this page. */
  function LiveCount(l: Lock): nat {
    l.strays + if Held(l) then 1 else 0
  }

  /** The flag claims a lock only while the hook references an unreleased sentinel. */
  predicate Inv(l: Lock) {
    l.isActive ==> Held(l)
  }

  /**
   * `requestWakeLock`. Unsupported: resolves to false and touches nothing.
   * Granted: the new sentinel replaces the reference (the old one, if still
   * held, stays held by the platform) and the flag is set. Rejected: the
   * exception is caught before any assignment, so nothing changes.
   */
  function Request(l: Lock, outcome: RequestOutcome): (r: Requested)
    ensures r.ok <==> l.supported && outcome == Granted
    ensures r.ok ==> r.lock.handle == Some(Sentinel(false)) && r.lock.isActive
    ensures r.ok ==> r.lock.supported == l.supported && LiveCount(r.lock) == LiveCount(l) + 1
    ensures !r.ok ==> r.lock == l
    ensures Inv(l) ==> Inv(r.lock)
  {
    if !l.supported then Requested(l, false)
    else match outcome
      case Rejected => Requested(l, false)
      case Granted =>
        var strays := if Held(l) then l.strays + 1 else l.strays;
        Requested(Lock(l.supported, Some(Sentinel(false)), true, strays), true)
  }

  /**
   * `releaseWakeLock`. Only a referenced, unreleased sentinel is released; on
   * success the reference and the flag are cleared, on failure the exception
   * is swallowed and nothing changes. Strays are never released here.
   */
  function Release(l: Lock, outcome: ReleaseOutcome): (r: Lock)
    ensures Held(l) && outcome == Released ==>
      r.handle == None && !r.isActive && LiveCount(r) == LiveCount(l) - 1
    ensures !(Held(l) && outcome == Released) ==> r == l
    ensures r.supported == l.supported && r.strays == l.strays
    ensures outcome == Released ==> !Held(r)
    ensures Inv(l) ==> Inv(r)
  {
    if Held(l) && outcome == Released then l.(handle := None, isActive := false)
    else l
  }

  /**
   * The platform revokes the referenced sentinel (it does so when the page is
   * hidden): the sentinel reads as released and its listener clears the flag.
   * Without a held sentinel there is nothing to revoke.
   */
  function Revoke(l: Lock): (r: Lock)
    ensures Held(l) ==> r.handle == Some(Sentinel(true)) && !r.isActive && LiveCount(r) == LiveCount(l) - 1
    ensures !Held(l) ==> r == l
    ensures r.supported == l.supported && r.strays == l.strays
    ensures Inv(l) ==> Inv(r)
  {
    if Held(l) then l.(handle := Some(Sentinel(true)), isActive := false) else l
  }

  /**
   * The platform revokes a stray sentinel. Its listener is the same closure,
   * so it clears the flag even though the referenced sentinel is still held.
   */
  function RevokeStray(l: Lock): (r: Lock)
    ensures l.strays > 0 ==> !r.isActive && r.handle == l.handle && LiveCount(r) == LiveCount(l) - 1
    ensures l.strays == 0 ==> r == l
    ensures r.supported == l.supported
    ensures Inv(l) ==> Inv(r)
  {
    if l.strays > 0 then l.(strays := l.strays - 1, isActive := false) else l
  }

  /**
   * The `visibilitychange` handler: when the page is visible and the flag is
   * set it calls `requestWakeLock` (and ignores what it resolves to);
   * otherwise it does nothing.
   */
  function OnVisibilityChange(l: Lock, visible: bool, outcome: RequestOutcome): (r: Lock)
    ensures !(visible && l.isActive) ==> r == l
    ensures visible && l.isActive && !(l.supported && outcome == Granted) ==> r == l
    ensures visible && l.isActive && l.supported && outcome == Granted ==>
      r.isActive && Held(r) && r.supported == l.supported && LiveCount(r) == LiveCount(l) + 1
    ensures Inv(l) ==> Inv(r)
  {
    if visible && l.isActive then Request(l, outcome).lock else l
  }

  /**
   * The recovery the handler is written for never happens: once the platform
   * has revoked the referenced sentinel, a later visible event requests nothing.
   */
  lemma RevokedLockIsNotRecovered(l: Lock, outcome: RequestOutcome)
    requires Held(l)
    ensures !Held(Revoke(l))
    ensures OnVisibilityChange(Revoke(l), true, outcome) == Revoke(l)
  {
  }

  /**
   * When the handler does request, the hook was already holding an unreleased
   * sentinel (the flag implies it), so a granted request leaves that one
   * behind as a stray: the page then holds two locks.
   */
  lemma VisibilityRequestsOnlyWhileHeld(l: Lock, visible: bool, outcome: RequestOutcome)
    requires Inv(l)
    requires OnVisibilityChange(l, visible, outcome) != l
    ensures Held(l) && visible
    ensures OnVisibilityChange(l, visible, outcome).strays == l.strays + 1
    ensures LiveCount(OnVisibilityChange(l, visible, outcome)) == 2 + l.strays
  {
  }

  /** Running `OnVisibilityChange` for each `(visible, outcome)` pair in turn. */
  function VisibilityEvents(l: Lock, events: seq<(bool, RequestOutcome)>): Lock
    decreases |events|
  {
    if events == [] then l
    else VisibilityEvents(OnVisibilityChange(l, events[0].0, events[0].1), events[1..])
  }

  /**
   * With the flag cleared — after a release, a revocation, or a stray's
   * revocation — no sequence of visibility changes reacquires anything.
   */
  lemma {:induction false} InactiveStaysInactive(l: Lock, events: seq<(bool, RequestOutcome)>)
    requires !l.isActive
    ensures VisibilityEvents(l, events) == l
    decreases |events|
  {
    if events != [] {
      InactiveStaysInactive(l, events[1..]);
    }
  }

  /** Releasing twice with the same platform answer is releasing once. */
  lemma ReleaseIdempotent(l: Lock, outcome: ReleaseOutcome)
    ensures Release(Release(l, outcome), outcome) == Release(l, outcome)
  {
  }

  /**
   * A stray's revocation can clear the flag while the referenced sentinel is
   * still held: the flag then under-reports the lock.
   */
  lemma StrayRevocationClearsFlagWhileHeld(l: Lock)
    requires Held(l) && l.strays > 0
    ensures Held(RevokeStray(l)) && !RevokeStray(l).isActive
  {
  }
}
