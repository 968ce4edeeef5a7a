/**
 * The hold-timer state of `useTimerLogic` and its handlers. The hook keeps
 * three pieces of React state (`status`, `timeLeft`, `completionDate`); it
 * also reads and writes one `localStorage` slot and drives the wake lock.
 * Each handler and each effect run is one step from one `World` to the next.
 */
module TimerLogic {
  import opened Wrappers
  import opened Clock
  import WakeLock

  /** `DURATION`: the length of a hold, in seconds. */
  const DURATION: int := 60

  /** `TimerStatus`. */
  datatype Status = Idle | Running | Completed | AlreadyCompleted

  /** The hook's React state. */
  datatype Session = Session(status: Status, timeLeft: int, completionDate: Option<Instant>)

  /**
   * What `localStorage.getItem(STORAGE_KEY)` yields once `parseISO` has read it:
   * nothing (a missing key or an empty string, both falsy), a timestamp, or a
   * string `parseISO` turns into an invalid date.
   */
  datatype Slot = Empty | Stamp(at: Instant) | Unparseable

  /** Everything a step can change: the hook's state, the storage slot and the wake-lock refs. */
  datatype World = World(session: Session, slot: Slot, lock: WakeLock.Lock)

  /** The `useState` initial values. */
  const Initial: Session := Session(Idle, DURATION, None)

  /**
   * The mount effect's test: storage yields a date and `isSameDay` holds.
   * Such a date is always less than a day away from `now`, but not every
   * date less than a day away qualifies.
   */
  predicate CompletedToday(slot: Slot, now: Instant)
    ensures CompletedToday(slot, now) ==>
      slot.Stamp? && -DAY_SECONDS < Timeline(now) - Timeline(slot.at) < DAY_SECONDS
  {
    slot.Stamp? && SameDay(slot.at, now)
  }

  /**
   * Mounting the hook: the initial state, then the storage effect. The status
   * and date change only when the stored completion is on today's date; a
   * missing, unparseable or older value leaves the initial state.
   */
  function Mount(slot: Slot, supported: bool, now: Instant): (r: World)
    ensures r.session.status == AlreadyCompleted <==> CompletedToday(slot, now)
    ensures CompletedToday(slot, now) ==> r.session.completionDate == Some(slot.at)
    ensures !CompletedToday(slot, now) ==> r.session == Session(Idle, DURATION, None)
    ensures r.session.timeLeft == DURATION
    ensures r.slot == slot && r.lock == WakeLock.Fresh(supported)
  {
    var session :=
      if CompletedToday(slot, now) then Initial.(status := AlreadyCompleted, completionDate := Some(slot.at))
      else Initial;
    World(session, slot, WakeLock.Fresh(supported))
  }

  /** The tick effect schedules its interval only in this state. */
  predicate TickArmed(s: Session) {
    s.status == Running && s.timeLeft > 0
  }

  /**
   * The tick effect calls `handleComplete` only in this state. The effect's
   * two branches exclude each other, and a running session with no negative
   * time arms exactly one of them.
   */
  predicate CompletionDue(s: Session)
    ensures CompletionDue(s) ==> !TickArmed(s)
    ensures s.status == Running && s.timeLeft >= 0 ==> (CompletionDue(s) <==> !TickArmed(s))
  {
    s.status == Running && s.timeLeft == 0
  }

  /**
   * One firing of the one-second interval: `timeLeft` goes down by exactly
   * one and nothing else changes. The tick that reaches 0 does not complete;
   * it leaves a running state with no time left.
   */
  function Tick(s: Session): (r: Session)
    requires TickArmed(s)
    ensures r.status == Running && r.completionDate == s.completionDate
    ensures r.timeLeft + 1 == s.timeLeft && r.timeLeft >= 0
    ensures TickArmed(r) || CompletionDue(r)
  {
    s.(timeLeft := s.timeLeft - 1)
  }

  /**
   * `handleComplete`, run by the tick effect once no time is left: it starts
   * releasing the wake lock without waiting, writes `now` to storage over any
   * earlier value, records `now` as the completion date and shows the
   * completion modal. `timeLeft` stays at 0.
   */
  function Complete(w: World, now: Instant, release: WakeLock.ReleaseOutcome): (r: World)
    requires CompletionDue(w.session)
    ensures r.session == Session(Completed, 0, Some(now))
    ensures r.slot == Stamp(now) && CompletedToday(r.slot, now)
    ensures r.lock == WakeLock.Release(w.lock, release)
  {
    World(Session(Completed, w.session.timeLeft, Some(now)), Stamp(now), WakeLock.Release(w.lock, release))
  }

  /**
   * `handleStart`: waits for `requestWakeLock` and then starts a full-length
   * hold whatever it resolved to. The handler itself checks no status; the
   * completion date and the storage slot are left as they were.
   */
  function Start(w: World, request: WakeLock.RequestOutcome): (r: World)
    ensures r.session == Session(Running, DURATION, w.session.completionDate)
    ensures TickArmed(r.session)
    ensures r.slot == w.slot
    ensures r.lock == WakeLock.Request(w.lock, request).lock
  {
    var requested := WakeLock.Request(w.lock, request);
    World(Session(Running, DURATION, w.session.completionDate), w.slot, requested.lock)
  }

  /**
   * `handleGiveUp`: waits for `releaseWakeLock`, then returns to idle with a
   * full timer. Progress is discarded; storage and the completion date are
   * not touched. The handler itself checks no status.
   */
  function GiveUp(w: World, release: WakeLock.ReleaseOutcome): (r: World)
    ensures r.session == Session(Idle, DURATION, w.session.completionDate)
    ensures !TickArmed(r.session) && !CompletionDue(r.session)
    ensures r.slot == w.slot
    ensures r.lock == WakeLock.Release(w.lock, release)
  {
    World(Session(Idle, DURATION, w.session.completionDate), w.slot, WakeLock.Release(w.lock, release))
  }

  /** `handleCloseModal` (`handleResetForDemo`): shows the "already completed" view and changes nothing else. */
  function CloseModal(w: World): (r: World)
    ensures r.session.status == AlreadyCompleted
    ensures r.session.timeLeft == w.session.timeLeft && r.session.completionDate == w.session.completionDate
    ensures r.slot == w.slot && r.lock == w.lock
  {
    w.(session := w.session.(status := AlreadyCompleted))
  }

  /** Giving up twice in a row, with the same platform answer, is giving up once. */
  lemma GiveUpIdempotent(w: World, release: WakeLock.ReleaseOutcome)
    ensures GiveUp(GiveUp(w, release), release) == GiveUp(w, release)
  {
    WakeLock.ReleaseIdempotent(w.lock, release);
  }

  /** Giving up while idle changes nothing in the hook's state or in storage. */
  lemma GiveUpWhileIdle(w: World, release: WakeLock.ReleaseOutcome)
    requires w.session.status == Idle && w.session.timeLeft == DURATION
    ensures GiveUp(w, release).session == w.session && GiveUp(w, release).slot == w.slot
  {
  }

  /** Whether the wake lock was granted, rejected or unsupported, starting gives the same hold. */
  lemma StartIgnoresWakeLock(w: World, a: WakeLock.RequestOutcome, b: WakeLock.RequestOutcome)
    ensures Start(w, a).session == Start(w, b).session
    ensures Start(w, a).slot == Start(w, b).slot
  {
  }

  /** Less than a day apart is not enough: a 23:59 stamp does not count at 00:01 the next day. */
  lemma SameDayIsNotWithinADay(day: int)
    ensures Timeline(Instant(day + 1, 60)) - Timeline(Instant(day, 86340)) == 120
    ensures !CompletedToday(Stamp(Instant(day, 86340)), Instant(day + 1, 60))
  {
  }
}
