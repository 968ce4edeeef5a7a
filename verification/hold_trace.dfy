/**
 * Runs of the page: the hook mounted once, then a sequence of steps. A step is
 * a user action the page currently offers, an effect run the hook's state
 * arms, or a platform event on the wake lock. The page renders START in the
 * idle view and GIVE UP in the hold view, which stays rendered under the
 * completion modal; the modal's backdrop stops mouse and touch clicks but
 * traps no focus, so GIVE UP is still reachable from the keyboard while
 * completed. A view that is leaving stays mounted, and clickable, for its
 * exit animation: START just after it was pressed (before the first tick),
 * GIVE UP and the modal's backdrop just after the page went back to idle.
 * The "already completed" view is rendered outside the animated views and
 * has no controls.
 */
module HoldTrace {
  import opened Wrappers
  import opened Clock
  import WakeLock
  import opened TimerLogic

  datatype Event =
    | TickFired                                                        // the one-second interval
    | CompletionEffect(now: Instant, release: WakeLock.ReleaseOutcome)  // the tick effect's `handleComplete` branch
    | StartPressed(request: WakeLock.RequestOutcome)
    | GiveUpPressed(release: WakeLock.ReleaseOutcome)
    | ModalClosed
    | LockRevoked                                                      // the platform releases the referenced sentinel
    | StrayRevoked                                                     // the platform releases an unreferenced sentinel
    | VisibilityChanged(visible: bool, request: WakeLock.RequestOutcome)

  /**
   * The event can happen in `w`. The "already completed" view arms nothing
   * but the platform's wake-lock events; the idle page arms neither the
   * interval nor the completion, and its leaving modal exists only when a
   * completion date is left over.
   */
  predicate Armed(w: World, e: Event)
    ensures Armed(w, e) && w.session.status == AlreadyCompleted ==>
      e.LockRevoked? || e.StrayRevoked? || e.VisibilityChanged?
    ensures Armed(w, e) && w.session.status == Idle ==>
      !e.TickFired? && !e.CompletionEffect? && (e.ModalClosed? ==> w.session.completionDate.Some?)
  {
    match e
    case TickFired => TickArmed(w.session)
    case CompletionEffect(_, _) => CompletionDue(w.session)
    case StartPressed(_) =>
      || w.session.status == Idle
      || (w.session.status == Running && w.session.timeLeft == DURATION)  // the idle view's exit
    case GiveUpPressed(_) =>
      || w.session.status == Running
      || w.session.status == Completed                                    // keyboard, under the modal
      || w.session.status == Idle                                         // the hold view's exit
    case ModalClosed =>
      || w.session.status == Completed
      || (w.session.status == Idle && w.session.completionDate.Some?)     // the modal's exit
    case LockRevoked => true
    case StrayRevoked => true
    case VisibilityChanged(_, _) => true
  }

  /** The world after `e`. */
  function Next(w: World, e: Event): (r: World)
    requires Armed(w, e)
    ensures e.LockRevoked? || e.StrayRevoked? || e.VisibilityChanged? ==> r.session == w.session && r.slot == w.slot
    ensures !e.CompletionEffect? ==> r.slot == w.slot
  {
    match e
    case TickFired => w.(session := Tick(w.session))
    case CompletionEffect(now, release) => Complete(w, now, release)
    case StartPressed(request) => Start(w, request)
    case GiveUpPressed(release) => GiveUp(w, release)
    case ModalClosed => CloseModal(w)
    case LockRevoked => w.(lock := WakeLock.Revoke(w.lock))
    case StrayRevoked => w.(lock := WakeLock.RevokeStray(w.lock))
    case VisibilityChanged(visible, request) => w.(lock := WakeLock.OnVisibilityChange(w.lock, visible, request))
  }

  /** Every event of `es` can happen when its turn comes. */
  predicate Feasible(w: World, es: seq<Event>)
    decreases |es|
  {
    es == [] || (Armed(w, es[0]) && Feasible(Next(w, es[0]), es[1..]))
  }

  /** The world after all of `es`. */
  function Run(w: World, es: seq<Event>): World
    requires Feasible(w, es)
    decreases |es|
  {
    if es == [] then w else Run(Next(w, es[0]), es[1..])
  }

  /** Both stamps in one place: the hook's completion date and the stored one. */
  predicate Finished(st: Status) {
    st == Completed || st == AlreadyCompleted
  }

  /** What holds of every world a run of the page can reach. */
  predicate Inv(w: World) {
    var s := w.session;
    && 0 <= s.timeLeft <= DURATION
    && (s.status == Idle ==> s.timeLeft == DURATION)
    && (s.status == Completed ==> s.timeLeft == 0)
    && (Finished(s.status) ==> s.completionDate.Some?)
    && (s.completionDate.Some? ==> w.slot == Stamp(s.completionDate.value))
    && WakeLock.Inv(w.lock)
  }

  /** The mounted page satisfies the invariant, whatever storage held. */
  lemma MountInv(slot: Slot, supported: bool, now: Instant)
    ensures Inv(Mount(slot, supported, now))
  {
  }

  /** Every step the page can take keeps the invariant. */
  lemma NextInv(w: World, e: Event)
    requires Inv(w) && Armed(w, e)
    ensures Inv(Next(w, e))
  {
  }

  /** Every run keeps the invariant. */
  lemma {:induction false} RunInv(w: World, es: seq<Event>)
    requires Inv(w) && Feasible(w, es)
    ensures Inv(Run(w, es))
    decreases |es|
  {
    if es != [] {
      NextInv(w, es[0]);
      RunInv(Next(w, es[0]), es[1..]);
    }
  }

  /**
   * Every world reachable from mounting: the timer stays within [0, 60], idle
   * means a full timer, and a finished status always has its completion date,
   * the very value storage holds.
   */
  lemma Reachable(slot: Slot, supported: bool, now: Instant, es: seq<Event>)
    requires Feasible(Mount(slot, supported, now), es)
    ensures var w := Run(Mount(slot, supported, now), es);
      && 0 <= w.session.timeLeft <= DURATION
      && (w.session.status == Idle ==> w.session.timeLeft == DURATION)
      && (Finished(w.session.status) ==>
            w.session.completionDate.Some? && w.slot == Stamp(w.session.completionDate.value))
      && (w.lock.isActive ==> WakeLock.Held(w.lock))
  {
    MountInv(slot, supported, now);
    RunInv(Mount(slot, supported, now), es);
  }

  /** `n` firings of the interval. */
  function Ticks(n: nat): (es: seq<Event>)
    ensures |es| == n && forall i :: 0 <= i < n ==> es[i] == TickFired
  {
    seq(n, _ => TickFired)
  }

  /** While running, `n` ticks (no more than the time left) take exactly `n` seconds off and change nothing else. */
  lemma {:induction false} CountDown(w: World, n: nat)
    requires w.session.status == Running && n <= w.session.timeLeft
    ensures Feasible(w, Ticks(n))
    ensures Run(w, Ticks(n)) == w.(session := w.session.(timeLeft := w.session.timeLeft - n))
    decreases n
  {
    if n > 0 {
      var w' := Next(w, TickFired);
      assert Ticks(n)[1..] == Ticks(n - 1);
      CountDown(w', n - 1);
    }
  }

  /**
   * Start from the idle page, then `n` ticks: the hold is running with
   * `60 - n` seconds left and whatever completion date it had. The interval stays armed until the 60th tick; only
   * after it, in the running state with 0 seconds left, is the completion due.
   */
  lemma StartThenTicks(w: World, request: WakeLock.RequestOutcome, n: nat)
    requires Inv(w) && w.session.status == Idle && n <= DURATION
    ensures Feasible(w, [StartPressed(request)] + Ticks(n))
    ensures var r := Run(w, [StartPressed(request)] + Ticks(n));
      && r.session == Session(Running, DURATION - n, w.session.completionDate)
      && (TickArmed(r.session) <==> n < DURATION)
      && (CompletionDue(r.session) <==> n == DURATION)
  {
    var es := [StartPressed(request)] + Ticks(n);
    var started := Next(w, StartPressed(request));
    assert es[1..] == Ticks(n);
    CountDown(started, n);
  }

  /** The whole hold: start, 60 ticks, the completion effect at `now`, then closing the modal. */
  function Hold(request: WakeLock.RequestOutcome, now: Instant, release: WakeLock.ReleaseOutcome): seq<Event> {
    [StartPressed(request)] + Ticks(DURATION) + [CompletionEffect(now, release), ModalClosed]
  }

  /**
   * A full hold from the idle page ends in the "already completed" view with
   * the completion instant as its date and in storage.
   */
  lemma HoldCompletes(w: World, request: WakeLock.RequestOutcome, now: Instant, release: WakeLock.ReleaseOutcome)
    requires Inv(w) && w.session.status == Idle
    ensures Feasible(w, Hold(request, now, release))
    ensures Run(w, Hold(request, now, release)).session == Session(AlreadyCompleted, 0, Some(now))
    ensures Run(w, Hold(request, now, release)).slot == Stamp(now)
  {
    var counted := [StartPressed(request)] + Ticks(DURATION);
    var finish := [CompletionEffect(now, release), ModalClosed];
    StartThenTicks(w, request, DURATION);
    var due := Run(w, counted);
    var done := Next(due, finish[0]);
    assert finish[1..] == [ModalClosed];
    assert Feasible(done, [ModalClosed]) by {
      assert [ModalClosed][1..] == [];
    }
    assert Run(due, finish) == CloseModal(done) by {
      assert [ModalClosed][1..] == [];
    }
    FeasibleAppend(w, counted, finish);
    assert Hold(request, now, release) == counted + finish;
  }

  /** Running `a` then `b` is running `a + b`. */
  lemma {:induction false} FeasibleAppend(w: World, a: seq<Event>, b: seq<Event>)
    requires Feasible(w, a) && Feasible(Run(w, a), b)
    ensures Feasible(w, a + b) && Run(w, a + b) == Run(Run(w, a), b)
    decreases |a|
  {
    if a == [] {
      assert a + b == b;
    } else {
      assert (a + b)[0] == a[0];
      assert (a + b)[1..] == a[1..] + b;
      FeasibleAppend(Next(w, a[0]), a[1..], b);
    }
  }

  /**
   * Reloading after a hold completed at `done`: the page opens on "already
   * completed" with that date exactly when the reload happens on the same
   * local day, and on a fresh idle timer otherwise.
   */
  lemma ReloadAfterHold(w: World, request: WakeLock.RequestOutcome, done: Instant,
                        release: WakeLock.ReleaseOutcome, supported: bool, later: Instant)
    requires Inv(w) && w.session.status == Idle
    ensures Feasible(w, Hold(request, done, release))
    ensures var reloaded := Mount(Run(w, Hold(request, done, release)).slot, supported, later).session;
      && (reloaded.status == AlreadyCompleted <==> later.day == done.day)
      && (later.day == done.day ==> reloaded.completionDate == Some(done))
      && (later.day != done.day ==> reloaded == Session(Idle, DURATION, None))
  {
    HoldCompletes(w, request, done, release);
  }

  /** A hold finished at 23:59 does not block a reload at 00:01 the next day. */
  lemma CompletedJustBeforeMidnight(day: int, supported: bool)
    ensures Mount(Stamp(Instant(day, 86340)), supported, Instant(day + 1, 60)).session
            == Session(Idle, DURATION, None)
  {
  }

  /**
   * The "already completed" view offers nothing and nothing arms the timer, so
   * it stays exactly as it is — past midnight too — until the page reloads.
   */
  lemma {:induction false} AlreadyCompletedIsFinal(w: World, es: seq<Event>)
    requires w.session.status == AlreadyCompleted && Feasible(w, es)
    ensures Run(w, es).session == w.session && Run(w, es).slot == w.slot
    decreases |es|
  {
    if es != [] {
      AlreadyCompletedIsFinal(Next(w, es[0]), es[1..]);
    }
  }

  /**
   * Giving up from the completion modal by keyboard, then holding again, is a
   * second hold on the same day: it ends in "already completed" again, and
   * the second completion instant replaces the first in storage.
   */
  lemma SecondHoldSameDay(w: World, release: WakeLock.ReleaseOutcome, request: WakeLock.RequestOutcome,
                          again: Instant, release2: WakeLock.ReleaseOutcome)
    requires Inv(w) && w.session.status == Completed
    ensures Feasible(w, [GiveUpPressed(release)] + Hold(request, again, release2))
    ensures Run(w, [GiveUpPressed(release)] + Hold(request, again, release2)).session
            == Session(AlreadyCompleted, 0, Some(again))
    ensures Run(w, [GiveUpPressed(release)] + Hold(request, again, release2)).slot == Stamp(again)
  {
    assert Armed(w, GiveUpPressed(release));
    var idle := Next(w, GiveUpPressed(release));
    assert Feasible(w, [GiveUpPressed(release)]) && Run(w, [GiveUpPressed(release)]) == idle by {
      assert [GiveUpPressed(release)][1..] == [];
    }
    HoldCompletes(idle, request, again, release2);
    FeasibleAppend(w, [GiveUpPressed(release)], Hold(request, again, release2));
  }

  /**
   * A double click on START, the second landing on the leaving idle view,
   * requests the wake lock twice. If both are granted, the first sentinel is
   * left held but unreferenced: no later release by the hook reaches it, and
   * only the platform's revocation frees it.
   */
  lemma DoubleStartLeavesStray(w: World)
    requires Inv(w) && w.session.status == Idle
    requires w.lock.supported && !WakeLock.Held(w.lock)
    ensures Feasible(w, [StartPressed(WakeLock.Granted), StartPressed(WakeLock.Granted)])
    ensures var r := Run(w, [StartPressed(WakeLock.Granted), StartPressed(WakeLock.Granted)]);
      && r.session == Session(Running, DURATION, w.session.completionDate)
      && WakeLock.Held(r.lock) && r.lock.strays == w.lock.strays + 1
      && (forall release :: WakeLock.Release(r.lock, release).strays == r.lock.strays)
      && WakeLock.RevokeStray(r.lock).strays == w.lock.strays
  {
    var es := [StartPressed(WakeLock.Granted), StartPressed(WakeLock.Granted)];
    var once := Next(w, es[0]);
    var twice := Next(once, es[1]);
    assert es[1..][1..] == [];
    assert Feasible(once, es[1..]) && Run(once, es[1..]) == twice;
  }

  /**
   * Giving up from the completion modal by keyboard, then clicking the modal's
   * backdrop while it fades out, shows the "already completed" view with the
   * earlier completion still in state and in storage.
   */
  lemma BackdropAfterGiveUp(w: World, release: WakeLock.ReleaseOutcome)
    requires Inv(w) && w.session.status == Completed
    ensures Feasible(w, [GiveUpPressed(release), ModalClosed])
    ensures var r := Run(w, [GiveUpPressed(release), ModalClosed]);
      && r.session == Session(AlreadyCompleted, DURATION, w.session.completionDate)
      && r.slot == w.slot && r.lock == WakeLock.Release(w.lock, release)
  {
    var es := [GiveUpPressed(release), ModalClosed];
    var idle := Next(w, es[0]);
    assert idle.session.completionDate.Some? && Armed(idle, ModalClosed);
    assert es[1..] == [ModalClosed] && [ModalClosed][1..] == [];
    assert Feasible(idle, [ModalClosed]) && Run(idle, [ModalClosed]) == Next(idle, ModalClosed);
  }
}
