/** The single-flight, once-an-hour lease of the manual integrity check. Times are nanoseconds of one
    monotonic clock. */
module IntegrityLease {
  import opened Options

  const SECOND: int := 1_000_000_000
  const RATE_LIMIT_WINDOW: int := 3600 * SECOND

  datatype Lease = Lease(running: bool, startedAt: Option<int>, lastRunAt: Option<int>)

  datatype Response = Accepted(startedAt: int) | AlreadyRunning(since: Option<int>) | RateLimited(retryAfterSec: int)

  datatype View = View(running: bool, canRunNow: bool, nextAvailableAt: Option<int>, jobStartedAt: Option<int>)

  function CeilDiv(a: int, b: int): int
    requires b > 0
  {
    (a + b - 1) / b
  }

  function ComputeRetryAfterSec(lastRunAt: int, now: int): int {
    var remaining := RATE_LIMIT_WINDOW - (now - lastRunAt);
    if remaining <= 0 then 0
    else var secs := CeilDiv(remaining, SECOND); if secs < 1 then 1 else secs
  }

  predicate InsideWindow(l: Lease, now: int) {
    l.lastRunAt.Some? && now - l.lastRunAt.value < RATE_LIMIT_WINDOW
  }

  predicate Accepts(l: Lease, now: int) {
    !l.running && !InsideWindow(l, now)
  }

  /** What a GET shows of the lease. The start of the last job is shown even after it has ended. */
  function ViewOf(l: Lease, now: int): View {
    if l.lastRunAt.Some? && now < l.lastRunAt.value + RATE_LIMIT_WINDOW
    then View(l.running, false, Some(l.lastRunAt.value + RATE_LIMIT_WINDOW), l.startedAt)
    else View(l.running, true, None, l.startedAt)
  }

  /** The button and the endpoint agree: while no check runs, a POST is accepted exactly when a GET at the
      same moment says it can run; and when it cannot, the moment the GET names is the first at which it
      can. */
  lemma PostMatchesGet(l: Lease, now: int, later: int)
    requires !l.running
    ensures Accepts(l, now) <==> ViewOf(l, now).canRunNow
    ensures ViewOf(l, now).canRunNow <==> ViewOf(l, now).nextAvailableAt.None?
    ensures !ViewOf(l, now).canRunNow ==> (Accepts(l, later) <==> later >= ViewOf(l, now).nextAvailableAt.value)
  {
  }

  class IntegrityCheckJob {
    var lease: Lease

    constructor ()
      ensures lease == Lease(false, None, None)
    {
      lease := Lease(false, None, None);
    }

    /** What the GET handler shows. */
    method Snapshot(now: int) returns (v: View)
      ensures v == ViewOf(lease, now)
    {
      v := View(lease.running, true, None, lease.startedAt);
      if lease.lastRunAt.Some? {
        var nextAt := lease.lastRunAt.value + RATE_LIMIT_WINDOW;
        if now < nextAt {
          v := v.(canRunNow := false, nextAvailableAt := Some(nextAt));
        }
      }
    }

    /** The POST handler's steps under the mutex. It reads the clock once for the check, once more for the
        announced wait or for the start. */
    method Request(checkedAt: int, readAgain: int) returns (r: Response)
      modifies this
      ensures r.Accepted? <==> Accepts(old(lease), checkedAt)
      ensures r.AlreadyRunning? <==> old(lease.running)
      ensures r.RateLimited? <==> !old(lease.running) && InsideWindow(old(lease), checkedAt)
      ensures r.RateLimited? ==> r.retryAfterSec == ComputeRetryAfterSec(old(lease.lastRunAt.value), readAgain)
      ensures r.Accepted? ==>
                r.startedAt == readAgain && lease == old(lease).(running := true, startedAt := Some(readAgain))
      ensures !r.Accepted? ==> lease == old(lease)
    {
      if lease.running { return AlreadyRunning(lease.startedAt); }
      if lease.lastRunAt.Some? && checkedAt - lease.lastRunAt.value < RATE_LIMIT_WINDOW {
        return RateLimited(ComputeRetryAfterSec(lease.lastRunAt.value, readAgain));
      }
      lease := lease.(running := true, startedAt := Some(readAgain));
      r := Accepted(readAgain);
    }

    /** The end of the background check, by return or by a recovered panic. */
    method Finish(now: int)
      modifies this
      ensures lease == old(lease).(running := false, lastRunAt := Some(now))
    {
      lease := lease.(running := false, lastRunAt := Some(now));
    }
  }

  // ---- Retry-After ----

  /** A refused client that waits the announced seconds, counted from the reading they were computed at,
      is past the limit, and no whole number of seconds less would do. The announcement is 0 exactly when
      the window closed between the check and that reading. */
  lemma RetryAfterIsExact(l: Lease, readAgain: int, later: int)
    requires l.lastRunAt.Some?
    ensures var secs := ComputeRetryAfterSec(l.lastRunAt.value, readAgain);
            && (secs == 0 <==> readAgain >= l.lastRunAt.value + 3_600_000_000_000) && secs >= 0
            && (later >= readAgain + secs * SECOND ==> !InsideWindow(l, later))
            && (secs >= 1 ==> InsideWindow(l, readAgain + (secs - 1) * SECOND))
  {
  }

  // ---- All interleavings ----

  /** A request acquires the lease, then launches the check in the background; later the check ends. */
  datatype Event = Post(now: int, readAgain: int) | Launch | Finish(now: int)

  /** launching counts the checks accepted and not yet launched, inFlight those launched and not ended. */
  datatype World = World(lease: Lease, launching: nat, inFlight: nat)

  predicate Next(w: World, e: Event, w': World) {
    match e
    case Post(now, readAgain) =>
      if Accepts(w.lease, now)
      then w' == World(w.lease.(running := true, startedAt := Some(readAgain)), w.launching + 1, w.inFlight)
      else w' == w
    case Launch => w.launching > 0 && w' == w.(launching := w.launching - 1, inFlight := w.inFlight + 1)
    case Finish(now) =>
      w.inFlight > 0 && w' == World(w.lease.(running := false, lastRunAt := Some(now)), w.launching, w.inFlight - 1)
  }

  ghost predicate Trace(worlds: seq<World>, events: seq<Event>) {
    && |worlds| == |events| + 1 && worlds[0] == World(Lease(false, None, None), 0, 0)
    && forall i :: 0 <= i < |events| ==> Next(worlds[i], events[i], worlds[i + 1])
  }

  /** At most one check is in flight, and the lease says "running" exactly when one is. */
  lemma {:induction false} SingleFlight(worlds: seq<World>, events: seq<Event>, i: nat)
    requires Trace(worlds, events) && i <= |events|
    ensures worlds[i].launching + worlds[i].inFlight == if worlds[i].lease.running then 1 else 0
  {
    if i > 0 {
      SingleFlight(worlds, events, i - 1);
      assert Next(worlds[i - 1], events[i - 1], worlds[i]);
    }
  }

  function TimeOf(e: Event): Option<int> {
    match e
    case Post(now, _) => Some(now)
    case Launch => None
    case Finish(now) => Some(now)
  }

  /** The clock does not run backwards along the trace. */
  predicate ClockIsMonotonic(events: seq<Event>) {
    forall i, j :: 0 <= i < j < |events| && TimeOf(events[i]).Some? && TimeOf(events[j]).Some? ==>
      TimeOf(events[i]).value <= TimeOf(events[j]).value
  }

  /** The lease remembers a finish at least as late as every finish so far. */
  lemma {:induction false} RemembersLastFinish(worlds: seq<World>, events: seq<Event>, i: nat, j: nat)
    requires Trace(worlds, events) && ClockIsMonotonic(events) && i < j <= |events| && events[i].Finish?
    ensures worlds[j].lease.lastRunAt.Some? && worlds[j].lease.lastRunAt.value >= events[i].now
  {
    assert Next(worlds[j - 1], events[j - 1], worlds[j]);
    if j > i + 1 {
      RemembersLastFinish(worlds, events, i, j - 1);
      if events[j - 1].Finish? {
        assert TimeOf(events[i]).value <= TimeOf(events[j - 1]).value;
      }
    }
  }

  /** Every start comes at least an hour after every earlier finish, by return or panic. */
  lemma StartsAreAnHourApart(worlds: seq<World>, events: seq<Event>, i: nat, j: nat)
    requires Trace(worlds, events) && ClockIsMonotonic(events) && i < j < |events|
    requires events[i].Finish? && events[j].Post? && Accepts(worlds[j].lease, events[j].now)
    requires events[j].readAgain >= events[j].now
    ensures worlds[j + 1].lease.startedAt == Some(events[j].readAgain)
    ensures events[j].readAgain - events[i].now >= 3_600_000_000_000
  {
    RemembersLastFinish(worlds, events, i, j);
    assert Next(worlds[j], events[j], worlds[j + 1]);
  }
}
