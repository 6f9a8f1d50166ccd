/**
 The poll loop of `updateMetrics`: each cycle runs `updateIPs`; a failure
 goes straight to the next cycle (no sleep, and no return even in one-shot
 mode); a success reconciles the counters and then returns (one-shot) or
 sleeps for the clamped interval.
 */
module Scheduler {
  import opened Join
  import opened Snapshot
  import opened Metrics

  /** The sleep between cycles, in minutes: the configured interval, but at least one minute. */
  function WaitMinutes(interval: int): (m: int)
    ensures m >= 1 && m >= interval
    ensures m == interval || m == 1
  {
    if interval < 1 then 1 else interval
  }

  /** Nanoseconds in one minute: `60 * time.Second`. */
  const NanosPerMinute: int := 60 * 1_000_000_000

  /** The largest interval in minutes whose duration in nanoseconds fits in an int64. */
  const MaxSleepMinutes: int := 153_722_867

  /** A result of int64 arithmetic: the mathematical value wrapped into [-2^63, 2^63). */
  function Int64Wrap(x: int): (w: int)
    ensures -0x8000_0000_0000_0000 <= w < 0x8000_0000_0000_0000
    ensures (x - w) % 0x1_0000_0000_0000_0000 == 0
    ensures -0x8000_0000_0000_0000 <= x < 0x8000_0000_0000_0000 ==> w == x
  {
    var r := x % 0x1_0000_0000_0000_0000;
    if r >= 0x8000_0000_0000_0000 then r - 0x1_0000_0000_0000_0000 else r
  }

  /**
   The argument of `time.Sleep`: `time.Duration(i) * 60 * time.Second`,
   computed in int64 nanoseconds, so it wraps for very long intervals.
   */
  function SleepDuration(minutes: int): int {
    Int64Wrap(minutes * NanosPerMinute)
  }

  /** Up to MaxSleepMinutes, the pause is exactly the interval, and at least one minute. */
  lemma SleepDurationExact(minutes: int)
    requires 1 <= minutes <= MaxSleepMinutes
    ensures SleepDuration(minutes) == minutes * NanosPerMinute
    ensures SleepDuration(minutes) >= NanosPerMinute
  {
    assert minutes * NanosPerMinute <= MaxSleepMinutes * NanosPerMinute;
  }

  /** One minute more and the product wraps to a negative duration, for which `time.Sleep` returns at once. */
  lemma SleepDurationWraps()
    ensures SleepDuration(MaxSleepMinutes + 1) == -9_223_371_993_709_551_616
    ensures SleepDuration(MaxSleepMinutes + 1) < 0
  {
    assert (MaxSleepMinutes + 1) * NanosPerMinute == 9_223_372_080_000_000_000;
  }

  /** Further on the product wraps again: negative up to 307445734 minutes, then a short positive pause. */
  lemma SleepDurationWrapsPositive()
    ensures SleepDuration(307_445_734) < 0
    ensures SleepDuration(307_445_735) == 26_290_448_384
  {
    assert 307_445_734 * NanosPerMinute == 18_446_744_040_000_000_000;
    assert 307_445_735 * NanosPerMinute == 18_446_744_100_000_000_000;
  }

  /** What the loop does after a cycle: go round again at once, sleep for `nanos` nanoseconds, return to the caller, or end the process. */
  datatype Next = RetryNow | Sleep(nanos: int) | Return | Terminate

  predicate Stops(n: Next) {
    n.Return? || n.Terminate?
  }

  /** The decision the loop body takes on the outcome of one `updateIPs` call. */
  function NextAfter(u: Update, oneshot: bool, interval: int): (n: Next)
    ensures n == RetryNow <==> u.Err?
    ensures n == Terminate <==> u.Fatal?
    ensures n == Return <==> u.Ok? && oneshot
    ensures n.Sleep? <==> u.Ok? && !oneshot
    ensures n.Sleep? ==> n.nanos == SleepDuration(WaitMinutes(interval))
  {
    match u
    case Err(_) => RetryNow
    case Fatal => Terminate
    case Ok(_) => if oneshot then Return else Sleep(SleepDuration(WaitMinutes(interval)))
  }

  /**
   After a success in continuous mode the loop pauses for at least one minute
   and exactly the clamped interval, as long as that interval fits the int64
   nanosecond product; beyond it the pause wraps (SleepDurationWraps).
   */
  lemma SleepAfterSuccess(u: Update, interval: int)
    requires u.Ok? && interval <= MaxSleepMinutes
    ensures NextAfter(u, false, interval).Sleep?
    ensures NextAfter(u, false, interval).nanos == WaitMinutes(interval) * NanosPerMinute
    ensures NextAfter(u, false, interval).nanos >= NanosPerMinute
  {
    SleepDurationExact(WaitMinutes(interval));
  }

  /** One pass of the loop body: a success replaces the counters, a failure leaves them untouched. */
  method Cycle(c: Counters, u: Update, oneshot: bool, interval: int) returns (next: Next)
    modifies c
    ensures next == NextAfter(u, oneshot, interval)
    ensures u.Ok? ==> c.Reflects(u.infos)
    ensures !u.Ok? ==> unchanged(c)
  {
    match u {
      case Err(_) =>
        next := RetryNow;
      case Fatal =>
        next := Terminate;
      case Ok(tiList) =>
        c.Apply(tiList);
        if oneshot {
          next := Return;
        } else {
          next := Sleep(SleepDuration(WaitMinutes(interval)));
        }
    }
  }

  datatype Latest = NoSuccess | Latest(infos: seq<TrafficInfo>)

  /** The snapshot of the last successful cycle among `updates`, if any. */
  function LatestSuccess(updates: seq<Update>): Latest {
    if updates == [] then NoSuccess
    else
      var last := updates[|updates| - 1];
      if last.Ok? then Latest(last.infos) else LatestSuccess(updates[..|updates| - 1])
  }

  /** LatestSuccess finds no snapshot exactly when no cycle succeeded, and otherwise the one of the last success. */
  lemma {:induction false} LatestSuccessIsLast(updates: seq<Update>)
    ensures LatestSuccess(updates).NoSuccess? <==> forall i :: 0 <= i < |updates| ==> !updates[i].Ok?
    ensures LatestSuccess(updates).Latest? ==>
      exists i :: 0 <= i < |updates| && updates[i] == Ok(LatestSuccess(updates).infos)
        && (forall j :: i < j < |updates| ==> !updates[j].Ok?)
  {
    if updates != [] {
      var init := updates[..|updates| - 1];
      LatestSuccessIsLast(init);
      assert forall i :: 0 <= i < |init| ==> init[i] == updates[i];
    }
  }

  lemma LatestSuccessStep(updates: seq<Update>, k: int)
    requires 0 <= k < |updates|
    ensures LatestSuccess(updates[..k + 1]) == if updates[k].Ok? then Latest(updates[k].infos) else LatestSuccess(updates[..k])
  {
    assert updates[..k + 1][..k] == updates[..k];
  }

  /** The actions the loop takes over `updates`: one per cycle, up to and including the first that stops it. */
  function Actions(updates: seq<Update>, oneshot: bool, interval: int): seq<Next> {
    if updates == [] then []
    else
      var n := NextAfter(updates[0], oneshot, interval);
      if Stops(n) then [n] else [n] + Actions(updates[1..], oneshot, interval)
  }

  /**
   The loop takes one action per cycle, each the decision on that cycle's
   outcome; none but the last stops it, and it ends before the outcomes run
   out only by stopping.
   */
  lemma {:induction false} ActionsShape(updates: seq<Update>, oneshot: bool, interval: int)
    ensures var a := Actions(updates, oneshot, interval);
      && |a| <= |updates|
      && (forall i :: 0 <= i < |a| ==> a[i] == NextAfter(updates[i], oneshot, interval))
      && (forall i :: 0 <= i < |a| - 1 ==> !Stops(a[i]))
      && (|a| < |updates| ==> |a| > 0 && Stops(a[|a| - 1]))
  {
    if updates != [] {
      var n := NextAfter(updates[0], oneshot, interval);
      if !Stops(n) {
        ActionsShape(updates[1..], oneshot, interval);
        var rest := Actions(updates[1..], oneshot, interval);
        assert Actions(updates, oneshot, interval) == [n] + rest;
        forall i | 1 <= i < |rest| + 1
          ensures ([n] + rest)[i] == NextAfter(updates[i], oneshot, interval)
        {
          assert ([n] + rest)[i] == rest[i - 1];
          assert updates[1..][i - 1] == updates[i];
        }
      }
    }
  }

  /**
   One more cycle of the loop: if the actions so far are followed by those
   from cycle `k` on, appending cycle `k`'s action either completes them (it
   stops the loop) or leaves them followed by those from cycle `k + 1` on.
   */
  lemma ActionsStep(updates: seq<Update>, k: int, actions: seq<Next>, oneshot: bool, interval: int)
    requires 0 <= k < |updates|
    requires actions + Actions(updates[k..], oneshot, interval) == Actions(updates, oneshot, interval)
    ensures var n := NextAfter(updates[k], oneshot, interval);
      && (Stops(n) ==> actions + [n] == Actions(updates, oneshot, interval))
      && (!Stops(n) ==> (actions + [n]) + Actions(updates[k + 1..], oneshot, interval) == Actions(updates, oneshot, interval))
  {
    assert updates[k..][0] == updates[k];
    assert updates[k..][1..] == updates[k + 1..];
    var n := NextAfter(updates[k], oneshot, interval);
    if !Stops(n) {
      assert actions + ([n] + Actions(updates[k + 1..], oneshot, interval))
        == (actions + [n]) + Actions(updates[k + 1..], oneshot, interval);
    }
  }

  /**
   The loop run over the outcomes of successive `updateIPs` calls, until one
   of them makes it stop or the outcomes run out. `actions` is what the loop
   did after each cycle it ran.
   */
  method Run(c: Counters, updates: seq<Update>, oneshot: bool, interval: int) returns (actions: seq<Next>)
    modifies c
    ensures actions == Actions(updates, oneshot, interval) && |actions| <= |updates|
    ensures LatestSuccess(updates[..|actions|]).Latest? ==> c.Reflects(LatestSuccess(updates[..|actions|]).infos)
    ensures LatestSuccess(updates[..|actions|]).NoSuccess? ==> unchanged(c)
  {
    actions := [];
    var k := 0;
    var stopped := false;
    ghost var latest := NoSuccess;
    while k < |updates| && !stopped
      invariant 0 <= k <= |updates| && |actions| == k
      invariant !stopped ==> actions + Actions(updates[k..], oneshot, interval) == Actions(updates, oneshot, interval)
      invariant stopped ==> actions == Actions(updates, oneshot, interval)
      invariant latest == LatestSuccess(updates[..k])
      invariant latest.Latest? ==> c.Reflects(latest.infos)
      invariant latest.NoSuccess? ==> unchanged(c)
    {
      var next := Cycle(c, updates[k], oneshot, interval);
      LatestSuccessStep(updates, k);
      if updates[k].Ok? {
        latest := Latest(updates[k].infos);
      }
      ActionsStep(updates, k, actions, oneshot, interval);
      actions := actions + [next];
      k := k + 1;
      stopped := Stops(next);
    }
    if !stopped {
      assert updates[k..] == [];
    }
    ActionsShape(updates, oneshot, interval);
  }
}
