/** The advisory file lock of `scripts/vc-teams.js` (`withLock` and
    `removeStaleLockIfNeeded`) as seen by one caller. What the file system
    answers to each `open(lockPath, "wx")` is an input: a sequence of
    outcomes, one per attempt. */
module Locking {
  import opened Outcomes

  /** The number of backoff sleeps before a fresh marker makes `withLock`
      give up. */
  const MaxBackoffs := 40

  /** What one acquisition attempt observes: the marker was created, it
      already existed (with its age in milliseconds, or `None` when `stat`
      failed), or the open failed with another error code. */
  datatype Attempt = Opened | Exists(age: Option<int>) | Failed(code: string)

  /** How the retry loop ended. `Unsettled` means the given outcomes ran out
      before the loop ended. */
  datatype Verdict = Held | Exhausted | Raised(code: string) | Unsettled

  /** The verdict, the `attempt` value of each backoff sleep in order, and the
      number of stale markers removed. */
  datatype Acquisition = Acquisition(verdict: Verdict, sleeps: seq<nat>, staleRemoved: nat)

  /** `removeStaleLockIfNeeded`: strictly older than the TTL; a failed `stat`
      counts as not stale. */
  predicate IsStale(age: Option<int>, ttl: int) {
    age.Some? && age.value > ttl
  }

  /** The loop of `withLock` from a state with `|sleeps|` as its `attempt`
      counter. */
  function AcquireFrom(outcomes: seq<Attempt>, ttl: int, sleeps: seq<nat>, stale: nat): Acquisition
    decreases |outcomes|
  {
    if outcomes == [] then Acquisition(Unsettled, sleeps, stale)
    else match outcomes[0]
      case Opened => Acquisition(Held, sleeps, stale)
      case Failed(code) => Acquisition(Raised(code), sleeps, stale)
      case Exists(age) =>
        if IsStale(age, ttl) then AcquireFrom(outcomes[1..], ttl, sleeps, stale + 1)
        else if |sleeps| < MaxBackoffs then AcquireFrom(outcomes[1..], ttl, sleeps + [|sleeps|], stale)
        else Acquisition(Exhausted, sleeps, stale)
  }

  function AcquisitionOf(outcomes: seq<Attempt>, ttl: int): Acquisition {
    AcquireFrom(outcomes, ttl, [], 0)
  }

  /** The marker file guarding `target`. */
  function LockPath(target: string): (p: string)
    ensures |p| == |target| + 5 && p[..|target|] == target
  {
    target + ".lock"
  }

  /** The backoff sleeps are taken with `attempt` = 0, 1, 2, ... in order, at
      most 40 of them, and the budget is used up exactly when the loop gives
      up on a fresh marker. */
  lemma {:induction false} SleepsCountUp(outcomes: seq<Attempt>, ttl: int, sleeps: seq<nat>, stale: nat)
    requires |sleeps| <= MaxBackoffs && forall j :: 0 <= j < |sleeps| ==> sleeps[j] == j
    ensures var a := AcquireFrom(outcomes, ttl, sleeps, stale);
      && |sleeps| <= |a.sleeps| <= MaxBackoffs
      && (forall j :: 0 <= j < |a.sleeps| ==> a.sleeps[j] == j)
      && (a.verdict == Exhausted ==> |a.sleeps| == MaxBackoffs)
    decreases |outcomes|
  {
    if outcomes != [] && outcomes[0].Exists? {
      if IsStale(outcomes[0].age, ttl) {
        SleepsCountUp(outcomes[1..], ttl, sleeps, stale + 1);
      } else if |sleeps| < MaxBackoffs {
        SleepsCountUp(outcomes[1..], ttl, sleeps + [|sleeps|], stale);
      }
    }
  }

  /** The accumulated stale count only shifts the result's count. */
  lemma {:induction false} StaleShift(outcomes: seq<Attempt>, ttl: int, sleeps: seq<nat>, stale: nat)
    ensures var a := AcquireFrom(outcomes, ttl, sleeps, 0);
      AcquireFrom(outcomes, ttl, sleeps, stale) == a.(staleRemoved := a.staleRemoved + stale)
    decreases |outcomes|
  {
    if outcomes != [] && outcomes[0].Exists? {
      if IsStale(outcomes[0].age, ttl) {
        StaleShift(outcomes[1..], ttl, sleeps, stale + 1);
        StaleShift(outcomes[1..], ttl, sleeps, 1);
      } else if |sleeps| < MaxBackoffs {
        StaleShift(outcomes[1..], ttl, sleeps + [|sleeps|], stale);
      }
    }
  }

  /** Stale markers do not consume the retry budget: removing any number of
      them first leaves the verdict and the sleeps as they would have been,
      and only adds to the count of removals. */
  lemma {:induction false} StaleRemovalIsFree(stale: seq<Attempt>, rest: seq<Attempt>, ttl: int)
    requires forall j :: 0 <= j < |stale| ==> stale[j].Exists? && IsStale(stale[j].age, ttl)
    ensures var a := AcquisitionOf(rest, ttl);
      AcquisitionOf(stale + rest, ttl) == a.(staleRemoved := a.staleRemoved + |stale|)
    decreases |stale|
  {
    if stale != [] {
      assert (stale + rest)[0] == stale[0] && (stale + rest)[1..] == stale[1..] + rest;
      StaleRemovalIsFree(stale[1..], rest, ttl);
      StaleShift(stale[1..] + rest, ttl, [], 1);
      StaleShift(rest, ttl, [], |stale[1..]|);
      StaleShift(stale[1..] + rest, ttl, [], 0);
    } else {
      assert stale + rest == rest;
    }
  }

  /** An error other than an existing marker is rethrown at once. */
  lemma OtherErrorsAreImmediate(code: string, rest: seq<Attempt>, ttl: int)
    ensures AcquisitionOf([Failed(code)] + rest, ttl) == Acquisition(Raised(code), [], 0)
  {
  }

  /** A marker that stays fresh makes the loop sleep 40 times and then give up:
      the 41st fresh observation rethrows. */
  lemma {:induction false} FreshMarkerExhausts(outcomes: seq<Attempt>, ttl: int, sleeps: seq<nat>, stale: nat)
    requires |sleeps| <= MaxBackoffs
    requires |outcomes| > MaxBackoffs - |sleeps|
    requires forall j :: 0 <= j <= MaxBackoffs - |sleeps| ==> outcomes[j].Exists? && !IsStale(outcomes[j].age, ttl)
    ensures var a := AcquireFrom(outcomes, ttl, sleeps, stale);
      a.verdict == Exhausted && |a.sleeps| == MaxBackoffs && a.staleRemoved == stale
    decreases MaxBackoffs - |sleeps|
  {
    if |sleeps| < MaxBackoffs {
      assert outcomes[0].Exists? && !IsStale(outcomes[0].age, ttl);
      FreshMarkerExhausts(outcomes[1..], ttl, sleeps + [|sleeps|], stale);
    } else {
      assert outcomes[0].Exists? && !IsStale(outcomes[0].age, ttl);
    }
  }

  /** The lock markers this caller holds, each with its creation time. The
      table is this caller's own record: markers other processes create or
      remove are seen only through the outcomes of the open attempts, so an
      `Exists` outcome is not checked against `markers`, and its age is the
      one the attempt observed. */
  class LockTable {
    var markers: map<string, int>

    constructor ()
      ensures markers == map[]
    {
      markers := map[];
    }

    /** The acquisition loop of `withLock` at clock `now`: a stale marker is
        removed and the loop retries at once; a fresh one costs a backoff
        sleep while fewer than 40 have been taken; the created marker records
        `now`. */
    method Acquire(target: string, outcomes: seq<Attempt>, ttl: int, now: int) returns (r: Acquisition)
      modifies this
      ensures r == AcquisitionOf(outcomes, ttl)
      ensures r.verdict == Held ==> markers == old(markers)[LockPath(target) := now]
      ensures r.verdict != Held ==>
        markers == if r.staleRemoved > 0 then old(markers) - {LockPath(target)} else old(markers)
    {
      var lockPath := LockPath(target);
      var i := 0;
      var sleeps: seq<nat> := [];
      var stale: nat := 0;
      while i < |outcomes|
        invariant 0 <= i <= |outcomes|
        invariant AcquireFrom(outcomes[i..], ttl, sleeps, stale) == AcquisitionOf(outcomes, ttl)
        invariant markers == if stale > 0 then old(markers) - {lockPath} else old(markers)
        decreases |outcomes| - i
      {
        assert outcomes[i..][1..] == outcomes[i + 1..];
        match outcomes[i] {
          case Opened =>
            markers := markers[lockPath := now];
            return Acquisition(Held, sleeps, stale);
          case Failed(code) =>
            return Acquisition(Raised(code), sleeps, stale);
          case Exists(age) =>
            if IsStale(age, ttl) {
              markers := markers - {lockPath};
              stale := stale + 1;
            } else if |sleeps| < MaxBackoffs {
              sleeps := sleeps + [|sleeps|];
            } else {
              return Acquisition(Exhausted, sleeps, stale);
            }
        }
        i := i + 1;
      }
      r := Acquisition(Unsettled, sleeps, stale);
    }

    /** `withLock` around a critical section whose outcome (its value, or the
        error it threw) is `section`: a lock that could not be taken is the
        rethrown error; once taken, the section's outcome is passed on and the
        marker is removed whether the section returned or threw. */
    method WithLock<T>(target: string, outcomes: seq<Attempt>, ttl: int, now: int, section: Result<T>)
      returns (r: Result<T>)
      requires AcquisitionOf(outcomes, ttl).verdict != Unsettled
      modifies this
      ensures var a := AcquisitionOf(outcomes, ttl);
        && (a.verdict == Held ==> r == section && LockPath(target) !in markers)
        && (a.verdict == Exhausted ==> r == Err(LockFailed("EEXIST")))
        && (a.verdict.Raised? ==> r == Err(LockFailed(a.verdict.code)))
      ensures markers == old(markers) - {LockPath(target)} || markers == old(markers)
    {
      var a := Acquire(target, outcomes, ttl, now);
      match a.verdict {
        case Held =>
          r := section;
          markers := markers - {LockPath(target)};
        case Exhausted =>
          r := Err(LockFailed("EEXIST"));
        case Raised(code) =>
          r := Err(LockFailed(code));
      }
    }
  }
}
