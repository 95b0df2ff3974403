/** The daemon's renewal loop: the grace period (daemon/planner/fatal_error_detector.go), one cycle
    (daemon/planner/vxlan_planner.go) and the poller that repeats it (daemon/poller/poller.go). */
module Renewal {
  import opened Wrappers
  import opened LeaseTable
  import opened LeaseProtocol

  // ---------- the answer's way from the controller to the daemon ----------

  /** The status the renew handler answers with. */
  function HandlerStatus(res: RenewResult): nat {
    match res
    case Renewed => 200
    case NonRetriable => 409
    case Retriable => 500
  }

  /** How the client reads a status; no status at all is a failed request. */
  function ClientResult(status: Option<nat>): RenewResult {
    if status == Some(409) then NonRetriable
    else if status.Some? && 200 <= status.value < 300 then Renewed
    else Retriable
  }

  // ---------- the classes ----------

  predicate Fatal(err: RenewResult, now: int, lastSuccess: int, grace: int) {
    err == NonRetriable || now - lastSuccess >= grace
  }

  class GracefulDetector {
    const graceDuration: int
    var lastSuccessTime: int

    constructor (gd: int, now: int)
      ensures graceDuration == gd && lastSuccessTime == now
    {
      graceDuration := gd;
      lastSuccessTime := now;
    }

    method GotSuccess(now: int)
      modifies this
      ensures lastSuccessTime == now
    {
      lastSuccessTime := now;
    }

    function IsFatal(err: RenewResult, now: int): bool
      reads this
    {
      Fatal(err, now, lastSuccessTime, graceDuration)
    }
  }

  /** What the world answers during one cycle; `time` is the daemon's clock when the renewal returned. */
  datatype Cycle = Cycle(time: int, renewal: RenewResult, listed: bool, converged: bool)

  datatype CycleResult = Fine | Error | FatalError

  class VXLANPlanner {
    const detector: GracefulDetector
    var renewSuccess: nat
    var renewFailure: nat
    var convergeSuccess: nat
    var convergeFailure: nat

    constructor (detector: GracefulDetector)
      ensures this.detector == detector
      ensures renewSuccess == renewFailure == convergeSuccess == convergeFailure == 0
    {
      this.detector := detector;
      renewSuccess, renewFailure, convergeSuccess, convergeFailure := 0, 0, 0, 0;
    }

    method DoCycle(c: Cycle) returns (r: CycleResult)
      modifies this, detector
      ensures r == FatalError <==>
        c.renewal != Renewed && Fatal(c.renewal, c.time, old(detector.lastSuccessTime), detector.graceDuration)
      ensures r == Fine <==> c.renewal == Renewed && c.listed && c.converged
      ensures detector.lastSuccessTime == (if c.renewal == Renewed then c.time else old(detector.lastSuccessTime))
      ensures renewSuccess + renewFailure == old(renewSuccess + renewFailure) + 1
      ensures renewSuccess == old(renewSuccess) + (if c.renewal == Renewed then 1 else 0)
      ensures convergeSuccess == old(convergeSuccess) + (if r == Fine then 1 else 0)
      ensures convergeFailure ==
        old(convergeFailure) + (if c.renewal == Renewed && c.listed && !c.converged then 1 else 0)
    {
      if c.renewal != Renewed {
        renewFailure := renewFailure + 1;
        return if detector.IsFatal(c.renewal, c.time) then FatalError else Error;
      }
      detector.GotSuccess(c.time);
      renewSuccess := renewSuccess + 1;
      if !c.listed {
        return Error;
      }
      if !c.converged {
        convergeFailure := convergeFailure + 1;
        return Error;
      }
      convergeSuccess := convergeSuccess + 1;
      return Fine;
    }
  }

  /** What ends a wait of the poller: a signal, or the timer with the cycle that then runs. */
  datatype Wakeup = Signal | Timer(cycle: Cycle)

  datatype Exit = Crashed(at: nat) | Interrupted | Running

  class Poller {
    const planner: VXLANPlanner

    constructor (planner: VXLANPlanner)
      ensures this.planner == planner
    {
      this.planner := planner;
    }

    /** `runFunction`: only a fatal error of the cycle is passed on. */
    method RunFunction(c: Cycle) returns (err: bool)
      modifies planner, planner.detector
      ensures err <==>
        c.renewal != Renewed
          && Fatal(c.renewal, c.time, old(planner.detector.lastSuccessTime), planner.detector.graceDuration)
      ensures planner.detector.lastSuccessTime ==
        (if c.renewal == Renewed then c.time else old(planner.detector.lastSuccessTime))
    {
      var r := planner.DoCycle(c);
      err := r == FatalError;
    }

    /** Runs one cycle at once and then one per timer until a signal arrives or a cycle is fatal; `Running`
        when neither happens within the given wakeups. */
    method Run(first: Cycle, wakeups: seq<Wakeup>) returns (exit: Exit)
      modifies planner, planner.detector
      ensures exit == PollerExit(first, wakeups, old(planner.detector.lastSuccessTime), planner.detector.graceDuration)
    {
      var err := RunFunction(first);
      if err {
        return Crashed(0);
      }
      ghost var start, grace := old(planner.detector.lastSuccessTime), planner.detector.graceDuration;
      var i := 0;
      while i < |wakeups|
        invariant 0 <= i <= |wakeups|
        invariant PollerExit(first, wakeups, start, grace) ==
          Resume(wakeups[i..], i + 1, planner.detector.lastSuccessTime, grace)
      {
        assert wakeups[i..][1..] == wakeups[i + 1..];
        match wakeups[i]
        case Signal =>
          return Interrupted;
        case Timer(c) =>
          err := RunFunction(c);
          if err {
            return Crashed(i + 1);
          }
          i := i + 1;
      }
      return Running;
    }
  }

  /** The poller after its n-th cycle, as a function of what wakes it. */
  function Resume(wakeups: seq<Wakeup>, n: nat, last: int, grace: int): Exit {
    if wakeups == [] then Running
    else match wakeups[0]
      case Signal => Interrupted
      case Timer(c) =>
        if c.renewal == Renewed then Resume(wakeups[1..], n + 1, c.time, grace)
        else if Fatal(c.renewal, c.time, last, grace) then Crashed(n)
        else Resume(wakeups[1..], n + 1, last, grace)
  }

  function PollerExit(first: Cycle, wakeups: seq<Wakeup>, start: int, grace: int): Exit {
    Resume([Timer(first)] + wakeups, 0, start, grace)
  }

  // ---------- when the poller ends ----------

  /** The cycles that run before the first signal. */
  function CyclesOf(wakeups: seq<Wakeup>): seq<Cycle> {
    if wakeups == [] || wakeups[0].Signal? then [] else [wakeups[0].cycle] + CyclesOf(wakeups[1..])
  }

  /** `at` is the time of the latest successful renewal before cycle k, or the start if there is none. */
  ghost predicate LatestSuccess(cycles: seq<Cycle>, start: int, k: nat, at: int)
    requires k <= |cycles|
  {
    || (at == start && forall j :: 0 <= j < k ==> cycles[j].renewal != Renewed)
    || (exists j :: 0 <= j < k && cycles[j].renewal == Renewed && cycles[j].time == at
                    && forall i :: j < i < k ==> cycles[i].renewal != Renewed)
  }

  /** Cycle k fails to renew for good: it is refused, or the grace period is over. */
  ghost predicate FatalAt(cycles: seq<Cycle>, start: int, grace: int, k: nat) {
    && k < |cycles| && cycles[k].renewal != Renewed
    && (|| cycles[k].renewal == NonRetriable
        || exists at :: LatestSuccess(cycles, start, k, at) && cycles[k].time - at >= grace)
  }

  ghost predicate FirstFatal(cycles: seq<Cycle>, start: int, grace: int, k: nat) {
    FatalAt(cycles, start, grace, k) && forall j :: 0 <= j < k ==> !FatalAt(cycles, start, grace, j)
  }

  lemma LatestSuccessShifts(cycles: seq<Cycle>, start: int, k: nat, at: int)
    requires 1 <= k <= |cycles|
    ensures LatestSuccess(cycles, start, k, at) <==>
      LatestSuccess(cycles[1..], if cycles[0].renewal == Renewed then cycles[0].time else start, k - 1, at)
  {
    var rest := cycles[1..];
    var start' := if cycles[0].renewal == Renewed then cycles[0].time else start;
    assert forall j :: 1 <= j < |cycles| ==> cycles[j] == rest[j - 1];
    if LatestSuccess(rest, start', k - 1, at) {
      if j :| 0 <= j < k - 1 && rest[j].renewal == Renewed && rest[j].time == at && forall i :: j < i < k - 1 ==>
        rest[i].renewal != Renewed {
        assert cycles[j + 1].renewal == Renewed;
      }
    }
    if LatestSuccess(cycles, start, k, at) {
      if j :| 0 <= j < k && cycles[j].renewal == Renewed && cycles[j].time == at && forall i :: j < i < k ==>
        cycles[i].renewal != Renewed {
        if j > 0 { assert rest[j - 1].renewal == Renewed; }
      }
    }
  }

  lemma FatalAtShifts(cycles: seq<Cycle>, start: int, grace: int, k: nat)
    requires cycles != [] && 1 <= k
    ensures FatalAt(cycles, start, grace, k) <==>
      FatalAt(cycles[1..], if cycles[0].renewal == Renewed then cycles[0].time else start, grace, k - 1)
  {
    hide LatestSuccess;
    var rest, last := cycles[1..], if cycles[0].renewal == Renewed then cycles[0].time else start;
    if k < |cycles| {
      var m := k - 1;
      assert rest[m] == cycles[k];
      if at :| LatestSuccess(cycles, start, k, at) && cycles[k].time - at >= grace {
        LatestSuccessShifts(cycles, start, k, at);
        assert LatestSuccess(rest, last, m, at);
      }
      if at :| LatestSuccess(rest, last, m, at) && cycles[k].time - at >= grace {
        LatestSuccessShifts(cycles, start, k, at);
      }
    }
  }

  lemma FatalAtFirst(cycles: seq<Cycle>, start: int, grace: int)
    requires cycles != []
    ensures FatalAt(cycles, start, grace, 0) <==>
      cycles[0].renewal != Renewed && Fatal(cycles[0].renewal, cycles[0].time, start, grace)
  {
    assert LatestSuccess(cycles, start, 0, start);
  }

  /** The poller ends with an error exactly at the first cycle, before any signal, whose renewal is refused
      or fails at least the grace duration after the latest success; otherwise the first signal ends it, and
      nothing else does. */
  lemma {:induction false} PollerEndsExactly(wakeups: seq<Wakeup>, n: nat, start: int, grace: int)
    ensures var cycles, exit := CyclesOf(wakeups), Resume(wakeups, n, start, grace);
      && (exit.Crashed? ==> n <= exit.at && FirstFatal(cycles, start, grace, exit.at - n))
      && (forall k: nat :: FatalAt(cycles, start, grace, k) ==> exit.Crashed? && exit.at <= n + k)
      && (exit == Interrupted ==> |cycles| < |wakeups| && wakeups[|cycles|] == Signal)
      && (exit == Running ==> |cycles| == |wakeups|)
  {
    hide FatalAt, Fatal;
    var cycles := CyclesOf(wakeups);
    if cycles == [] {
      forall k: nat ensures !FatalAt(cycles, start, grace, k) { NothingFatalInNothing(start, grace, k); }
    } else {
      var last := if cycles[0].renewal == Renewed then cycles[0].time else start;
      assert cycles[1..] == CyclesOf(wakeups[1..]);
      FatalAtFirst(cycles, start, grace);
      forall k: nat | 1 <= k ensures FatalAt(cycles, start, grace, k) <==> FatalAt(cycles[1..], last, grace, k - 1) {
        FatalAtShifts(cycles, start, grace, k);
      }
      PollerEndsExactly(wakeups[1..], n + 1, last, grace);
      var exit := Resume(wakeups, n, start, grace);
      if exit.Crashed? && exit.at > n {
        assert FirstFatal(cycles[1..], last, grace, exit.at - n - 1);
        forall j | 0 <= j < exit.at - n ensures !FatalAt(cycles, start, grace, j) {
          if j > 0 { assert !FatalAt(cycles[1..], last, grace, j - 1); }
        }
      }
    }
  }

  lemma NothingFatalInNothing(start: int, grace: int, k: nat)
    ensures !FatalAt([], start, grace, k)
  {
  }

  /** Listing the leases or converging may fail in any cycle without any effect on when the poller ends. */
  lemma {:induction false} OnlyRenewalsEndPoller(w1: seq<Wakeup>, w2: seq<Wakeup>, n: nat, start: int, grace: int)
    requires |w1| == |w2|
    requires forall i :: 0 <= i < |w1| ==> (w1[i].Signal? <==> w2[i].Signal?)
    requires forall i :: 0 <= i < |w1| && w1[i].Timer? ==>
      w1[i].cycle.time == w2[i].cycle.time && w1[i].cycle.renewal == w2[i].cycle.renewal
    ensures Resume(w1, n, start, grace) == Resume(w2, n, start, grace)
  {
    if w1 != [] && w1[0].Timer? {
      var last := if w1[0].cycle.renewal == Renewed then w1[0].cycle.time else start;
      OnlyRenewalsEndPoller(w1[1..], w2[1..], n + 1, last, grace);
    }
  }

  // ---------- fencing ----------

  /** While the row of a subnet belongs to another host, a renewal by the old holder changes nothing, is
      answered 409, and ends the poller in that cycle at the latest, whatever happened before. */
  lemma OldHolderIsFenced(t: Table, l: Lease, owner: string, now: int, first: Cycle, wakeups: seq<Wakeup>, start: int,
                          grace: int, k: nat)
    requires Unique(t) && owner in t && owner != l.underlayIP && t[owner].subnet == l.overlaySubnet
    requires k < |CyclesOf([Timer(first)] + wakeups)|
    requires CyclesOf([Timer(first)] + wakeups)[k].renewal ==
      ClientResult(Some(HandlerStatus(RenewAnswer(t, l, now).1)))
    ensures RenewAnswer(t, l, now).0 == t && HandlerStatus(RenewAnswer(t, l, now).1) == 409
    ensures PollerExit(first, wakeups, start, grace).Crashed? && PollerExit(first, wakeups, start, grace).at <= k
  {
    hide WellFormed, CyclesOf, Resume;
    assert RenewAnswer(t, l, now) == (t, NonRetriable);
    var cycles := CyclesOf([Timer(first)] + wakeups);
    assert FatalAt(cycles, start, grace, k);
    PollerEndsExactly([Timer(first)] + wakeups, 0, start, grace);
  }
}
