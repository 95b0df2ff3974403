/** The daemon's renewal loop and the controller together: what the controller decides, and whether its answer arrives,
    is what ends the poller. */
module Exchanges {
  import opened Wrappers
  import opened Text
  import opened IPText
  import opened LeaseTable
  import opened LeaseProtocol
  import opened Leasing
  import opened Renewal

  /** The daemon learns what the controller decided: every decision survives being sent as a status and read back, a
      success is a status of the 2xx class, a refusal is 409, and a lost answer counts as a failure to be retried. */
  lemma StatusRoundTrip(res: RenewResult)
    ensures ClientResult(Some(HandlerStatus(res))) == res
    ensures ClientResult(None) == Retriable
    ensures 200 <= HandlerStatus(res) < 300 <==> res == Renewed
    ensures HandlerStatus(res) == 409 <==> res == NonRetriable
    ensures 500 <= HandlerStatus(res) < 600 <==> res == Retriable
  {
  }

  /** A renewal as the controller serves it, on tables and at a time of its own, and whether its answer arrives. */
  datatype Exchange = Exchange(before: Table, after: Table, now: int, res: RenewResult, delivered: bool) {
    predicate Confirmed() {
      delivered && res == Renewed
    }

    predicate Refused() {
      delivered && res == NonRetriable
    }
  }

  /** Every cycle's renewal of the lease is an exchange with a controller whose statements may fail. */
  ghost predicate Answered(l: Lease, xs: seq<Exchange>, cycles: seq<Cycle>) {
    && |xs| == |cycles|
    && (forall i :: 0 <= i < |xs| ==> Renews(xs[i].before, xs[i].after, l, xs[i].now, xs[i].res, false))
    && (forall i :: 0 <= i < |xs| ==>
          cycles[i].renewal == ClientResult(if xs[i].delivered then Some(HandlerStatus(xs[i].res)) else None))
  }

  /** `at` is when the daemon last heard of a renewal before exchange k, or its start. */
  ghost predicate LastConfirmed(xs: seq<Exchange>, cycles: seq<Cycle>, start: int, k: nat, at: int)
    requires k <= |xs| == |cycles|
  {
    || (at == start && forall j :: 0 <= j < k ==> !xs[j].Confirmed())
    || (exists j :: 0 <= j < k && xs[j].Confirmed() && cycles[j].time == at
                    && forall i :: j < i < k ==> !xs[i].Confirmed())
  }

  /** Exchange k is fatal to the daemon: the refusal arrives, or nothing good does and the grace period is over. */
  ghost predicate Ends(xs: seq<Exchange>, cycles: seq<Cycle>, start: int, grace: int, k: nat)
    requires |xs| == |cycles|
  {
    && k < |xs| && !xs[k].Confirmed()
    && (xs[k].Refused() || exists at :: LastConfirmed(xs, cycles, start, k, at) && cycles[k].time - at >= grace)
  }

  /** What a cycle makes of its exchange. */
  lemma CycleFollows(l: Lease, xs: seq<Exchange>, cycles: seq<Cycle>, i: nat)
    requires Answered(l, xs, cycles) && i < |xs|
    ensures cycles[i].renewal == Renewed <==> xs[i].Confirmed()
    ensures cycles[i].renewal == NonRetriable <==> xs[i].Refused()
  {
    hide Renews, HandlerStatus, ClientResult;
    StatusRoundTrip(xs[i].res);
  }

  lemma EndsIsFatal(l: Lease, xs: seq<Exchange>, cycles: seq<Cycle>, start: int, grace: int, k: nat)
    requires Answered(l, xs, cycles)
    ensures FatalAt(cycles, start, grace, k) <==> Ends(xs, cycles, start, grace, k)
  {
    hide Answered;
    assert |xs| == |cycles| by { AnsweredLength(l, xs, cycles); }
    if k < |xs| {
      forall i | 0 <= i < |xs|
        ensures cycles[i].renewal == Renewed <==> xs[i].Confirmed()
        ensures cycles[i].renewal == NonRetriable <==> xs[i].Refused()
      {
        CycleFollows(l, xs, cycles, i);
      }
      forall at ensures LatestSuccess(cycles, start, k, at) <==> LastConfirmed(xs, cycles, start, k, at) {
      }
    }
  }

  lemma AnsweredLength(l: Lease, xs: seq<Exchange>, cycles: seq<Cycle>)
    requires Answered(l, xs, cycles)
    ensures |xs| == |cycles|
  {
  }

  /** The poller ends with an error exactly at the first exchange, before any signal, whose refusal arrives or that is
      not confirmed the grace duration after the last confirmation; and a confirmation means that the row then held the
      lease, dated by the controller's clock. */
  lemma PollerFollowsController(l: Lease, xs: seq<Exchange>, first: Cycle, wakeups: seq<Wakeup>, start: int, grace: int)
    requires Answered(l, xs, CyclesOf([Timer(first)] + wakeups))
    ensures var cycles, exit := CyclesOf([Timer(first)] + wakeups), PollerExit(first, wakeups, start, grace);
      && (exit.Crashed? <==> exists k :: Ends(xs, cycles, start, grace, k))
      && (exit.Crashed? ==> Ends(xs, cycles, start, grace, exit.at))
      && (exit.Crashed? ==> forall k :: 0 <= k < exit.at ==> !Ends(xs, cycles, start, grace, k))
    ensures forall i :: 0 <= i < |xs| && xs[i].Confirmed() ==>
      l.underlayIP in xs[i].after && xs[i].after[l.underlayIP] == Row(l.overlaySubnet, l.hardwareAddr, xs[i].now)
  {
    hide CyclesOf, Resume, FatalAt, Ends, Renews;
    var cycles, exit := CyclesOf([Timer(first)] + wakeups), PollerExit(first, wakeups, start, grace);
    PollerEndsExactly([Timer(first)] + wakeups, 0, start, grace);
    forall k: nat ensures FatalAt(cycles, start, grace, k) <==> Ends(xs, cycles, start, grace, k) {
      EndsIsFatal(l, xs, cycles, start, grace, k);
    }
    forall i | 0 <= i < |xs| && xs[i].Confirmed()
      ensures l.underlayIP in xs[i].after
              && xs[i].after[l.underlayIP] == Row(l.overlaySubnet, l.hardwareAddr, xs[i].now)
    {
      RenewFrame(xs[i].before, xs[i].after, l, xs[i].now, xs[i].res, false);
    }
  }

  /** A renewal is never refused while the row of its host holds the lease and the lease can be read. */
  lemma HeldIsNotRefused(t: Table, t': Table, l: Lease, now: int, res: RenewResult)
    requires Renews(t, t', l, now, res, false) && l.underlayIP in t && LeaseOf(t, l.underlayIP) == l
    requires ParseIP(l.underlayIP).Some? && ParsePrefix(l.overlaySubnet).Some? && ParseMac(l.hardwareAddr).Some?
    ensures res != NonRetriable
  {
    hide ParseIP, ParsePrefix, ParseMac;
  }

  /** So while the row is in place at every renewal, only the grace period can end the daemon. */
  lemma OnlyGraceEndsHolder(l: Lease, xs: seq<Exchange>, first: Cycle, wakeups: seq<Wakeup>, start: int, grace: int)
    requires Answered(l, xs, CyclesOf([Timer(first)] + wakeups))
    requires ParseIP(l.underlayIP).Some? && ParsePrefix(l.overlaySubnet).Some? && ParseMac(l.hardwareAddr).Some?
    requires forall i :: 0 <= i < |xs| ==>
      l.underlayIP in xs[i].before && LeaseOf(xs[i].before, l.underlayIP) == l
    ensures var cycles, exit := CyclesOf([Timer(first)] + wakeups), PollerExit(first, wakeups, start, grace);
      exit.Crashed? ==>
      && exit.at < |xs|
      && exists at :: LastConfirmed(xs, cycles, start, exit.at, at) && cycles[exit.at].time - at >= grace
  {
    hide CyclesOf, Resume, Renews, LastConfirmed, ParseIP, ParsePrefix, ParseMac;
    PollerFollowsController(l, xs, first, wakeups, start, grace);
    forall i | 0 <= i < |xs| ensures !xs[i].Refused() {
      HeldIsNotRefused(xs[i].before, xs[i].after, l, xs[i].now, xs[i].res);
    }
  }
}
