/** The whole system in time: controllers serve requests of any host, and each daemon renews its lease,
    tolerates failed renewals for the grace period and then stops. */
module Exclusion {
  import opened Wrappers
  import opened Addressing
  import opened Text
  import opened HardwareAddr
  import opened CidrPool
  import opened LeaseTable
  import opened LeaseProtocol
  import opened Leasing
  import opened LeaseRuns
  import opened Renewal

  /** grace: the partition tolerance; latency: the longest a renewal's answer takes to reach the daemon;
      gap: the longest time between two checks of a renewal's result. */
  datatype Timing = Timing(grace: int, latency: int, gap: int)

  /** A running daemon.  `commit` is when the controller last dated its lease, `lastSuccess` when the daemon
      last learnt of a success, `lastCheck` when it last learnt of any result; `renewed` says whether a
      success has been learnt since the daemon started. */
  datatype Daemon = Daemon(lease: Lease, renewed: bool, commit: Option<int>, lastSuccess: int, lastCheck: int)

  datatype State = State(table: Table, now: int, daemons: map<string, Daemon>)

  ghost predicate Consistent(s: State) {
    forall u :: u in s.daemons ==> s.daemons[u].lease.underlayIP == u
  }

  /** A host starts a daemon with some lease; the grace period runs from now. */
  ghost predicate Starts(s: State, s': State, l: Lease) {
    l.underlayIP !in s.daemons && s' == s.(daemons := s.daemons[l.underlayIP := Daemon(l, false, None, s.now, s.now)])
  }

  function Dated(d: Daemon, e: Event, now: int): Daemon {
    if e == RenewEvent(d.lease, Renewed) then d.(commit := Some(now)) else d
  }

  /** A controller serves one request, with any faults.  Hosts whose daemon has had a renewal served do not
      give their lease up. */
  ghost predicate Serves(cfg: Config, s: State, s': State, e: Event) {
    && Happens(cfg, s.table, s'.table, s.now, e, false)
    && (forall u :: u in s.daemons && s.daemons[u].commit.Some? ==> HostKeeps(cfg, s.daemons[u].lease, e))
    && s' == s.(table := s'.table, daemons := map u | u in s.daemons :: Dated(s.daemons[u], e, s.now))
  }

  /** A daemon learns that its renewal, served at most `latency` ago, succeeded. */
  ghost predicate LearnsSuccess(tm: Timing, s: State, s': State, u: string) {
    && u in s.daemons && s.daemons[u].commit.Some? && s.now - s.daemons[u].commit.value <= tm.latency
    && s' == s.(daemons := s.daemons[u := s.daemons[u].(renewed := true, lastSuccess := s.now, lastCheck := s.now)])
  }

  /** A daemon learns that its renewal failed, and exits if that is fatal. */
  ghost predicate LearnsFailure(tm: Timing, s: State, s': State, u: string, err: RenewResult) {
    && u in s.daemons && err != Renewed
    && s' == s.(daemons := if Fatal(err, s.now, s.daemons[u].lastSuccess, tm.grace) then s.daemons - {u}
                           else s.daemons[u := s.daemons[u].(lastCheck := s.now)])
  }

  ghost predicate Stops(s: State, s': State, u: string) {
    s' == s.(daemons := s.daemons - {u})
  }

  /** Time passes, but never beyond the next check of a running daemon. */
  ghost predicate Passes(tm: Timing, s: State, s': State) {
    && s.now <= s'.now && s' == s.(now := s'.now)
    && forall u :: u in s.daemons ==> s'.now <= s.daemons[u].lastCheck + tm.gap
  }

  ghost predicate Step(cfg: Config, tm: Timing, s: State, s': State) {
    || (exists l :: Starts(s, s', l))
    || (exists e :: Serves(cfg, s, s', e))
    || (exists u :: LearnsSuccess(tm, s, s', u))
    || (exists u, err :: LearnsFailure(tm, s, s', u, err))
    || (exists u :: Stops(s, s', u))
    || Passes(tm, s, s')
  }

  ghost predicate Init(s: State) {
    s.daemons == map[] && Unique(s.table)
  }

  ghost predicate IsRun(cfg: Config, tm: Timing, run: seq<State>) {
    && run != [] && Init(run[0])
    && forall i :: 0 <= i < |run| - 1 ==> Step(cfg, tm, run[i], run[i + 1])
  }

  // ---------- the invariant ----------

  /** Until it could expire, a lease the controller has dated is in the table, dated no earlier. */
  ghost predicate Protected(cfg: Config, t: Table, now: int, d: Daemon) {
    d.commit.Some? && now < d.commit.value + cfg.expiration ==>
      Holds(t, d.lease) && d.commit.value <= t[d.lease.underlayIP].renewed
  }

  ghost predicate OnTime(tm: Timing, now: int, d: Daemon) {
    && (d.commit.Some? ==> d.commit.value <= now)
    && (d.renewed ==>
          && d.commit.Some? && d.lastSuccess - tm.latency <= d.commit.value
          && d.lastSuccess <= d.lastCheck < d.lastSuccess + tm.grace
          && d.lastCheck <= now <= d.lastCheck + tm.gap)
  }

  ghost predicate Inv(cfg: Config, tm: Timing, s: State) {
    && Unique(s.table) && Consistent(s)
    && forall u :: u in s.daemons ==> Protected(cfg, s.table, s.now, s.daemons[u]) && OnTime(tm, s.now, s.daemons[u])
  }

  lemma ServesKeepsInv(cfg: Config, tm: Timing, s: State, s': State, e: Event)
    requires Inv(cfg, tm, s) && Serves(cfg, s, s', e)
    ensures Inv(cfg, tm, s')
  {
    hide Happens, HostKeeps, Unique;
    RequestKeepsUnique(cfg, s.table, s'.table, s.now, e);
    forall u | u in s'.daemons
      ensures Protected(cfg, s'.table, s'.now, s'.daemons[u]) && OnTime(tm, s'.now, s'.daemons[u])
    {
      var d := s.daemons[u];
      if d.commit.Some? && s.now < d.commit.value + cfg.expiration {
        RequestKeepsLease(cfg, s.table, s'.table, s.now, e, d.lease, false);
      }
      if e == RenewEvent(d.lease, Renewed) {
        RenewalDates(cfg, s.table, s'.table, s.now, d.lease);
      }
    }
  }

  lemma RequestKeepsUnique(cfg: Config, t: Table, t': Table, now: int, e: Event)
    requires Happens(cfg, t, t', now, e, false) && Unique(t)
    ensures Unique(t')
  {
    hide Acquires, Renews;
    match e
    case AcquireEvent(u, single, out) => AcquireFrame(cfg, t, t', u, single, now, out, false);
    case RenewEvent(l, res) => RenewKeepsUnique(t, t', l, now, res, false);
    case ReleaseEvent(u, ok) =>
  }

  lemma RenewalDates(cfg: Config, t: Table, t': Table, now: int, l: Lease)
    requires Happens(cfg, t, t', now, RenewEvent(l, Renewed), false)
    ensures Holds(t', l) && t'[l.underlayIP].renewed == now
  {
    hide Renews;
    RenewFrame(t, t', l, now, Renewed, false);
  }

  lemma LearningKeepsInv(cfg: Config, tm: Timing, s: State, s': State, u: string)
    requires 0 < tm.grace && 0 <= tm.gap && Inv(cfg, tm, s)
    requires LearnsSuccess(tm, s, s', u) || exists err :: LearnsFailure(tm, s, s', u, err)
    ensures Inv(cfg, tm, s')
  {
    hide Unique, Holds;
    forall v | v in s'.daemons
      ensures Protected(cfg, s'.table, s'.now, s'.daemons[v]) && OnTime(tm, s'.now, s'.daemons[v])
    {
      assert v in s.daemons && Protected(cfg, s.table, s.now, s.daemons[v]) && OnTime(tm, s.now, s.daemons[v]);
    }
  }

  lemma StepKeepsInv(cfg: Config, tm: Timing, s: State, s': State)
    requires 0 < tm.grace && 0 <= tm.gap && Inv(cfg, tm, s) && Step(cfg, tm, s, s')
    ensures Inv(cfg, tm, s')
  {
    hide Serves, Unique, Holds, LearnsSuccess, LearnsFailure;
    if e :| Serves(cfg, s, s', e) {
      ServesKeepsInv(cfg, tm, s, s', e);
    } else if u :| LearnsSuccess(tm, s, s', u) {
      LearningKeepsInv(cfg, tm, s, s', u);
    } else if u, err :| LearnsFailure(tm, s, s', u, err) {
      LearningKeepsInv(cfg, tm, s, s', u);
    }
  }

  lemma {:induction false} InvHolds(cfg: Config, tm: Timing, run: seq<State>, k: nat)
    requires 0 < tm.grace && 0 <= tm.gap && IsRun(cfg, tm, run) && k < |run|
    ensures Inv(cfg, tm, run[k])
  {
    hide Step, Inv;
    if k == 0 {
      InitHasInv(cfg, tm, run[0]);
    } else {
      InvHolds(cfg, tm, run, k - 1);
      StepKeepsInv(cfg, tm, run[k - 1], run[k]);
    }
  }

  lemma InitHasInv(cfg: Config, tm: Timing, s: State)
    requires Init(s)
    ensures Inv(cfg, tm, s)
  {
  }

  // ---------- mutual exclusion ----------

  /** If a lease expires no sooner than the partition tolerance plus the renewal latency plus the longest gap
      between checks, then, from its first learnt success until it exits, a daemon's row is in the table
      with its lease and unexpired: no host can have been given its subnet. */
  lemma RunningDaemonHoldsItsLease(cfg: Config, tm: Timing, run: seq<State>, k: nat, u: string)
    requires 0 < tm.grace && 0 <= tm.gap && tm.grace + tm.latency + tm.gap <= cfg.expiration
    requires IsRun(cfg, tm, run) && k < |run|
    requires u in run[k].daemons && run[k].daemons[u].renewed
    ensures u in run[k].table && LeaseOf(run[k].table, u) == run[k].daemons[u].lease
    ensures !Expired(run[k].table[u], cfg.expiration, run[k].now)
  {
    hide IsRun;
    InvHolds(cfg, tm, run, k);
  }

  /** So no two running daemons ever hold the same subnet or hardware address. */
  lemma NoTwoDaemonsShareSubnet(cfg: Config, tm: Timing, run: seq<State>, k: nat, u: string, v: string)
    requires 0 < tm.grace && 0 <= tm.gap && tm.grace + tm.latency + tm.gap <= cfg.expiration
    requires IsRun(cfg, tm, run) && k < |run| && u != v
    requires u in run[k].daemons && run[k].daemons[u].renewed
    requires v in run[k].daemons && run[k].daemons[v].renewed
    ensures run[k].daemons[u].lease.overlaySubnet != run[k].daemons[v].lease.overlaySubnet
    ensures run[k].daemons[u].lease.hardwareAddr != run[k].daemons[v].lease.hardwareAddr
  {
    hide IsRun;
    RunningDaemonHoldsItsLease(cfg, tm, run, k, u);
    RunningDaemonHoldsItsLease(cfg, tm, run, k, v);
    InvHolds(cfg, tm, run, k);
  }

  /** When both leases are of the pool, neither their address ranges overlap nor are their hardware addresses, however
      written, the same. */
  lemma RunningDaemonsAreDisjoint(cfg: Config, net: Cidr, mask: PrefixLen, tm: Timing, run: seq<State>, k: nat,
                                  u: string, v: string, l: Lease, m: Lease)
    requires net.len <= mask && cfg.pool == MakePool(net, mask)
    requires 0 < tm.grace && 0 <= tm.gap && tm.grace + tm.latency + tm.gap <= cfg.expiration
    requires IsRun(cfg, tm, run) && k < |run| && u != v
    requires u in run[k].daemons && run[k].daemons[u].renewed && run[k].daemons[u].lease == l
    requires v in run[k].daemons && run[k].daemons[v].renewed && run[k].daemons[v].lease == m
    requires PoolLease(cfg, l.overlaySubnet, l.hardwareAddr) && PoolLease(cfg, m.overlaySubnet, m.hardwareAddr)
    ensures ParseCidr(l.overlaySubnet).Some? && ParseCidr(m.overlaySubnet).Some?
    ensures Disjoint(ParseCidr(l.overlaySubnet).value, ParseCidr(m.overlaySubnet).value)
    ensures ParseMac(l.hardwareAddr) != ParseMac(m.hardwareAddr)
  {
    hide IsRun, MakePool, ParseCidr, ParseMac, PrintMac, Octets, HwAddrFor, Shl, Shr;
    NoTwoDaemonsShareSubnet(cfg, tm, run, k, u, v);
    MembersAreDisjoint(net, mask, l.overlaySubnet, m.overlaySubnet);
    PoolLeaseCovers(cfg, net, mask, l.overlaySubnet, l.hardwareAddr);
    PoolLeaseCovers(cfg, net, mask, m.overlaySubnet, m.hardwareAddr);
    var p, q := ParseCidr(l.overlaySubnet).value, ParseCidr(m.overlaySubnet).value;
    NetworkKeepsRange(p);
    NetworkKeepsRange(q);
    assert p.Contains(p.Base()) && q.Contains(q.Base());
    if VtepMac(p.Base()) == VtepMac(q.Base()) {
      VtepMacInjective(p.Base(), q.Base());
    }
  }
}
