/** Theorems about sequences of controller requests, each served on its own. */
module LeaseRuns {
  import opened Wrappers
  import opened Addressing
  import opened IPText
  import opened CidrPool
  import opened LeaseTable
  import opened LeaseProtocol
  import opened Leasing
  import opened Completeness

  datatype Event =
    | AcquireEvent(host: string, single: bool, out: Outcome)
    | RenewEvent(lease: Lease, res: RenewResult)
    | ReleaseEvent(host: string, ok: bool)

  ghost predicate Happens(cfg: Config, t: Table, t': Table, now: int, e: Event, sound: bool) {
    match e
    case AcquireEvent(u, single, out) => Acquires(cfg, t, t', u, single, now, out, sound)
    case RenewEvent(l, res) => Renews(t, t', l, now, res, sound)
    case ReleaseEvent(u, ok) => Releases(t, t', u, ok, sound)
  }

  /** Event i turns table i into table i + 1 at time i. */
  datatype Run = Run(tables: seq<Table>, times: seq<int>, events: seq<Event>)

  ghost predicate IsRun(cfg: Config, r: Run, sound: bool) {
    && |r.tables| == |r.events| + 1 && |r.times| == |r.events|
    && (forall i, j :: 0 <= i < j < |r.times| ==> r.times[i] <= r.times[j])
    && (forall i :: 0 <= i < |r.events| ==> Happens(cfg, r.tables[i], r.tables[i + 1], r.times[i], r.events[i], sound))
  }

  // ---------- stability of a renewed lease ----------

  /** The host neither releases its lease nor asks for another while its subnet is outside the pool. */
  ghost predicate HostKeeps(cfg: Config, l: Lease, e: Event) {
    match e
    case AcquireEvent(u, _, _) => u == l.underlayIP ==> cfg.pool.IsMember(l.overlaySubnet)
    case RenewEvent(_, _) => true
    case ReleaseEvent(u, _) => u != l.underlayIP
  }

  ghost predicate Holds(t: Table, l: Lease) {
    l.underlayIP in t && LeaseOf(t, l.underlayIP) == l
  }

  /** One request, of whichever host and with whatever faults, leaves an unexpired lease with its holder;
      it can only date it anew. */
  lemma RequestKeepsLease(cfg: Config, t: Table, t': Table, now: int, e: Event, l: Lease, sound: bool)
    requires Happens(cfg, t, t', now, e, sound) && Holds(t, l) && HostKeeps(cfg, l, e)
    requires !Expired(t[l.underlayIP], cfg.expiration, now)
    ensures Holds(t', l)
    ensures t'[l.underlayIP].renewed in {t[l.underlayIP].renewed, now}
    ensures e == RenewEvent(l, Renewed) ==> t'[l.underlayIP].renewed == now
    ensures e.AcquireEvent? && e.host == l.underlayIP ==> t' == t && e.out in {Leased(l), Failed}
    ensures e.AcquireEvent? && e.host == l.underlayIP && sound && ParseIPv4(e.host).Some? ==> e.out == Leased(l)
  {
    hide ParseIPv4, Retries, WellFormed, Insertable, IsSingle, RenewAnswer;
    match e
    case AcquireEvent(u, single, out) =>
      AcquireFrame(cfg, t, t', u, single, now, out, sound);
    case RenewEvent(r, res) =>
      RenewFrame(t, t', r, now, res, sound);
    case ReleaseEvent(u, ok) =>
  }

  /** When the lease was last renewed, as seen before event i; `start` is when the run found it renewed. */
  ghost function LatestRenewal(r: Run, l: Lease, start: int, i: nat): int
    requires i <= |r.events| == |r.times|
  {
    if i == 0 then start
    else if r.events[i - 1] == RenewEvent(l, Renewed) then r.times[i - 1]
    else LatestRenewal(r, l, start, i - 1)
  }

  ghost predicate RenewedInTime(cfg: Config, r: Run, l: Lease, start: int)
    requires |r.events| == |r.times|
  {
    forall i :: 0 <= i < |r.events| ==>
      LatestRenewal(r, l, start, i) <= r.times[i] < LatestRenewal(r, l, start, i) + cfg.expiration
  }

  lemma RenewedBefore(cfg: Config, r: Run, l: Lease, start: int, i: nat)
    requires |r.events| == |r.times| && RenewedInTime(cfg, r, l, start) && i < |r.events|
    ensures LatestRenewal(r, l, start, i) <= r.times[i] < LatestRenewal(r, l, start, i) + cfg.expiration
  {
    hide LatestRenewal;
  }

  lemma {:induction false} LeaseSurvives(cfg: Config, r: Run, l: Lease, sound: bool, i: nat)
    requires IsRun(cfg, r, sound) && i <= |r.events|
    requires Holds(r.tables[0], l) && RenewedInTime(cfg, r, l, r.tables[0][l.underlayIP].renewed)
    requires forall k :: 0 <= k < |r.events| ==> HostKeeps(cfg, l, r.events[k])
    ensures Holds(r.tables[i], l)
    ensures r.tables[i][l.underlayIP].renewed >= LatestRenewal(r, l, r.tables[0][l.underlayIP].renewed, i)
  {
    hide Happens, HostKeeps, RenewedInTime;
    if i > 0 {
      LeaseSurvives(cfg, r, l, sound, i - 1);
      RenewedBefore(cfg, r, l, r.tables[0][l.underlayIP].renewed, i - 1);
      RequestKeepsLease(cfg, r.tables[i - 1], r.tables[i], r.times[i - 1], r.events[i - 1], l, sound);
    }
  }

  /** A lease renewed within every expiration window and not given up by its host survives any sequence
      of requests, with any faults: it keeps its row, every listing of routable leases contains it, and a
      repeated acquire of its host is answered with it. */
  lemma LeaseIsStable(cfg: Config, r: Run, l: Lease, sound: bool, i: nat)
    requires IsRun(cfg, r, sound) && i < |r.events|
    requires Holds(r.tables[0], l) && RenewedInTime(cfg, r, l, r.tables[0][l.underlayIP].renewed)
    requires forall k :: 0 <= k < |r.events| ==> HostKeeps(cfg, l, r.events[k])
    ensures Holds(r.tables[i], l) && Holds(r.tables[i + 1], l)
    ensures l.underlayIP in ActiveKeys(r.tables[i], cfg.expiration, r.times[i])
    ensures forall leases :: Lists(leases, r.tables[i], ActiveKeys(r.tables[i], cfg.expiration, r.times[i])) ==>
      l in leases
    ensures r.events[i].AcquireEvent? && r.events[i].host == l.underlayIP && sound && ParseIPv4(l.underlayIP).Some? ==>
      r.events[i].out == Leased(l)
  {
    hide Happens, HostKeeps, ParseIPv4;
    LeaseSurvives(cfg, r, l, sound, i);
    LeaseSurvives(cfg, r, l, sound, i + 1);
    RequestKeepsLease(cfg, r.tables[i], r.tables[i + 1], r.times[i], r.events[i], l, sound);
  }

  // ---------- capacity ----------

  /** A request for the class by a host whose text fits its column. */
  predicate Counts(e: Event, single: bool) {
    e.AcquireEvent? && e.single == single && |e.host| <= 15
  }

  /** The answer a request gets when so many of the class have been granted. */
  predicate AnsweredFor(e: Event, granted: nat, capacity: int) {
    && e.AcquireEvent?
    && (e.out.Leased? <==> granted < capacity && |e.host| <= 15)
    && (e.out == NoLease <==> granted >= capacity)
  }

  /** How many of the first i requests count for the class. */
  ghost function Asked(r: Run, single: bool, i: nat): nat
    requires i <= |r.events|
  {
    if i == 0 then 0
    else Asked(r, single, i - 1) + (if Counts(r.events[i - 1], single) then 1 else 0)
  }

  /** Distinct hosts ask one after the other, starting from an empty table, before anything expires. */
  ghost predicate FillingRun(cfg: Config, r: Run) {
    && IsRun(cfg, r, true) && r.tables[0] == map[]
    && (forall i :: 0 <= i < |r.events| ==> r.events[i].AcquireEvent? && ParseIPv4(r.events[i].host).Some?)
    && (forall i, j :: 0 <= i < j < |r.events| ==> r.events[i].host != r.events[j].host)
    && (forall i, j :: 0 <= i <= j < |r.times| ==> r.times[j] < r.times[i] + cfg.expiration)
  }

  function Min(a: nat, b: nat): nat {
    if a <= b then a else b
  }

  ghost predicate Filled(cfg: Config, r: Run, i: nat)
    requires i <= |r.events| && |r.times| == |r.events| && i < |r.tables|
  {
    && Healthy(cfg, r.tables[i])
    && (forall u :: u in r.tables[i] ==> exists j ::
          0 <= j < i && r.events[j].AcquireEvent? && r.events[j].host == u && r.tables[i][u].renewed == r.times[j])
    && |Taken(r.tables[i], false)| == Min(Asked(r, false, i), |cfg.pool.blocks|)
    && |Taken(r.tables[i], true)| == Min(Asked(r, true, i), |cfg.pool.singles|)
  }

  lemma SubsetIsFull(a: set<string>, b: set<string>)
    requires a <= b
    ensures |a| <= |b|
    ensures |a| == |b| <==> b <= a
  {
    var rest := b - a;
    assert b == a + rest;
    if |a| == |b| {
      assert rest == {};
    }
  }

  /** Granting adds one subnet to the class asked for and none to the other. */
  lemma GrantTakesOne(cfg: Config, net: Cidr, mask: PrefixLen, t: Table, t': Table, u: string, single: bool, now: int,
                      s: string)
    requires Built(cfg, net, mask) && Healthy(cfg, t) && CanChoose(cfg, t, single, now, Free(s))
    requires u !in t && GrantTable(t, u, now, Free(s)) == Some(t')
    ensures Taken(t', single) == Taken(t, single) + {s} && s !in Taken(t, single)
    ensures Taken(t', !single) == Taken(t, !single)
  {
    hide HwAddrFor, IsSingle, MakePool, Insertable;
    TakenOnHealthy(cfg, net, mask, t, single);
    assert t'[u].subnet == s;
    assert t' == t[u := t'[u]];
    assert IsSingle(s) == single;
    forall x, b ensures x in Taken(t', b) <==> x in Taken(t, b) || (b == single && x == s) {
      if x in Taken(t', b) {
        var v :| v in t' && IsSingle(t'[v].subnet) == b && t'[v].subnet == x;
        if v != u { assert t[v].subnet == x; }
      }
      if x in Taken(t, b) {
        var v :| v in t && IsSingle(t[v].subnet) == b && t[v].subnet == x;
        assert t'[v].subnet == x;
      }
    }
  }

  lemma {:induction false} RunFills(cfg: Config, net: Cidr, mask: PrefixLen, r: Run, i: nat)
    requires Built(cfg, net, mask) && FillingRun(cfg, r) && i <= |r.events|
    ensures Filled(cfg, r, i)
    ensures i < |r.events| ==>
      var e := r.events[i];
      e.AcquireEvent? && AnsweredFor(e, Asked(r, e.single, i), |cfg.pool.Class(e.single)|)
  {
    hide Built, Happens, ParseIPv4, Filled, AcquireAnswer, Healthy, NoneExpired;
    if i > 0 {
      RunFills(cfg, net, mask, r, i - 1);
      FillStep(cfg, net, mask, r, i - 1);
    } else {
      NothingIsFilled(cfg, r);
    }
    if i < |r.events| {
      FillAnswer(cfg, net, mask, r, i);
    }
  }

  lemma NothingIsFilled(cfg: Config, r: Run)
    requires FillingRun(cfg, r)
    ensures Filled(cfg, r, 0)
  {
    hide Happens, ParseIPv4, IsSingle;
    assert Taken(map[], false) == {} && Taken(map[], true) == {};
  }

  lemma FillAnswer(cfg: Config, net: Cidr, mask: PrefixLen, r: Run, i: nat)
    requires Built(cfg, net, mask) && FillingRun(cfg, r) && i < |r.events| && Filled(cfg, r, i)
    ensures var e, t, t' := r.events[i], r.tables[i], r.tables[i + 1];
      && e.host !in t && Healthy(cfg, t')
      && (if |e.host| <= 15 then AcquireAnswer(cfg, t, t', e.host, e.single, r.times[i], e.out) else t' == t)
      && (forall b :: NoneExpired(t, b, cfg.expiration, r.times[i]))
      && AnsweredFor(e, Asked(r, e.single, i), |cfg.pool.Class(e.single)|)
  {
    hide HwAddrFor, IsSingle, MakePool, ParseIPv4, Acquires, PoolLease, Unique, Insertable, GrantTable, GrantLease,
         Built, ClassIsHeld;
    var e, t, t' := r.events[i], r.tables[i], r.tables[i + 1];
    assert Happens(cfg, t, t', r.times[i], e, true);
    TakenOnHealthy(cfg, net, mask, t, e.single);
    SubsetIsFull(Taken(t, e.single), cfg.pool.Class(e.single));
    forall v | v in t ensures !Expired(t[v], cfg.expiration, r.times[i]) {
      var j :| 0 <= j < i && r.events[j].AcquireEvent? && r.events[j].host == v && t[v].renewed == r.times[j];
    }
    if |e.host| <= 15 {
      AcquireIsDecided(cfg, net, mask, t, t', e.host, e.single, r.times[i], e.out);
    } else {
      LongHostIsRefused(cfg, net, mask, t, t', e.host, e.single, r.times[i], e.out);
      ExhaustedIsHeld(cfg, net, mask, t, e.single, r.times[i]);
    }
  }

  lemma GrantShape(t: Table, t': Table, u: string, now: int, s: string)
    requires GrantTable(t, u, now, Free(s)) == Some(t')
    ensures u in t' && t' == t[u := t'[u]] && t'[u].renewed == now
  {
  }

  lemma FillStep(cfg: Config, net: Cidr, mask: PrefixLen, r: Run, i: nat)
    requires Built(cfg, net, mask) && FillingRun(cfg, r) && i < |r.events| && Filled(cfg, r, i)
    ensures Filled(cfg, r, i + 1)
  {
    hide HwAddrFor, IsSingle, MakePool, ParseIPv4, Acquires, PoolLease, Healthy, Built, GrantTable, GrantLease,
         Happens, Taken;
    FillAnswer(cfg, net, mask, r, i);
    var e, t, t' := r.events[i], r.tables[i], r.tables[i + 1];
    if e.out.Leased? {
      var c :| CanChoose(cfg, t, e.single, r.times[i], c) && GrantLease(t, e.host, c) == Some(e.out.lease)
               && GrantTable(t, e.host, r.times[i], c) == Some(t');
      assert c.Free?;
      GrantTakesOne(cfg, net, mask, t, t', e.host, e.single, r.times[i], c.subnet);
      GrantShape(t, t', e.host, r.times[i], c.subnet);
    }
  }

  /** From an empty table, with nothing expiring, exactly the first 2^(mask - netLen) - 1 block requests and the first
      2^(32 - mask) - 1 single-address requests of distinct hosts whose texts fit are granted, however the two kinds
      are mixed; every later one is told that no lease is available, and requests with longer texts take nothing. */
  lemma CapacityIsExact(cfg: Config, net: Cidr, mask: PrefixLen, r: Run, i: nat)
    requires Built(cfg, net, mask) && FillingRun(cfg, r) && i < |r.events|
    ensures r.events[i].AcquireEvent?
    ensures var e := r.events[i];
      var capacity := if e.single then Shl(1, 32 - mask) - 1 else Shl(1, mask - net.len) - 1;
      AnsweredFor(e, Asked(r, e.single, i), capacity)
  {
    hide MakePool, IsRun, Shl;
    PoolSizes(net, mask);
    RunFills(cfg, net, mask, r, i);
    ShlAdds(1, 0, 32 - mask);
  }
}
