/** Daemons over controllers whose requests interleave statement by statement: if no controller waits long between
    finding an expired row and deleting it, a daemon soon is as safe as if requests were served one by one. */
module StatementExclusion {
  import opened Wrappers
  import opened LeaseTable
  import opened LeaseProtocol
  import opened LeaseRuns
  import opened Renewal
  import opened Interleaving
  import opened Eviction
  import Exclusion

  /** A running daemon.  `first` and `commit` are the times of the first and the latest statement that dated its row
      since it started; it is settled once a renewal is dated more than `span` after the first one. */
  datatype Daemon = Daemon(lease: Lease, first: Option<int>, commit: Option<int>, settled: bool,
                           lastSuccess: int, lastCheck: int)

  datatype Joint = Joint(base: Interleaving.State, daemons: map<string, Daemon>)

  /** The longest wait between read and delete, besides the timing of the daemons. */
  datatype Bounds = Bounds(timing: Exclusion.Timing, span: int)

  predicate NamesHost(p: Proc, u: string) {
    match p
    case Done(_) => false
    case LookingUp(h, _) => h == u
    case Dropping(h, _) => h == u
    case Listing(h, _, _) => h == u
    case Searching(h, _, _) => h == u
    case Evicting(h, _, _, _, _, _) => h == u
    case Inserting(_, _, l) => l.underlayIP == u
    case RenewLooking(l) => l.underlayIP == u
    case RenewAdding(l) => l.underlayIP == u
    case RenewTouching(l) => l.underlayIP == u
    case RenewReading(l) => l.underlayIP == u
    case Releasing(h) => h == u
  }

  predicate IsRenewal(p: Proc, l: Lease) {
    p == RenewLooking(l) || p == RenewAdding(l) || p == RenewTouching(l) || p == RenewReading(l)
  }

  /** While a daemon runs, all requests in its host's name are renewals of its lease. */
  ghost predicate Quiet(s: Joint) {
    forall u, i :: u in s.daemons && 0 <= i < |s.base.procs| && NamesHost(s.base.procs[i], u) ==>
      IsRenewal(s.base.procs[i], s.daemons[u].lease)
  }

  /** A daemon starts when no request in its host's name is under way. */
  ghost predicate Starts(s: Joint, s': Joint, l: Lease) {
    && l.underlayIP !in s.daemons
    && (forall i :: 0 <= i < |s.base.procs| ==> !NamesHost(s.base.procs[i], l.underlayIP))
    && s' == s.(daemons := s.daemons[l.underlayIP := Daemon(l, None, None, false, s.base.now, s.base.now)])
  }

  /** The statement of process i dates the daemon's row. */
  predicate DatesRow(s: Interleaving.State, s': Interleaving.State, i: nat, d: Daemon) {
    && i < |s.procs| && s.procs[i] == RenewTouching(d.lease) && d.lease.underlayIP in s.table
    && s'.table == Touch(s.table, d.lease.underlayIP, s.now)
  }

  function Dated(b: Bounds, s: Interleaving.State, s': Interleaving.State, i: nat, d: Daemon): Daemon {
    if !DatesRow(s, s', i, d) then d
    else if d.first.None? then d.(first := Some(s.now), commit := Some(s.now))
    else d.(commit := Some(s.now), settled := d.settled || s.now > d.first.value + b.span)
  }

  ghost predicate Runs(cfg: Config, b: Bounds, s: Joint, s': Joint, i: nat) {
    && ProcStep(cfg, s.base, s'.base, i)
    && s'.daemons == map u | u in s.daemons :: Dated(b, s.base, s'.base, i, s.daemons[u])
  }

  ghost predicate LearnsSuccess(b: Bounds, s: Joint, s': Joint, u: string) {
    && u in s.daemons && s.daemons[u].commit.Some? && s.base.now - s.daemons[u].commit.value <= b.timing.latency
    && s' == s.(daemons := s.daemons[u := s.daemons[u].(lastSuccess := s.base.now, lastCheck := s.base.now)])
  }

  ghost predicate LearnsFailure(b: Bounds, s: Joint, s': Joint, u: string, err: RenewResult) {
    && u in s.daemons && err != Renewed
    && s' == s.(daemons := if Fatal(err, s.base.now, s.daemons[u].lastSuccess, b.timing.grace) then s.daemons - {u}
                           else s.daemons[u := s.daemons[u].(lastCheck := s.base.now)])
  }

  ghost predicate Passes(b: Bounds, s: Joint, s': Joint) {
    && s.base.now <= s'.base.now && s' == s.(base := s.base.(now := s'.base.now))
    && forall u :: u in s.daemons ==> s'.base.now <= s.daemons[u].lastCheck + b.timing.gap
  }

  ghost predicate Step(cfg: Config, b: Bounds, s: Joint, s': Joint) {
    || (exists l :: Starts(s, s', l))
    || (exists i :: Runs(cfg, b, s, s', i))
    || (exists u :: LearnsSuccess(b, s, s', u))
    || (exists u, err :: LearnsFailure(b, s, s', u, err))
    || (exists u :: s' == s.(daemons := s.daemons - {u}))
    || Passes(b, s, s')
  }

  function BaseRun(run: seq<Joint>): (base: seq<Interleaving.State>)
    ensures |base| == |run| && forall i :: 0 <= i < |run| ==> base[i] == run[i].base
  {
    if run == [] then [] else [run[0].base] + BaseRun(run[1..])
  }

  ghost predicate IsRun(cfg: Config, b: Bounds, run: seq<Joint>) {
    && run != [] && Interleaving.Init(run[0].base) && run[0].daemons == map[]
    && (forall i :: 0 <= i < |run| - 1 ==> Step(cfg, b, run[i], run[i + 1]))
    && (forall i :: 0 <= i < |run| ==> Quiet(run[i]))
    && WaitsWithin(cfg, BaseRun(run), b.span)
  }

  /** The expiration covers the grace period, the latency and the gap, as it does for whole requests. */
  predicate InBounds(cfg: Config, b: Bounds) {
    && 0 < b.timing.grace && 0 <= b.timing.latency && 0 <= b.timing.gap
    && b.timing.grace + b.timing.latency + b.timing.gap <= cfg.expiration
  }

  lemma BaseIsRun(cfg: Config, b: Bounds, run: seq<Joint>)
    requires IsRun(cfg, b, run)
    ensures Interleaving.IsRun(cfg, BaseRun(run))
  {
    hide Statement, Quiet, WaitsWithin, Eviction.Reads;
    var base := BaseRun(run);
    forall i | 0 <= i < |base| - 1 ensures Interleaving.Step(cfg, base[i], base[i + 1]) {
      assert Step(cfg, b, run[i], run[i + 1]);
    }
  }

  // ---------- the invariant ----------

  ghost predicate OnTime(b: Bounds, now: int, d: Daemon) {
    && d.lastSuccess <= d.lastCheck <= now <= d.lastCheck + b.timing.gap
    && d.lastCheck < d.lastSuccess + b.timing.grace
    && (d.commit.Some? <==> d.first.Some?)
    && (d.commit.Some? ==> d.first.value <= d.commit.value <= now && d.lastSuccess - b.timing.latency <= d.commit.value)
  }

  /** A row dated for the daemon keeps that date or gets a later one; what a renewal is about to date is the lease. */
  ghost predicate RowIsOwn(s: Interleaving.State, d: Daemon) {
    var u := d.lease.underlayIP;
    && (d.commit.Some? && u in s.table ==> d.commit.value <= s.table[u].renewed)
    && (u in s.table ==>
          forall i :: 0 <= i < |s.procs| && s.procs[i] == RenewTouching(d.lease) ==> LeaseOf(s.table, u) == d.lease)
  }

  ghost predicate KeepsRow(b: Bounds, s: Interleaving.State, d: Daemon) {
    d.settled ==> d.first.Some? && s.now > d.first.value + b.span && Holds(s.table, d.lease)
  }

  ghost predicate Inv(b: Bounds, s: Joint) {
    forall u :: u in s.daemons ==>
      && s.daemons[u].lease.underlayIP == u && OnTime(b, s.base.now, s.daemons[u])
      && RowIsOwn(s.base, s.daemons[u]) && KeepsRow(b, s.base, s.daemons[u])
  }

  /** No process is about to evict the row of a settled daemon. */
  ghost predicate Unawaited(s: Joint) {
    forall u, i :: u in s.daemons && s.daemons[u].settled && 0 <= i < |s.base.procs| && s.base.procs[i].Evicting? ==>
      s.base.procs[i].victim != u
  }

  /** What one statement does to the row of a daemon's host. */
  lemma StatementOnRow(cfg: Config, t: Table, t': Table, now: int, p: Proc, p': Proc, l: Lease)
    requires Statement(cfg, t, t', now, p, p')
    requires NamesHost(p, l.underlayIP) ==> IsRenewal(p, l)
    ensures var u := l.underlayIP;
      && (u in t && u !in t' ==> p.Evicting? && p.victim == u)
      && (u in t && u in t' ==> LeaseOf(t', u) == LeaseOf(t, u) && (t'[u] == t[u] || t'[u].renewed == now))
      && (u !in t && u in t' ==> LeaseOf(t', u) == l && t'[u].renewed == now)
      && (p' == RenewTouching(l) && u in t' ==> LeaseOf(t', u) == l)
  {
    hide WellFormed, HwAddrFor, IsSingle, FitsColumns, PoolCovered, Taken, OldestExpired, NoneExpired;
  }

  lemma RunsKeepsDaemon(cfg: Config, b: Bounds, s: Joint, s': Joint, i: nat, u: string)
    requires Runs(cfg, b, s, s', i) && Quiet(s) && Inv(b, s) && Unawaited(s) && InBounds(cfg, b) && u in s.daemons
    ensures var d := s'.daemons[u];
      d.lease.underlayIP == u && OnTime(b, s'.base.now, d) && RowIsOwn(s'.base, d) && KeepsRow(b, s'.base, d)
  {
    hide Statement, IsRenewal, NamesHost;
    var d, p, p' := s.daemons[u], s.base.procs[i], s'.base.procs[i];
    assert NamesHost(p, u) ==> IsRenewal(p, d.lease);
    StatementOnRow(cfg, s.base.table, s'.base.table, s.base.now, p, p', d.lease);
    var d' := s'.daemons[u];
    assert d' == Dated(b, s.base, s'.base, i, d);
    forall j | 0 <= j < |s'.base.procs| && s'.base.procs[j] == RenewTouching(d.lease) && u in s'.base.table
      ensures LeaseOf(s'.base.table, u) == d.lease
    {
      if j != i { assert s.base.procs[j] == s'.base.procs[j]; }
    }
  }

  lemma StartKeepsInv(cfg: Config, b: Bounds, s: Joint, s': Joint, l: Lease)
    requires Inv(b, s) && InBounds(cfg, b) && Starts(s, s', l)
    ensures Inv(b, s')
  {
    hide Holds;
    var d := s'.daemons[l.underlayIP];
    assert OnTime(b, s'.base.now, d) && KeepsRow(b, s'.base, d);
    assert RowIsOwn(s'.base, d) by {
      assert forall i :: 0 <= i < |s.base.procs| ==> !NamesHost(s.base.procs[i], l.underlayIP);
    }
    hide OnTime, RowIsOwn, KeepsRow;
    assert forall u :: u in s'.daemons && u != l.underlayIP ==> u in s.daemons && s'.daemons[u] == s.daemons[u];
  }

  lemma SuccessKeepsInv(cfg: Config, b: Bounds, s: Joint, s': Joint, u: string)
    requires Inv(b, s) && InBounds(cfg, b) && LearnsSuccess(b, s, s', u)
    ensures Inv(b, s')
  {
    hide Holds;
  }

  lemma FailureKeepsInv(b: Bounds, s: Joint, s': Joint, u: string, err: RenewResult)
    requires Inv(b, s) && LearnsFailure(b, s, s', u, err)
    ensures Inv(b, s')
  {
    hide Holds;
  }

  lemma StopKeepsInv(b: Bounds, s: Joint, s': Joint, u: string)
    requires Inv(b, s) && s' == s.(daemons := s.daemons - {u})
    ensures Inv(b, s')
  {
    hide OnTime, RowIsOwn, KeepsRow;
  }

  lemma PassKeepsInv(b: Bounds, s: Joint, s': Joint)
    requires Inv(b, s) && Passes(b, s, s')
    ensures Inv(b, s')
  {
    hide Holds;
  }

  lemma OtherStepKeepsInv(cfg: Config, b: Bounds, s: Joint, s': Joint)
    requires Inv(b, s) && InBounds(cfg, b) && Step(cfg, b, s, s') && Quiet(s')
    requires forall i :: !Runs(cfg, b, s, s', i)
    ensures Inv(b, s')
  {
    hide Runs, Holds, Starts, LearnsSuccess, LearnsFailure, Passes, Inv, Quiet, InBounds;
    if l :| Starts(s, s', l) {
      StartKeepsInv(cfg, b, s, s', l);
    } else if u :| LearnsSuccess(b, s, s', u) {
      SuccessKeepsInv(cfg, b, s, s', u);
    } else if u, err :| LearnsFailure(b, s, s', u, err) {
      FailureKeepsInv(b, s, s', u, err);
    } else if u :| s' == s.(daemons := s.daemons - {u}) {
      StopKeepsInv(b, s, s', u);
    } else {
      PassKeepsInv(b, s, s');
    }
  }

  // ---------- who may still evict ----------

  lemma RunStep(cfg: Config, b: Bounds, run: seq<Joint>, a: nat, k: nat)
    requires IsRun(cfg, b, run) && a <= k < |run| - 1
    ensures Step(cfg, b, run[k], run[k + 1]) && run[a].base.now <= run[k].base.now
  {
    hide Step, Quiet, WaitsWithin, Interleaving.IsRun;
    BaseIsRun(cfg, b, run);
    TimePasses(cfg, BaseRun(run), a, k);
  }

  lemma {:induction false} FirstPersists(cfg: Config, b: Bounds, run: seq<Joint>, a: nat, k: nat, u: string, f: int)
    requires IsRun(cfg, b, run) && a <= k < |run|
    requires u in run[k].daemons && run[k].daemons[u].first == Some(f) && run[a].base.now > f
    ensures u in run[a].daemons && run[a].daemons[u].first == Some(f)
    decreases k
  {
    hide Step, IsRun;
    if a < k {
      RunStep(cfg, b, run, a, k - 1);
      FirstWasSet(cfg, b, run[k - 1], run[k], u, f);
      FirstPersists(cfg, b, run, a, k - 1, u, f);
    }
  }

  lemma FirstWasSet(cfg: Config, b: Bounds, s: Joint, s': Joint, u: string, f: int)
    requires Step(cfg, b, s, s') && u in s'.daemons && s'.daemons[u].first == Some(f) && s.base.now > f
    ensures u in s.daemons && s.daemons[u].first == Some(f)
  {
    hide ProcStep, Fatal, NamesHost;
  }

  /** A daemon's row cannot be found expired after its first dating, so who still waits to evict it has waited long. */
  lemma EvictorsGiveUp(cfg: Config, b: Bounds, run: seq<Joint>, k: nat, u: string, i: nat)
    requires IsRun(cfg, b, run) && k < |run| && InBounds(cfg, b)
    requires forall j :: 0 <= j < k ==> Inv(b, run[j])
    requires u in run[k].daemons && run[k].daemons[u].first.Some?
    requires i < |run[k].base.procs| && run[k].base.procs[i].Evicting? && run[k].base.procs[i].victim == u
    ensures run[k].base.now <= run[k].daemons[u].first.value + b.span
  {
    hide Statement, Quiet, Step, Eviction.Reads, Inv;
    var base, f := BaseRun(run), run[k].daemons[u].first.value;
    BaseIsRun(cfg, b, run);
    var a := EvictionsWereRead(cfg, base, k, i);
    ReadWasExpired(cfg, base, a, i);
    assert base[a + 1].procs[i] == base[k].procs[i];
    if run[a].base.now > f {
      FirstPersists(cfg, b, run, a, k, u, f);
      assert Inv(b, run[a]);
      DatedRowIsActive(cfg, b, run[a], u);
    }
  }

  lemma DatedRowIsActive(cfg: Config, b: Bounds, s: Joint, u: string)
    requires Inv(b, s) && InBounds(cfg, b) && u in s.daemons && s.daemons[u].first.Some? && u in s.base.table
    ensures !Expired(s.base.table[u], cfg.expiration, s.base.now)
  {
    hide Holds;
  }

  lemma SettledAreUnawaited(cfg: Config, b: Bounds, run: seq<Joint>, k: nat)
    requires IsRun(cfg, b, run) && k < |run| && InBounds(cfg, b)
    requires forall j :: 0 <= j <= k ==> Inv(b, run[j])
    ensures Unawaited(run[k])
  {
    hide IsRun, Holds;
    forall u, i | u in run[k].daemons && run[k].daemons[u].settled && 0 <= i < |run[k].base.procs|
                  && run[k].base.procs[i].Evicting?
      ensures run[k].base.procs[i].victim != u
    {
      if run[k].base.procs[i].victim == u {
        assert Inv(b, run[k]);
        EvictorsGiveUp(cfg, b, run, k, u, i);
      }
    }
  }

  lemma {:induction false} InvHolds(cfg: Config, b: Bounds, run: seq<Joint>, k: nat)
    requires IsRun(cfg, b, run) && k < |run| && InBounds(cfg, b)
    ensures forall j :: 0 <= j <= k ==> Inv(b, run[j])
  {
    hide Step, Quiet, WaitsWithin, Unawaited;
    if k > 0 {
      InvHolds(cfg, b, run, k - 1);
      var s, s' := run[k - 1], run[k];
      assert Step(cfg, b, s, s');
      if i: nat :| Runs(cfg, b, s, s', i) {
        SettledAreUnawaited(cfg, b, run, k - 1);
        forall u | u in s'.daemons
          ensures
            && s'.daemons[u].lease.underlayIP == u && OnTime(b, s'.base.now, s'.daemons[u])
            && RowIsOwn(s'.base, s'.daemons[u]) && KeepsRow(b, s'.base, s'.daemons[u])
        {
          RunsKeepsDaemon(cfg, b, s, s', i, u);
        }
      } else {
        OtherStepKeepsInv(cfg, b, s, s');
      }
    }
  }

  /** Statement by statement, from the first renewal dated more than the span after its first one until it exits, a
      daemon's row is in the table with its lease, unexpired, and no other row has its subnet or hardware address. */
  lemma SettledDaemonHoldsItsLease(cfg: Config, b: Bounds, run: seq<Joint>, k: nat, u: string)
    requires IsRun(cfg, b, run) && k < |run| && InBounds(cfg, b)
    requires u in run[k].daemons && run[k].daemons[u].settled
    ensures var t, l := run[k].base.table, run[k].daemons[u].lease;
      && u in t && LeaseOf(t, u) == l && !Expired(t[u], cfg.expiration, run[k].base.now)
      && forall v :: v in t && v != u ==> t[v].subnet != l.overlaySubnet && t[v].hwaddr != l.hardwareAddr
  {
    hide IsRun, Interleaving.IsRun;
    InvHolds(cfg, b, run, k);
    assert Inv(b, run[k]);
    DatedRowIsActive(cfg, b, run[k], u);
    BaseIsRun(cfg, b, run);
    TableStaysUnique(cfg, BaseRun(run), k);
  }

  /** So no two settled daemons have a subnet or a hardware address with the same text. */
  lemma SettledDaemonsDiffer(cfg: Config, b: Bounds, run: seq<Joint>, k: nat, u: string, v: string)
    requires IsRun(cfg, b, run) && k < |run| && InBounds(cfg, b) && u != v
    requires u in run[k].daemons && run[k].daemons[u].settled && v in run[k].daemons && run[k].daemons[v].settled
    ensures run[k].daemons[u].lease.overlaySubnet != run[k].daemons[v].lease.overlaySubnet
    ensures run[k].daemons[u].lease.hardwareAddr != run[k].daemons[v].lease.hardwareAddr
  {
    hide IsRun;
    SettledDaemonHoldsItsLease(cfg, b, run, k, u);
    SettledDaemonHoldsItsLease(cfg, b, run, k, v);
  }

  // ---------- daemons do settle ----------

  /** One process serves two renewals of a daemon's lease, the second one more than the span after the first. */
  ghost function SettlingRun(b: Bounds, l: Lease): seq<Joint> {
    var u, later := l.underlayIP, b.span + 1;
    var row: Table := map[u := Row(l.overlaySubnet, l.hardwareAddr, 0)];
    var dated: Table := map[u := Row(l.overlaySubnet, l.hardwareAddr, later)];
    var idle, renewed := Done(ToRenew(Retriable)), Done(ToRenew(Renewed));
    var started := Daemon(l, None, None, false, 0, 0);
    var once := Daemon(l, Some(0), Some(0), false, 0, 0);
    var twice := Daemon(l, Some(0), Some(later), true, 0, 0);
    [ Joint(State(map[], 0, [idle]), map[]),
      Joint(State(map[], 0, [idle]), map[u := started]),
      Joint(State(map[], 0, [RenewLooking(l)]), map[u := started]),
      Joint(State(map[], 0, [RenewAdding(l)]), map[u := started]),
      Joint(State(row, 0, [RenewTouching(l)]), map[u := started]),
      Joint(State(row, 0, [RenewReading(l)]), map[u := once]),
      Joint(State(row, 0, [renewed]), map[u := once]),
      Joint(State(row, later, [renewed]), map[u := once]),
      Joint(State(row, later, [RenewLooking(l)]), map[u := once]),
      Joint(State(row, later, [RenewTouching(l)]), map[u := once]),
      Joint(State(dated, later, [RenewReading(l)]), map[u := twice])]
  }

  lemma FirstRenewalRuns(cfg: Config, b: Bounds, l: Lease, k: nat)
    requires InBounds(cfg, b) && 0 <= b.span < b.timing.gap && WellFormed(l) && FitsColumns(l) && k < 6
    ensures var run := SettlingRun(b, l); Step(cfg, b, run[k], run[k + 1])
  {
    hide WellFormed, FitsColumns;
    var run := SettlingRun(b, l);
    if k == 0 {
      assert Starts(run[0], run[1], l);
    } else {
      assert run[k + 1].base.procs == run[k].base.procs[0 := run[k + 1].base.procs[0]];
      assert ProcStep(cfg, run[k].base, run[k + 1].base, 0);
      assert Runs(cfg, b, run[k], run[k + 1], 0);
    }
  }

  lemma SecondRenewalRuns(cfg: Config, b: Bounds, l: Lease, k: nat)
    requires InBounds(cfg, b) && 0 <= b.span < b.timing.gap && WellFormed(l) && 6 <= k < 10
    ensures var run := SettlingRun(b, l); Step(cfg, b, run[k], run[k + 1])
  {
    hide WellFormed, Insertable;
    var run := SettlingRun(b, l);
    if k == 6 {
      assert Passes(b, run[6], run[7]);
    } else {
      assert run[k + 1].base.procs == run[k].base.procs[0 := run[k + 1].base.procs[0]];
      assert ProcStep(cfg, run[k].base, run[k + 1].base, 0);
      assert Runs(cfg, b, run[k], run[k + 1], 0);
    }
  }

  ghost predicate EndsSettled(run: seq<Joint>, l: Lease)
    requires run != []
  {
    var daemons := run[|run| - 1].daemons;
    l.underlayIP in daemons && daemons[l.underlayIP].lease == l && daemons[l.underlayIP].settled
  }

  /** A daemon whose lease is free settles with its second renewal, if that comes after the span. */
  lemma DaemonSettles(cfg: Config, b: Bounds, l: Lease)
    requires InBounds(cfg, b) && 0 <= b.span < b.timing.gap && WellFormed(l) && FitsColumns(l)
    ensures exists run: seq<Joint> :: IsRun(cfg, b, run) && EndsSettled(run, l)
  {
    hide Step, WellFormed, Quiet, WaitsWithin;
    var run := SettlingRun(b, l);
    forall k | 0 <= k < |run| - 1 ensures Step(cfg, b, run[k], run[k + 1]) {
      if k < 6 { FirstRenewalRuns(cfg, b, l, k); } else { SecondRenewalRuns(cfg, b, l, k); }
    }
    forall k | 0 <= k < |run| ensures Quiet(run[k]) {
      SettlingIsQuiet(b, l, k);
    }
    assert forall k :: 0 <= k < |run| ==> NobodySearches(run[k].base);
    assert WaitsWithin(cfg, BaseRun(run), b.span) by { NobodyWaits(cfg, BaseRun(run), b.span); }
    assert IsRun(cfg, b, run);
  }

  lemma SettlingIsQuiet(b: Bounds, l: Lease, k: nat)
    requires k < 11
    ensures Quiet(SettlingRun(b, l)[k])
  {
  }

  predicate NobodySearches(s: Interleaving.State) {
    forall i :: 0 <= i < |s.procs| ==> !s.procs[i].Searching?
  }

  lemma NobodyWaits(cfg: Config, base: seq<Interleaving.State>, span: int)
    requires forall k :: 0 <= k < |base| ==> NobodySearches(base[k])
    ensures WaitsWithin(cfg, base, span)
  {
    hide Statement;
    forall a: nat, i: nat | a + 1 < |base| ensures !Eviction.Reads(cfg, base, a, i) {
      assert NobodySearches(base[a]);
    }
  }
}
