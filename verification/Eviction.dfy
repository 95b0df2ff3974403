/** When a stale read makes a controller delete a lease that has been renewed meanwhile. */
module Eviction {
  import opened Wrappers
  import opened IPText
  import opened LeaseTable
  import opened LeaseProtocol
  import opened Leasing
  import opened Interleaving

  // ---------- the history of a row ----------

  /** A step inserts the row of v or gives it another date. */
  ghost predicate Dates(s: State, s': State, v: string) {
    v in s'.table && s'.table[v].renewed == s.now && (v !in s.table || s'.table[v] != s.table[v])
  }

  lemma StepDates(cfg: Config, s: State, s': State, v: string)
    requires Step(cfg, s, s') && v in s'.table
    ensures (v in s.table && s'.table[v] == s.table[v]) || Dates(s, s', v)
    ensures s.now <= s'.now
  {
    hide WellFormed, HwAddrFor, IsSingle, Insertable, PoolCovered, Taken, OldestExpired, NoneExpired, ParseIPv4;
  }

  lemma {:induction false} TimePasses(cfg: Config, run: seq<State>, a: nat, b: nat)
    requires IsRun(cfg, run) && a <= b < |run|
    ensures run[a].now <= run[b].now
    decreases b
  {
    hide Statement;
    if a < b {
      TimePasses(cfg, run, a, b - 1);
      assert Step(cfg, run[b - 1], run[b]);
    }
  }

  ghost predicate DatedAt(run: seq<State>, j: nat, v: string) {
    j + 1 < |run| && Dates(run[j], run[j + 1], v)
  }

  /** A row carries the time of the last step that dated it. */
  lemma {:induction false} LastDating(cfg: Config, run: seq<State>, a: nat, b: nat, v: string)
    requires IsRun(cfg, run) && a <= b < |run| && v in run[b].table
    ensures
      || (v in run[a].table && run[b].table[v] == run[a].table[v])
      || (exists j :: a <= j < b && DatedAt(run, j, v) && run[b].table[v].renewed == run[j].now)
    decreases b
  {
    hide Step, Dates;
    if a < b {
      StepDates(cfg, run[b - 1], run[b], v);
      if v in run[b - 1].table && run[b].table[v] == run[b - 1].table[v] {
        LastDating(cfg, run, a, b - 1, v);
      } else {
        assert DatedAt(run, b - 1, v) && run[b].table[v].renewed == run[b - 1].now by { DatingIsNow(run, b - 1, v); }
      }
    }
  }

  lemma DatingIsNow(run: seq<State>, j: nat, v: string)
    requires j + 1 < |run| && Dates(run[j], run[j + 1], v)
    ensures v in run[j + 1].table && run[j + 1].table[v].renewed == run[j].now
  {
  }

  lemma DateIsLater(cfg: Config, run: seq<State>, j: nat, b: nat, v: string)
    requires IsRun(cfg, run) && j < b < |run| && v in run[b].table && DatedAt(run, j, v)
    ensures run[b].table[v].renewed >= run[j].now
  {
    hide IsRun;
    LastDating(cfg, run, j + 1, b, v);
    if k :| j + 1 <= k < b && DatedAt(run, k, v) && run[b].table[v].renewed == run[k].now {
      TimePasses(cfg, run, j, k);
    }
  }

  // ---------- from the read to the delete ----------

  /** In step a process i reads the row it is going to evict. */
  ghost predicate Reads(cfg: Config, run: seq<State>, a: nat, i: nat) {
    && a + 1 < |run| && ProcStep(cfg, run[a], run[a + 1], i)
    && run[a].procs[i].Searching? && run[a + 1].procs[i].Evicting?
  }

  /** From then to state b it has not gone on. */
  ghost predicate Waits(run: seq<State>, a: nat, b: nat, i: nat) {
    && a < b < |run| && i < |run[b].procs|
    && forall j :: a < j <= b ==> i < |run[j].procs| && run[j].procs[i] == run[b].procs[i]
  }

  lemma OnlySearchesEvict(cfg: Config, s: State, s': State, i: nat)
    requires Step(cfg, s, s') && i < |s'.procs| && s'.procs[i].Evicting?
    ensures i < |s.procs|
    ensures s.procs[i] == s'.procs[i] || (s.procs[i].Searching? && ProcStep(cfg, s, s', i))
  {
    hide WellFormed, HwAddrFor, IsSingle, Insertable, PoolCovered, Taken, OldestExpired, NoneExpired, ParseIPv4;
  }

  lemma {:induction false} EvictionsWereRead(cfg: Config, run: seq<State>, b: nat, i: nat) returns (a: nat)
    requires IsRun(cfg, run) && b < |run| && i < |run[b].procs| && run[b].procs[i].Evicting?
    ensures Reads(cfg, run, a, i) && Waits(run, a, b, i)
  {
    hide Step, ProcStep;
    var c := b - 1;
    assert b > 0 by { hide Step; }
    OnlySearchesEvict(cfg, run[c], run[b], i);
    if run[c].procs[i] == run[b].procs[i] {
      a := EvictionsWereRead(cfg, run, c, i);
    } else {
      a := c;
    }
  }

  /** What was read was an expired row with the date that the process remembers. */
  lemma ReadWasExpired(cfg: Config, run: seq<State>, a: nat, i: nat)
    requires Reads(cfg, run, a, i)
    ensures var p, t := run[a + 1].procs[i], run[a].table;
      p.victim in t && t[p.victim].renewed == p.seen && Expired(t[p.victim], cfg.expiration, run[a].now)
  {
    hide HwAddrFor, IsSingle, PoolCovered, Taken;
  }

  /** A process about to delete a row that is there will delete an unexpired one if and only if a step after its read
      dated the row and that date has not expired. */
  lemma ActiveRowIsEvictedIff(cfg: Config, run: seq<State>, b: nat, i: nat) returns (a: nat)
    requires IsRun(cfg, run) && b < |run| && i < |run[b].procs| && run[b].procs[i].Evicting?
    requires run[b].procs[i].victim in run[b].table
    ensures Reads(cfg, run, a, i) && Waits(run, a, b, i)
    ensures var v := run[b].procs[i].victim;
      !Expired(run[b].table[v], cfg.expiration, run[b].now) <==>
      exists j :: a < j < b && DatedAt(run, j, v) && run[b].now < run[j].now + cfg.expiration
  {
    hide IsRun, Reads, DatedAt;
    a := EvictionsWereRead(cfg, run, b, i);
    var v := run[b].procs[i].victim;
    assert run[a + 1].procs[i] == run[b].procs[i];
    ReadWasExpired(cfg, run, a, i);
    ReadChangesNothing(cfg, run, a, i);
    TimePasses(cfg, run, a, b);
    LastDating(cfg, run, a + 1, b, v);
    forall j | a < j < b && DatedAt(run, j, v) ensures run[b].table[v].renewed >= run[j].now {
      DateIsLater(cfg, run, j, b, v);
    }
  }

  lemma ReadChangesNothing(cfg: Config, run: seq<State>, a: nat, i: nat)
    requires Reads(cfg, run, a, i)
    ensures run[a + 1].table == run[a].table && run[a + 1].now == run[a].now
  {
    hide HwAddrFor, IsSingle, PoolCovered, Taken, NoneExpired, OldestExpired;
  }

  // ---------- when reads and deletes are close ----------

  /** No process waits longer than `span` between the read and the delete. */
  ghost predicate WaitsWithin(cfg: Config, run: seq<State>, span: int) {
    forall a: nat, b: nat, i: nat :: Reads(cfg, run, a, i) && Waits(run, a, b, i) ==> run[b].now - run[a].now <= span
  }

  ghost predicate Active(cfg: Config, s: State, v: string) {
    v in s.table && !Expired(s.table[v], cfg.expiration, s.now)
  }

  /** No request in flight gives the row of v up on behalf of its host. */
  ghost predicate HostStays(s: State, v: string) {
    forall i :: 0 <= i < |s.procs| ==> s.procs[i] != Releasing(v) && (s.procs[i].Dropping? ==> s.procs[i].host != v)
  }

  lemma StepDeletes(cfg: Config, s: State, s': State, v: string)
    requires Step(cfg, s, s') && v in s.table && HostStays(s, v)
    ensures v in s'.table ==> LeaseOf(s'.table, v) == LeaseOf(s.table, v)
    ensures v !in s'.table ==> exists i :: 0 <= i < |s.procs| && s.procs[i].Evicting? && s.procs[i].victim == v
  {
    hide WellFormed, HwAddrFor, IsSingle, PoolCovered, Taken, OldestExpired, NoneExpired, ParseIPv4;
  }

  /** A row that has been active for longer than any process waits is never deleted while it is renewed in time and
      its host keeps it: statement by statement, it stays with its lease. */
  lemma {:induction false} SettledLeaseStays(cfg: Config, run: seq<State>, span: int, v: string, s: nat, m: nat, k: nat)
    requires IsRun(cfg, run) && WaitsWithin(cfg, run, span) && s <= m <= k < |run|
    requires run[m].now > run[s].now + span
    requires Active(cfg, run[m], v) && forall j :: s <= j <= m ==> Active(cfg, run[j], v)
    requires forall j :: m <= j < k ==> HostStays(run[j], v) && (v in run[j].table ==> Active(cfg, run[j], v))
    ensures forall j :: m <= j <= k ==> v in run[j].table && LeaseOf(run[j].table, v) == LeaseOf(run[m].table, v)
    ensures forall j, w :: m <= j <= k && w in run[j].table && w != v ==>
      run[j].table[w].subnet != run[m].table[v].subnet
    decreases k
  {
    hide Step, HostStays, Statement, WaitsWithin, Unique, Reads;
    if k > m {
      SettledLeaseStays(cfg, run, span, v, s, m, k - 1);
      StepDeletes(cfg, run[k - 1], run[k], v);
      if v !in run[k].table {
        var i: nat :| i < |run[k - 1].procs| && run[k - 1].procs[i].Evicting? && run[k - 1].procs[i].victim == v;
        TimePasses(cfg, run, m, k - 1);
        SettledLeaseIsNotAwaited(cfg, run, span, v, s, k - 1, i);
      }
    }
    OthersDiffer(cfg, run, k, v);
  }

  lemma OthersDiffer(cfg: Config, run: seq<State>, k: nat, v: string)
    requires IsRun(cfg, run) && k < |run| && v in run[k].table
    ensures forall w :: w in run[k].table && w != v ==> run[k].table[w].subnet != run[k].table[v].subnet
  {
    hide IsRun;
    TableStaysUnique(cfg, run, k);
  }

  lemma SettledLeaseIsNotAwaited(cfg: Config, run: seq<State>, span: int, v: string, s: nat, b: nat, i: nat)
    requires IsRun(cfg, run) && WaitsWithin(cfg, run, span) && s <= b < |run|
    requires run[b].now > run[s].now + span && forall j :: s <= j <= b ==> Active(cfg, run[j], v)
    requires i < |run[b].procs| && run[b].procs[i].Evicting?
    ensures run[b].procs[i].victim != v
  {
    hide IsRun, Reads;
    var a := EvictionsWereRead(cfg, run, b, i);
    assert run[a + 1].procs[i] == run[b].procs[i];
    ReadWasExpired(cfg, run, a, i);
    if a < s { TimePasses(cfg, run, a, s); }
  }

  // ---------- it does happen ----------

  /** Step k of a run removes a row that was renewed at that very time. */
  ghost predicate LosesFreshRow(cfg: Config, run: seq<State>, k: nat, u: string) {
    && k + 1 < |run| && u in run[k].table && u !in run[k + 1].table
    && run[k].table[u].renewed == run[k].now && !Expired(run[k].table[u], cfg.expiration, run[k].now)
  }

  /** Host a acquires the only block; its lease expires; host b finds it expired; a renews it; b deletes it. */
  ghost function EvictionRun(e: int, a: string, b: string, l: Lease): seq<State> {
    var idle := Done(ToAcquire(NoLease));
    var held: Table := map[a := Row(l.overlaySubnet, l.hardwareAddr, 0)];
    var dated := Touch(held, a, e);
    var evict := Evicting(b, false, 1, a, l.overlaySubnet, 0);
    [ State(map[], 0, [idle, idle]),
      State(map[], 0, [LookingUp(a, false), idle]),
      State(map[], 0, [Listing(a, false, 1), idle]),
      State(map[], 0, [Inserting(false, 1, l), idle]),
      State(held, 0, [Done(ToAcquire(Leased(l))), idle]),
      State(held, e, [Done(ToAcquire(Leased(l))), idle]),
      State(held, e, [LookingUp(b, false), idle]),
      State(held, e, [Listing(b, false, 1), idle]),
      State(held, e, [Searching(b, false, 1), idle]),
      State(held, e, [Searching(b, false, 1), RenewLooking(l)]),
      State(held, e, [Searching(b, false, 1), RenewTouching(l)]),
      State(held, e, [evict, RenewTouching(l)]),
      State(dated, e, [evict, RenewReading(l)]),
      State(dated - {a}, e, [Inserting(false, 1, Lease(b, l.overlaySubnet, l.hardwareAddr)), RenewReading(l)])]
  }

  ghost predicate OneBlock(cfg: Config, b: string, l: Lease) {
    Contended(cfg, l, b) && cfg.attempts == 1 && 0 < cfg.expiration
  }

  lemma EvictionRunAcquires(cfg: Config, b: string, l: Lease, k: nat)
    requires OneBlock(cfg, b, l) && k < 5
    ensures var run := EvictionRun(cfg.expiration, l.underlayIP, b, l); Step(cfg, run[k], run[k + 1])
  {
    hide WellFormed, HwAddrFor, IsSingle, ParseIPv4, FitsColumns, PoolCovered, OldestExpired, NoneExpired, Statement;
    var run := EvictionRun(cfg.expiration, l.underlayIP, b, l);
    if k < 4 {
      FirstStatements(cfg, b, l, k);
      assert run[k + 1].procs == run[k].procs[0 := run[k + 1].procs[0]];
      assert ProcStep(cfg, run[k], run[k + 1], 0);
    }
  }

  lemma FirstStatements(cfg: Config, b: string, l: Lease, k: nat)
    requires OneBlock(cfg, b, l) && k < 4
    ensures var run := EvictionRun(cfg.expiration, l.underlayIP, b, l);
      Statement(cfg, run[k].table, run[k + 1].table, 0, run[k].procs[0], run[k + 1].procs[0])
  {
    hide WellFormed, HwAddrFor, IsSingle, ParseIPv4, FitsColumns, PoolCovered, OldestExpired, NoneExpired;
    var run := EvictionRun(cfg.expiration, l.underlayIP, b, l);
    if k == 2 {
      var s := l.overlaySubnet;
      assert Taken(map[], false) == {} && s in cfg.pool.Class(false) && s !in Taken(map[], false);
      assert run[3].procs[0] == Chosen(l.underlayIP, false, 1, s);
    } else if k == 3 {
      assert Insert(map[], l, 0) == Some(run[4].table);
    }
  }

  lemma EvictionRunFinds(cfg: Config, b: string, l: Lease, k: nat)
    requires OneBlock(cfg, b, l) && 5 <= k < 13
    ensures var run := EvictionRun(cfg.expiration, l.underlayIP, b, l); Step(cfg, run[k], run[k + 1])
  {
    hide WellFormed, HwAddrFor, IsSingle, ParseIPv4;
    var run := EvictionRun(cfg.expiration, l.underlayIP, b, l);
    assert run[7].table[l.underlayIP].subnet in Taken(run[7].table, false);
    assert ProcStep(cfg, run[k], run[k + 1], if k in {8, 9, 11} then 1 else 0);
  }

  /** And this does happen: with one block in the pool, host b can find the expired lease of another host,
      that host can renew it, and b's delete then evicts a lease that was renewed this very second. */
  lemma StaleReadEvictsActiveRow(cfg: Config, b: string, l: Lease)
    requires OneBlock(cfg, b, l)
    ensures exists run, k :: IsRun(cfg, run) && RenewsPoolLeases(cfg, run) && LosesFreshRow(cfg, run, k, l.underlayIP)
  {
    hide WellFormed, HwAddrFor, IsSingle, ParseIPv4, Step;
    var run := EvictionRun(cfg.expiration, l.underlayIP, b, l);
    forall k | 0 <= k < |run| - 1 ensures Step(cfg, run[k], run[k + 1]) {
      if k < 5 { EvictionRunAcquires(cfg, b, l, k); } else { EvictionRunFinds(cfg, b, l, k); }
    }
    assert IsRun(cfg, run) && RenewsPoolLeases(cfg, run);
    assert LosesFreshRow(cfg, run, 12, l.underlayIP);
  }
}
