/** The bound on the expiration under which daemons exclude each other cannot be lowered, whatever the pool. */
module Tightness {
  import opened Wrappers
  import opened Addressing
  import opened Text
  import opened IPText
  import opened HardwareAddr
  import opened CidrPool
  import opened LeaseTable
  import opened LeaseProtocol
  import opened Leasing
  import opened LeaseRuns
  import opened Occupancy
  import opened Exclusion

  ghost predicate Reachable(cfg: Config, tm: Timing, s: Exclusion.State) {
    exists run :: Exclusion.IsRun(cfg, tm, run) && run[|run| - 1] == s
  }

  lemma Reaches(cfg: Config, tm: Timing, s: Exclusion.State, s': Exclusion.State)
    requires Reachable(cfg, tm, s) && Step(cfg, tm, s, s')
    ensures Reachable(cfg, tm, s')
  {
    hide Step, Init;
    var run :| Exclusion.IsRun(cfg, tm, run) && run[|run| - 1] == s;
    assert Exclusion.IsRun(cfg, tm, run + [s']);
  }

  /** Other hosts hold every block but that of the lease, and a further host wants one. */
  ghost predicate Contends(cfg: Config, l: Lease, b: string, others: Table) {
    && cfg.pool.blocks <= Taken(others, false) + {l.overlaySubnet} && !IsSingle(l.overlaySubnet)
    && HwAddrFor(l.overlaySubnet) == Some(l.hardwareAddr) && WellFormed(l)
    && Unique(others) && Insertable(others, l) && (forall v :: v in others ==> WellFormed(LeaseOf(others, v)))
    && b !in others && l.underlayIP != b && ParseIPv4(b).Some? && |b| <= 15 && 1 <= cfg.attempts
  }

  /** The table with the lease in it, renewed at the given time. */
  function With(others: Table, l: Lease, time: int): Table {
    others[l.underlayIP := Row(l.overlaySubnet, l.hardwareAddr, time)]
  }

  /** The daemon renewed at time 0, learnt of it `latency` later and last checked at time x. */
  function CheckedAt(tm: Timing, others: Table, l: Lease, x: int, now: int): Exclusion.State {
    Exclusion.State(With(others, l, 0), now, map[l.underlayIP := Exclusion.Daemon(l, true, Some(0), tm.latency, x)])
  }

  lemma DaemonRenews(cfg: Config, tm: Timing, l: Lease, b: string, others: Table)
    requires Contends(cfg, l, b, others) && 0 <= tm.latency <= tm.gap
    ensures Reachable(cfg, tm, CheckedAt(tm, others, l, tm.latency, tm.latency))
  {
    hide WellFormed, HwAddrFor, IsSingle, ParseIPv4, FitsColumns, Taken, Insertable, Reachable;
    var u := l.underlayIP;
    var s0 := Exclusion.State(others, 0, map[]);
    var s1 := Exclusion.State(others, 0, map[u := Exclusion.Daemon(l, false, None, 0, 0)]);
    var s2 := Exclusion.State(With(others, l, 0), 0, map[u := Exclusion.Daemon(l, false, Some(0), 0, 0)]);
    var s3 := s2.(now := tm.latency);
    StartIsReachable(cfg, tm, s0);
    assert u !in others by { NewHost(others, l); }
    assert Exclusion.Starts(s0, s1, l);
    Reaches(cfg, tm, s0, s1);
    FirstRenewal(cfg, l, others);
    assert Serves(cfg, s1, s2, RenewEvent(l, Renewed));
    Reaches(cfg, tm, s1, s2);
    assert Passes(tm, s2, s3);
    Reaches(cfg, tm, s2, s3);
    assert LearnsSuccess(tm, s3, CheckedAt(tm, others, l, tm.latency, tm.latency), u);
    Reaches(cfg, tm, s3, CheckedAt(tm, others, l, tm.latency, tm.latency));
  }

  lemma StartIsReachable(cfg: Config, tm: Timing, s: Exclusion.State)
    requires Init(s)
    ensures Reachable(cfg, tm, s)
  {
    assert Exclusion.IsRun(cfg, tm, [s]);
  }

  lemma NewHost(others: Table, l: Lease)
    requires Insertable(others, l)
    ensures l.underlayIP !in others
  {
  }

  lemma FirstRenewal(cfg: Config, l: Lease, others: Table)
    requires WellFormed(l) && Insertable(others, l)
    ensures Happens(cfg, others, With(others, l, 0), 0, RenewEvent(l, Renewed), false)
  {
    hide WellFormed, FitsColumns;
    assert Touch(With(others, l, 0), l.underlayIP, 0) == With(others, l, 0);
  }

  lemma {:induction false} DaemonTolerates(cfg: Config, tm: Timing, l: Lease, b: string, others: Table, n: nat)
    requires Contends(cfg, l, b, others) && 0 <= tm.latency <= tm.gap && 1 <= tm.gap && n < tm.grace
    ensures Reachable(cfg, tm, CheckedAt(tm, others, l, tm.latency + n, tm.latency + n))
  {
    hide Contends, Reachable, With;
    if n == 0 {
      DaemonRenews(cfg, tm, l, b, others);
    } else {
      DaemonTolerates(cfg, tm, l, b, others, n - 1);
      var x := tm.latency + n;
      var s, waits, checked :=
        CheckedAt(tm, others, l, x - 1, x - 1), CheckedAt(tm, others, l, x - 1, x), CheckedAt(tm, others, l, x, x);
      assert Passes(tm, s, waits);
      Reaches(cfg, tm, s, waits);
      assert LearnsFailure(tm, waits, checked, l.underlayIP, Retriable);
      Reaches(cfg, tm, waits, checked);
    }
  }

  /** The hosts in `keys` have renewed. */
  function Refreshed(others: Table, keys: set<string>, now: int): Table {
    map v | v in others :: if v in keys then others[v].(renewed := now) else others[v]
  }

  lemma {:induction false} OthersRenew(cfg: Config, tm: Timing, l: Lease, b: string, others: Table, x: int, now: int,
                                       keys: set<string>)
    requires Contends(cfg, l, b, others) && Reachable(cfg, tm, CheckedAt(tm, others, l, x, now)) && keys <= others.Keys
    ensures Reachable(cfg, tm, CheckedAt(tm, Refreshed(others, keys, now), l, x, now))
    decreases keys
  {
    hide WellFormed, HwAddrFor, IsSingle, ParseIPv4, FitsColumns, Reachable, Taken, Serves, Unique;
    if keys == {} {
      assert Refreshed(others, keys, now) == others;
    } else {
      var v :| v in keys;
      OthersRenew(cfg, tm, l, b, others, x, now, keys - {v});
      var t := Refreshed(others, keys - {v}, now);
      assert Refreshed(others, keys, now) == Touch(t, v, now);
      OtherRenews(cfg, tm, l, t, x, now, v);
      Reaches(cfg, tm, CheckedAt(tm, t, l, x, now), CheckedAt(tm, Touch(t, v, now), l, x, now));
    }
  }

  lemma OtherRenews(cfg: Config, tm: Timing, l: Lease, t: Table, x: int, now: int, v: string)
    requires v in t && l.underlayIP !in t && WellFormed(LeaseOf(t, v))
    ensures Serves(cfg, CheckedAt(tm, t, l, x, now), CheckedAt(tm, Touch(t, v, now), l, x, now),
                   RenewEvent(LeaseOf(t, v), Renewed))
  {
    hide WellFormed, Insertable;
    var held, touched := With(t, l, 0), With(Touch(t, v, now), l, 0);
    assert touched == Touch(held, v, now);
    assert Renews(held, touched, LeaseOf(t, v), now, Renewed, false);
  }

  lemma RefreshingKeepsContention(cfg: Config, l: Lease, b: string, others: Table, now: int)
    requires Contends(cfg, l, b, others)
    ensures Contends(cfg, l, b, Refreshed(others, others.Keys, now))
  {
    hide WellFormed, HwAddrFor, IsSingle, ParseIPv4, FitsColumns;
    var later := Refreshed(others, others.Keys, now);
    assert Taken(later, false) == Taken(others, false) by {
      forall s ensures s in Taken(later, false) <==> s in Taken(others, false) {
        if s in Taken(others, false) {
          var v :| v in others && IsSingle(others[v].subnet) == false && others[v].subnet == s;
          assert later[v].subnet == s;
        }
      }
    }
    assert forall v :: v in others ==> LeaseOf(later, v) == LeaseOf(others, v);
  }

  lemma ContenderTakesOver(cfg: Config, l: Lease, b: string, others: Table, now: int)
    requires Contends(cfg, l, b, others) && cfg.expiration <= now
    requires forall v :: v in others ==> !Expired(others[v], cfg.expiration, now)
    ensures var taken := Lease(b, l.overlaySubnet, l.hardwareAddr);
      Acquires(cfg, With(others, l, 0), With(others, taken, now), b, false, now, Leased(taken), false)
  {
    hide ParseIPv4, WellFormed, HwAddrFor, IsSingle;
    var t, u, taken := With(others, l, 0), l.underlayIP, Lease(b, l.overlaySubnet, l.hardwareAddr);
    var t' := With(others, taken, now);
    ContenderSees(cfg, l, others);
    assert CanChoose(cfg, t, false, now, Reclaim(u));
    assert t - {u} == others;
    assert Attempt(cfg, t, t', b, false, now, Leased(taken), false);
    var ts, outs := [t, t'], [Leased(taken)];
    assert AttemptRun(cfg, ts, outs, b, false, now, false) && ts[|outs|] == t';
    assert t - {b} == t;
    assert Retries(cfg, t, t', b, false, now, Leased(taken), false);
  }

  lemma ContenderSees(cfg: Config, l: Lease, others: Table)
    requires cfg.pool.blocks <= Taken(others, false) + {l.overlaySubnet} && !IsSingle(l.overlaySubnet)
    requires l.underlayIP !in others
    ensures PoolCovered(cfg, With(others, l, 0), false)
  {
    hide IsSingle;
    var t := With(others, l, 0);
    forall s | s in cfg.pool.blocks ensures s in Taken(t, false) {
      if s == l.overlaySubnet {
        assert t[l.underlayIP].subnet == s;
      } else {
        var v :| v in others && IsSingle(others[v].subnet) == false && others[v].subnet == s;
        assert t[v].subnet == s;
      }
    }
  }

  /** A daemon that has learnt of a renewal runs on while another host has its subnet. */
  ghost predicate Overlap(s: Exclusion.State, l: Lease, b: string) {
    && l.underlayIP in s.daemons && s.daemons[l.underlayIP].lease == l && s.daemons[l.underlayIP].renewed
    && b in s.table && b != l.underlayIP && s.table[b].subnet == l.overlaySubnet
  }

  /** The bound is exact: with any shorter expiration, and an answer that may take as long as the gap allows, a
      run leads to a daemon that is still running while its subnet belongs to another host. */
  lemma ShorterExpirationLosesExclusion(cfg: Config, tm: Timing, l: Lease, b: string, others: Table)
    requires Contends(cfg, l, b, others)
    requires 0 < tm.grace && 0 <= tm.latency <= tm.gap && 1 <= tm.gap
    requires 1 <= cfg.expiration < tm.grace + tm.latency + tm.gap
    ensures exists s :: Reachable(cfg, tm, s) && Overlap(s, l, b)
  {
    hide Contends, Reachable, Acquires;
    var x := tm.latency + tm.grace - 1;
    var now := x + tm.gap;
    DaemonTolerates(cfg, tm, l, b, others, tm.grace - 1);
    assert Passes(tm, CheckedAt(tm, others, l, x, x), CheckedAt(tm, others, l, x, now));
    Reaches(cfg, tm, CheckedAt(tm, others, l, x, x), CheckedAt(tm, others, l, x, now));
    var later := Refreshed(others, others.Keys, now);
    OthersRenew(cfg, tm, l, b, others, x, now, others.Keys);
    RefreshingKeepsContention(cfg, l, b, others, now);
    var taken := Lease(b, l.overlaySubnet, l.hardwareAddr);
    var held := CheckedAt(tm, later, l, x, now);
    var s := held.(table := With(later, taken, now));
    ContenderTakesOver(cfg, l, b, later, now);
    assert b != l.underlayIP by { ContendersDiffer(cfg, l, b, others); }
    assert Serves(cfg, held, s, AcquireEvent(b, false, Leased(taken)));
    Reaches(cfg, tm, held, s);
    assert Overlap(s, l, b);
  }

  lemma ContendersDiffer(cfg: Config, l: Lease, b: string, others: Table)
    requires Contends(cfg, l, b, others)
    ensures b != l.underlayIP
  {
  }

  // ---------- every pool with a block ----------

  /** Host k has block k in a table that is full, and a further host wants one. */
  lemma FullPoolContends(cfg: Config, net: Cidr, mask: PrefixLen, k: nat)
    requires Built(cfg, net, mask) && 1 <= k < BlockCount(net.len, mask)
    ensures var t := Occupied(net, mask, BlockCount(net.len, mask));
      && Occupant(net, mask, k) in t
      && Contends(cfg, LeaseOf(t, Occupant(net, mask, k)), PrintIP(0), t - {Occupant(net, mask, k)})
  {
    hide ParseIP, ParsePrefix, ParseMac, ParseCidr, PrintCidr, PrintIP, PrintMac, VtepMac, HwAddrFor, EndsInSlash32,
         MakePool, Shl, Shr, BlockText;
    var n := BlockCount(net.len, mask);
    var t, u := Occupied(net, mask, n), Occupant(net, mask, k);
    OccupiedIsHealthy(cfg, net, mask, n);
    OccupantHolds(cfg, net, mask, n, k);
    var l, others := LeaseOf(t, u), t - {u};
    forall v | v in t ensures WellFormed(LeaseOf(t, v)) && FitsColumns(LeaseOf(t, v)) && v != PrintIP(0) {
      var j: nat :| IsOccupant(net, mask, n, j, v);
      OccupantIsWellFormed(cfg, net, mask, n, j);
    }
    assert cfg.pool.blocks == BlockNames(net.Base(), mask, n) && l.overlaySubnet in cfg.pool.blocks by {
      BlockIsInPool(net, mask, k);
    }
    assert !IsSingle(l.overlaySubnet) by { MemberParses(net, mask, l.overlaySubnet); }
    forall s | s in cfg.pool.blocks ensures s in Taken(others, false) + {l.overlaySubnet} {
      var v :| v in t && t[v].subnet == s;
      if v != u {
        MemberParses(net, mask, s);
        assert others[v].subnet == s;
      }
    }
    AddressHasTwoTexts(0);
  }

  lemma BlockIsInPool(net: Cidr, mask: PrefixLen, k: nat)
    requires net.len <= mask && 1 <= k < BlockCount(net.len, mask)
    ensures MakePool(net, mask).blocks == BlockNames(net.Base(), mask, BlockCount(net.len, mask))
    ensures OccupiedRow(net, mask, k).subnet in MakePool(net, mask).blocks
  {
    hide PrintCidr, PrintMac, VtepMac, Shl, Shr;
    BlockNamesAre(net.Base(), mask, BlockCount(net.len, mask), BlockText(net.Base(), mask, k));
  }

  lemma OccupantIsWellFormed(cfg: Config, net: Cidr, mask: PrefixLen, n: nat, j: nat)
    requires Built(cfg, net, mask) && 1 <= j < n <= BlockCount(net.len, mask)
    ensures var l := Lease(Occupant(net, mask, j), OccupiedRow(net, mask, j).subnet, OccupiedRow(net, mask, j).hwaddr);
      WellFormed(l) && FitsColumns(l) && l.underlayIP != PrintIP(0)
  {
    hide ParseIP, ParsePrefix, ParseMac, ParseCidr, PrintCidr, PrintIP, PrintMac, VtepMac, HwAddrFor, EndsInSlash32,
         MakePool, Shl, Shr, BlockText;
    var r := OccupiedRow(net, mask, j);
    OccupiedLease(cfg, net, mask, j);
    MemberParses(net, mask, r.subnet);
    DottedPrefix(r.subnet);
    DottedHwAddr(r.subnet);
    MacRoundTrip(VtepMac(ParseCidr(r.subnet).value.addr));
    OccupantsDiffer(net, mask, 0, j);
    BlockAt(net, mask, j);
    ShlAdds(j, 0, 32 - mask);
    AddressHasTwoTexts(j);
  }

  lemma {:induction false} OccupantHolds(cfg: Config, net: Cidr, mask: PrefixLen, n: nat, k: nat)
    requires net.len <= mask && cfg.pool == MakePool(net, mask) && 1 <= k < n <= BlockCount(net.len, mask)
    ensures Occupant(net, mask, k) in Occupied(net, mask, n)
    ensures Occupied(net, mask, n)[Occupant(net, mask, k)] == OccupiedRow(net, mask, k)
  {
    hide Occupant, OccupiedRow, MakePool, BlockCount;
    if k < n - 1 {
      OccupantHolds(cfg, net, mask, n - 1, k);
      OccupantsDiffer(net, mask, k, n - 1);
    }
  }

  /** So it happens with every pool that has blocks at all. */
  lemma EveryPoolLosesExclusion(cfg: Config, net: Cidr, mask: PrefixLen, tm: Timing)
    requires Built(cfg, net, mask) && net.len < mask
    requires 0 < tm.grace && 0 <= tm.latency <= tm.gap && 1 <= tm.gap
    requires 1 <= cfg.expiration < tm.grace + tm.latency + tm.gap
    ensures exists s, l, b :: Reachable(cfg, tm, s) && Overlap(s, l, b)
  {
    hide Reachable, Overlap, Contends, MakePool, Occupied, Occupant, Shl;
    assert 1 < BlockCount(net.len, mask) by {
      ShlAdds(1, 0, mask - net.len - 1);
      ShlShl(1, mask - net.len - 1, 1);
      DoubleIsMore(Shl(1, mask - net.len - 1));
    }
    FullPoolContends(cfg, net, mask, 1);
    var t := Occupied(net, mask, BlockCount(net.len, mask));
    var u := Occupant(net, mask, 1);
    ShorterExpirationLosesExclusion(cfg, tm, LeaseOf(t, u), PrintIP(0), t - {u});
  }

  lemma DoubleIsMore(x: nat)
    requires 1 <= x
    ensures Shl(x, 1) > 1
  {
    assert Shl(x, 1) == 2 * Shl(x, 0) == 2 * x;
  }
}
