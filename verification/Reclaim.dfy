/** When a host that evicts another host's row also takes over its subnet. */
module Reclaim {
  import opened Wrappers
  import opened Addressing
  import opened Text
  import opened IPText
  import opened LeaseTable
  import opened LeaseProtocol
  import opened Leasing

  /** The host asks for a new lease: its text is an IPv4 address and it has no row of the pool. */
  predicate Seeks(cfg: Config, t: Table, u: string) {
    ParseIPv4(u).Some? && !(u in t && cfg.pool.IsMember(t[u].subnet))
  }

  /** Whichever row the host would evict first, it can be given that row's subnet. */
  ghost predicate Grantable(cfg: Config, t: Table, u: string, single: bool, now: int) {
    forall v :: OldestExpired(t, single, cfg.expiration, now, v) ==> GrantTable(t, u, now, Reclaim(v)).Some?
  }

  /** Every row that is gone is the only one, and its subnet is the host's. */
  ghost predicate TakesOver(t: Table, t': Table, u: string, now: int, out: Outcome) {
    forall v :: v in t && v !in t' ==>
      && HwAddrFor(t[v].subnet).Some?
      && out == Leased(Lease(u, t[v].subnet, HwAddrFor(t[v].subnet).value))
      && t' == (t - {v})[u := Row(t[v].subnet, HwAddrFor(t[v].subnet).value, now)]
  }

  // ---------- a grantable table ----------

  lemma GrantableRound(cfg: Config, t: Table, t': Table, u: string, single: bool, now: int, out: Outcome)
    requires Grantable(cfg, t, u, single, now) && u !in t && Attempt(cfg, t, t', u, single, now, out, true)
    ensures !out.Leased? ==> t' == t
    ensures out.Leased? ==> TakesOver(t, t', u, now, out)
    ensures forall v :: v in t && v !in t' ==>
      PoolCovered(cfg, t, single) && OldestExpired(t, single, cfg.expiration, now, v)
  {
    hide HwAddrFor, PoolCovered, FitsColumns, IsSingle, ExpiredOfClass;
  }

  lemma {:induction false} GrantableRounds(cfg: Config, ts: seq<Table>, outs: seq<Outcome>, u: string, single: bool,
                                           now: int, i: nat)
    requires AttemptRun(cfg, ts, outs, u, single, now, true) && i < |ts|
    requires Grantable(cfg, ts[0], u, single, now) && u !in ts[0]
    ensures i < |outs| || (i > 0 && !outs[i - 1].Leased?) ==> ts[i] == ts[0]
    ensures i > 0 && outs[i - 1].Leased? ==> TakesOver(ts[0], ts[i], u, now, outs[i - 1])
    ensures forall v :: v in ts[0] && v !in ts[i] ==>
      PoolCovered(cfg, ts[0], single) && OldestExpired(ts[0], single, cfg.expiration, now, v)
  {
    hide Attempt, Grantable, TakesOver, PoolCovered, OldestExpired;
    if i > 0 {
      GrantableRounds(cfg, ts, outs, u, single, now, i - 1);
      GrantableRound(cfg, ts[i - 1], ts[i], u, single, now, outs[i - 1]);
    }
  }

  /** Reclaiming is framed: if the first eviction can be granted, an acquire that loses another host's row finds the
      class wholly taken, loses the one row of the class that expired and was renewed longest ago, and takes over its
      subnet; every other row stays as it was. */
  lemma ReclaimIsFramed(cfg: Config, t: Table, t': Table, u: string, single: bool, now: int, out: Outcome)
    requires Acquires(cfg, t, t', u, single, now, out, true) && Grantable(cfg, t - {u}, u, single, now)
    ensures TakesOver(t - {u}, t', u, now, out)
    ensures forall v :: v in t - {u} && v !in t' ==>
      PoolCovered(cfg, t - {u}, single) && OldestExpired(t - {u}, single, cfg.expiration, now, v)
  {
    hide ParseIPv4, Attempt, Grantable, PoolCovered, OldestExpired, HwAddrFor;
    if Retries(cfg, t - {u}, t', u, single, now, out, true) {
      var ts, outs :|
        && AttemptRun(cfg, ts, outs, u, single, now, true)
        && ts[0] == t - {u} && ts[|outs|] == t' && out == LastOutcome(outs)
        && (out.Leased? || |outs| == cfg.attempts);
      GrantableRounds(cfg, ts, outs, u, single, now, |outs|);
    }
  }

  /** On a table of pool leases, for a host whose text fits, the first eviction can be granted. */
  lemma HealthyIsGrantable(cfg: Config, net: Cidr, mask: PrefixLen, t: Table, u: string, single: bool, now: int)
    requires Built(cfg, net, mask) && Healthy(cfg, t) && ParseIPv4(u).Some? && |u| <= 15
    ensures PoolCovered(cfg, t - {u}, single) ==> Grantable(cfg, t - {u}, u, single, now)
  {
    hide ParseIP, HwAddrFor, IsSingle, Built, PoolCovered, PoolLease;
    if PoolCovered(cfg, t - {u}, single) {
      forall v | OldestExpired(t - {u}, single, cfg.expiration, now, v)
        ensures GrantTable(t - {u}, u, now, Reclaim(v)).Some?
      {
        ChoiceIsGranted(cfg, net, mask, t - {u}, u, single, now, Reclaim(v));
      }
    }
  }

  // ---------- a table that is not ----------

  lemma {:induction false} EarliestExists(t: Table, single: bool, expiration: int, now: int, keys: set<string>,
                                          w: string)
    returns (v: string)
    requires keys <= t.Keys && w in keys && ExpiredOfClass(t[w], single, expiration, now)
    ensures v in keys && ExpiredOfClass(t[v], single, expiration, now)
    ensures forall x :: x in keys && ExpiredOfClass(t[x], single, expiration, now) ==> t[v].renewed <= t[x].renewed
    decreases keys
  {
    hide ExpiredOfClass;
    if y :| y in keys && y != w && ExpiredOfClass(t[y], single, expiration, now) {
      if t[y].renewed <= t[w].renewed {
        v := EarliestExists(t, single, expiration, now, keys - {w}, y);
      } else {
        v := EarliestExists(t, single, expiration, now, keys - {y}, w);
      }
    } else {
      v := w;
    }
  }

  /** Every table admits an attempt. */
  lemma AttemptExists(cfg: Config, t: Table, u: string, single: bool, now: int) returns (t': Table, out: Outcome)
    ensures Attempt(cfg, t, t', u, single, now, out, true)
  {
    hide HwAddrFor, IsSingle, Insertable, ExpiredOfClass;
    if PoolCovered(cfg, t, single) && NoneExpired(t, single, cfg.expiration, now) {
      return t, NoLease;
    }
    var c: Choice;
    if PoolCovered(cfg, t, single) {
      var w :| w in t && ExpiredOfClass(t[w], single, cfg.expiration, now);
      var v := EarliestExists(t, single, cfg.expiration, now, t.Keys, w);
      c := Reclaim(v);
    } else {
      var s :| s in cfg.pool.Class(single) && s !in Taken(t, single);
      c := Free(s);
    }
    assert CanChoose(cfg, t, single, now, c);
    if GrantTable(t, u, now, c).Some? {
      t', out := GrantTable(t, u, now, c).value, Leased(GrantLease(t, u, c).value);
    } else {
      t', out := Cleared(t, c), Failed;
    }
  }

  /** And so a whole loop of them. */
  lemma {:induction false} RoundsExist(cfg: Config, t: Table, u: string, single: bool, now: int, n: nat)
    returns (ts: seq<Table>, outs: seq<Outcome>)
    requires n <= cfg.attempts
    ensures AttemptRun(cfg, ts, outs, u, single, now, true) && ts[0] == t && |outs| <= n
    ensures LastOutcome(outs).Leased? || |outs| == n
  {
    hide Attempt;
    if n == 0 {
      return [t], [];
    }
    ts, outs := RoundsExist(cfg, t, u, single, now, n - 1);
    if !LastOutcome(outs).Leased? {
      var t', out := AttemptExists(cfg, ts[|outs|], u, single, now);
      ts, outs := ts + [t'], outs + [out];
    }
  }

  lemma RoundsAfterFailure(cfg: Config, t: Table, t1: Table, ts: seq<Table>, outs: seq<Outcome>, u: string,
                           single: bool, now: int)
    requires AttemptRun(cfg, ts, outs, u, single, now, true) && ts[0] == t1 && |outs| < cfg.attempts
    requires Attempt(cfg, t, t1, u, single, now, Failed, true)
    ensures AttemptRun(cfg, [t] + ts, [Failed] + outs, u, single, now, true)
  {
    hide Attempt;
    var ts', outs' := [t] + ts, [Failed] + outs;
    forall i | 0 <= i < |outs'| ensures Attempt(cfg, ts'[i], ts'[i + 1], u, single, now, outs'[i], true) {
      if i > 0 { assert ts'[i] == ts[i - 1] && ts'[i + 1] == ts[i] && outs'[i] == outs[i - 1]; }
    }
  }

  /** The lease granted in the end was inserted into all the other rows there are. */
  lemma LeasedInserts(cfg: Config, ts: seq<Table>, outs: seq<Outcome>, u: string, single: bool, now: int)
    requires AttemptRun(cfg, ts, outs, u, single, now, true) && outs != [] && LastOutcome(outs).Leased?
    ensures Insert(ts[|outs|] - {u}, LastOutcome(outs).lease, now) == Some(ts[|outs|])
  {
    hide HwAddrFor, IsSingle, PoolCovered, ExpiredOfClass;
    var k := |outs| - 1;
    assert Attempt(cfg, ts[k], ts[k + 1], u, single, now, outs[k], true);
    var l := outs[k].lease;
    var c :| CanChoose(cfg, ts[k], single, now, c) && GrantLease(ts[k], u, c) == Some(l)
             && GrantTable(ts[k], u, now, c) == Some(ts[k + 1]);
    assert Cleared(ts[k], c) == ts[k + 1] - {u};
  }

  /** If the row evicted first cannot be granted, some acquire loses it and does not take it over. */
  lemma UngrantableIsLost(cfg: Config, t: Table, u: string, single: bool, now: int, v: string)
    returns (t': Table, out: Outcome)
    requires u !in t && 1 <= cfg.attempts && PoolCovered(cfg, t, single)
    requires OldestExpired(t, single, cfg.expiration, now, v) && GrantTable(t, u, now, Reclaim(v)).None?
    ensures Retries(cfg, t, t', u, single, now, out, true) && v !in t' && !TakesOver(t, t', u, now, out)
  {
    hide HwAddrFor, IsSingle, PoolCovered, ExpiredOfClass, Insertable, AttemptRun;
    var t1 := t - {v};
    assert CanChoose(cfg, t, single, now, Reclaim(v));
    assert Attempt(cfg, t, t1, u, single, now, Failed, true);
    hide Attempt;
    var ts, outs := RoundsExist(cfg, t1, u, single, now, cfg.attempts - 1);
    assert |ts| == |outs| + 1 by { RunShape(cfg, ts, outs, u, single, now); }
    RoundsAfterFailure(cfg, t, t1, ts, outs, u, single, now);
    RunFrame(cfg, ts, outs, u, single, now, true, |outs|);
    t', out := ts[|outs|], LastOutcome([Failed] + outs);
    assert ([t] + ts)[|outs| + 1] == t';
    assert Retries(cfg, t, t', u, single, now, out, true);
    if TakesOver(t, t', u, now, out) {
      TakeoverLeavesRest(t, t', u, now, out, v);
      LeasedInserts(cfg, ts, outs, u, single, now);
    }
  }

  lemma TakeoverLeavesRest(t: Table, t': Table, u: string, now: int, out: Outcome, v: string)
    requires TakesOver(t, t', u, now, out) && u !in t && v in t && v !in t'
    ensures out.Leased? && t' - {u} == t - {v}
    ensures HwAddrFor(t[v].subnet).Some? && out.lease == Lease(u, t[v].subnet, HwAddrFor(t[v].subnet).value)
  {
    hide HwAddrFor;
  }

  lemma RunShape(cfg: Config, ts: seq<Table>, outs: seq<Outcome>, u: string, single: bool, now: int)
    requires AttemptRun(cfg, ts, outs, u, single, now, true)
    ensures |ts| == |outs| + 1
  {
  }

  // ---------- both together ----------

  ghost predicate AlwaysTakesOver(cfg: Config, t: Table, u: string, single: bool, now: int) {
    forall t', out :: Acquires(cfg, t, t', u, single, now, out, true) ==> TakesOver(t - {u}, t', u, now, out)
  }

  /** On any table, for any host: an acquire whose statements are all answered takes over what it evicts, and evicts
      one row at most, if and only if the rows it may evict first can be granted, should it come to an eviction. */
  lemma TakeoverIff(cfg: Config, t: Table, u: string, single: bool, now: int)
    ensures AlwaysTakesOver(cfg, t, u, single, now) <==>
      (Seeks(cfg, t, u) && 1 <= cfg.attempts && PoolCovered(cfg, t - {u}, single) ==>
         Grantable(cfg, t - {u}, u, single, now))
  {
    hide ParseIPv4, TakesOver, Attempt, PoolCovered, OldestExpired, Retries, Grantable;
    var t0 := t - {u};
    if Seeks(cfg, t, u) && 1 <= cfg.attempts && PoolCovered(cfg, t0, single) && !Grantable(cfg, t0, u, single, now) {
      var v := FirstUngrantable(cfg, t0, u, single, now);
      var t', out := UngrantableIsLost(cfg, t0, u, single, now, v);
      assert Acquires(cfg, t, t', u, single, now, out, true);
    } else {
      forall t', out | Acquires(cfg, t, t', u, single, now, out, true) ensures TakesOver(t0, t', u, now, out) {
        if !Grantable(cfg, t0, u, single, now) {
          UncoveredLosesNothing(cfg, t, t', u, single, now, out);
        } else {
          ReclaimIsFramed(cfg, t, t', u, single, now, out);
        }
      }
    }
  }

  lemma FirstUngrantable(cfg: Config, t: Table, u: string, single: bool, now: int) returns (v: string)
    requires !Grantable(cfg, t, u, single, now)
    ensures OldestExpired(t, single, cfg.expiration, now, v) && GrantTable(t, u, now, Reclaim(v)).None?
  {
    v :| OldestExpired(t, single, cfg.expiration, now, v) && GrantTable(t, u, now, Reclaim(v)).None?;
  }

  lemma UncoveredLosesNothing(cfg: Config, t: Table, t': Table, u: string, single: bool, now: int, out: Outcome)
    requires Acquires(cfg, t, t', u, single, now, out, true)
    requires !(Seeks(cfg, t, u) && 1 <= cfg.attempts && PoolCovered(cfg, t - {u}, single))
    ensures TakesOver(t - {u}, t', u, now, out)
  {
    hide ParseIPv4, Attempt, PoolCovered, HwAddrFor;
    AcquireFrame(cfg, t, t', u, single, now, out, true);
    if Seeks(cfg, t, u) && cfg.attempts == 0 {
      assert t' == t - {u};
    }
    assert forall v :: v in t - {u} && v !in t' ==> Evicted(t, t', u);
  }

  // ---------- rows that cannot be granted ----------

  /** A renewal may bring in a subnet in IPv6 notation, from which no hardware address is derived. */
  lemma IPv6SubnetIsAccepted(u: string, mac: string)
    requires ParseIP(u).Some? && ParseMac(mac).Some?
    ensures WellFormed(Lease(u, "::/0", mac)) && HwAddrFor("::/0").None? && !IsSingle("::/0")
    ensures WellFormed(Lease(u, "::/1", mac)) && HwAddrFor("::/1").None? && !IsSingle("::/1")
  {
    hide ParseMac, ParseDotted;
    AnyAddressPrefix("0", 0);
    AnyAddressPrefix("1", 1);
    assert "::/0" == "::" + "/" + "0" && "::/1" == "::" + "/" + "1";
  }

  lemma AnyAddressPrefix(d: string, n: nat)
    requires (d == "0" && n == 0) || (d == "1" && n == 1)
    ensures ParsePrefix("::" + "/" + d) == Some((V6([0, 0, 0, 0, 0, 0, 0, 0]), n))
  {
    hide ParseDotted;
    SplitField("::", d, '/');
    SplitField(d, [], '/');
    assert d[..0] == [];
    assert DecimalValue(d) == n;
  }

  lemma EvictsForNothing(cfg: Config, t: Table, u: string, single: bool, now: int, v: string)
    requires PoolCovered(cfg, t, single) && OldestExpired(t, single, cfg.expiration, now, v)
    requires HwAddrFor(t[v].subnet).None?
    ensures Attempt(cfg, t, t - {v}, u, single, now, Failed, true)
  {
    hide HwAddrFor, PoolCovered, ExpiredOfClass;
    assert CanChoose(cfg, t, single, now, Reclaim(v)) && GrantTable(t, u, now, Reclaim(v)).None?;
  }

  lemma OldestIsEvicted(cfg: Config, t: Table, u: string, now: int, x: string, v: string)
    requires x in t && cfg.pool.blocks == {t[x].subnet} && !IsSingle(t[x].subnet)
    requires v in t && HwAddrFor(t[v].subnet).None? && ExpiredOfClass(t[v], false, cfg.expiration, now)
    requires forall w :: w in t && ExpiredOfClass(t[w], false, cfg.expiration, now) ==> t[v].renewed <= t[w].renewed
    ensures Attempt(cfg, t, t - {v}, u, false, now, Failed, true)
  {
    hide HwAddrFor, IsSingle, Attempt;
    assert t[x].subnet in Taken(t, false);
    EvictsForNothing(cfg, t, u, false, now, v);
  }

  /** So one acquire can lose the rows of two other hosts and be granted neither. */
  lemma AcquireLosesTwoRows(cfg: Config, u: string, x: string, b: Row, v: string, hv: string, w: string, hw: string,
                            now: int)
    requires ParseIPv4(u).Some? && u != x && u != v && u != w && x != v && x != w && v != w
    requires cfg.attempts == 2 && cfg.pool.blocks == {b.subnet} && !IsSingle(b.subnet)
    requires !Expired(b, cfg.expiration, now) && 1 + cfg.expiration <= now
    requires ParseIP(v).Some? && ParseMac(hv).Some?
    ensures Acquires(cfg, map[x := b, v := Row("::/0", hv, 0), w := Row("::/1", hw, 1)], map[x := b],
                     u, false, now, Failed, true)
  {
    hide ParseIPv4, ParseMac, ParseIP, HwAddrFor, IsSingle, Attempt, Acquires;
    IPv6SubnetIsAccepted(v, hv);
    var t: Table := map[x := b, v := Row("::/0", hv, 0), w := Row("::/1", hw, 1)];
    var t1: Table, t2: Table := map[x := b, w := Row("::/1", hw, 1)], map[x := b];
    OldestIsEvicted(cfg, t, u, now, x, v);
    OldestIsEvicted(cfg, t1, u, now, x, w);
    assert t - {v} == t1 && t1 - {w} == t2;
    TwoFailures(cfg, t, t1, t2, u, false, now);
  }

  lemma TwoFailures(cfg: Config, t: Table, t1: Table, t2: Table, u: string, single: bool, now: int)
    requires cfg.attempts == 2 && u !in t && ParseIPv4(u).Some?
    requires Attempt(cfg, t, t1, u, single, now, Failed, true) && Attempt(cfg, t1, t2, u, single, now, Failed, true)
    ensures Acquires(cfg, t, t2, u, single, now, Failed, true)
  {
    hide Attempt, ParseIPv4;
    var ts, outs := [t, t1, t2], [Failed, Failed];
    assert AttemptRun(cfg, ts, outs, u, single, now, true) && ts[|outs|] == t2;
    assert t - {u} == t;
    assert Retries(cfg, t, t2, u, single, now, Failed, true);
  }
}
