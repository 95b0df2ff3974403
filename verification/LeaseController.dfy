/** The controller's request methods (controller/leaser/lease_controller.go), statement by statement. */
module LeaseController {
  import opened Wrappers
  import opened Text
  import opened IPText
  import opened HardwareAddr
  import opened CidrPool
  import opened LeaseTable
  import opened LeaseProtocol

  datatype SubnetResult = Found(subnet: string) | Exhausted | SearchFailed

  class LeaseController {
    const db: Database
    const cfg: Config

    constructor (db: Database, cfg: Config)
      requires "" !in cfg.pool.blocks && "" !in cfg.pool.singles
      ensures this.db == db && this.cfg == cfg && Valid()
    {
      this.db := db;
      this.cfg := cfg;
    }

    ghost predicate Valid() {
      "" !in cfg.pool.blocks && "" !in cfg.pool.singles
    }

    /** `tryAcquireAvailable...Subnet`: a free member of the class, or the subnet of the oldest expired
        row, which is deleted. */
    method TryAcquireAvailable(single: bool, pick: nat) returns (r: SubnetResult, ghost c: Choice)
      requires Valid()
      modifies db
      ensures r.Found? ==> CanChoose(cfg, old(db.rows), single, db.now, c) && db.rows == Cleared(old(db.rows), c)
      ensures r.Found? ==> r.subnet == (if c.Free? then c.subnet else old(db.rows)[c.victim].subnet)
      ensures r == Exhausted ==>
        db.rows == old(db.rows) && PoolCovered(cfg, db.rows, single)
          && NoneExpired(db.rows, single, cfg.expiration, db.now)
      ensures r == SearchFailed ==> !db.Reliable()
      ensures r == SearchFailed ==>
        db.rows == old(db.rows) || (CanChoose(cfg, old(db.rows), single, db.now, c)
          && db.rows == Cleared(old(db.rows), c))
      ensures db.statements <= old(db.statements) + 3
    {
      hide IsSingle, EndsInSlash32;
      c := Free("");
      var ok, leases := db.AllSubnets(single);
      if !ok {
        return SearchFailed, c;
      }
      var taken := [];
      for i := 0 to |leases|
        invariant |taken| == i && forall j :: 0 <= j < i ==> taken[j] == leases[j].overlaySubnet
      {
        taken := taken + [leases[i].overlaySubnet];
      }
      ListedSubnets(db.rows, single, leases, taken);
      var subnet, _ := GetAvailable(taken, cfg.pool.Class(single), pick);
      if subnet != "" {
        return Found(subnet), Free(subnet);
      }
      var found, oldest := db.OldestExpiredLease(single, cfg.expiration);
      if !found {
        return SearchFailed, c;
      }
      if oldest.None? {
        return Exhausted, c;
      }
      c := Reclaim(oldest.value.underlayIP);
      var deleted := db.DeleteEntry(oldest.value.underlayIP);
      if deleted != Deleted {
        return SearchFailed, c;
      }
      return Found(oldest.value.overlaySubnet), c;
    }

    method TryAcquireLease(u: string, single: bool, pick: nat) returns (out: Outcome)
      requires Valid()
      modifies db
      ensures Attempt(cfg, old(db.rows), db.rows, u, single, db.now, out, db.Reliable())
      ensures db.statements <= old(db.statements) + 4
    {
      hide IsSingle, EndsInSlash32, ParsePrefix, PrintMac, VtepMac, GenerateForVTEP, PoolCovered;
      var r, c := TryAcquireAvailable(single, pick);
      match r
      case SearchFailed => return Failed;
      case Exhausted => return NoLease;
      case Found(subnet) =>
        ghost var before := old(db.rows);
        assert CanChoose(cfg, before, single, db.now, c);
        if ParsePrefix(subnet).None? {
          assert GrantTable(before, u, db.now, c).None?;
          return Failed;
        }
        var vtepIP := ParsePrefix(subnet).value.0;
        var hwAddr := GenerateForVTEP(vtepIP);
        OnlyIPv4HasHwAddr(vtepIP);
        if !hwAddr.Generated? {
          assert GrantTable(before, u, db.now, c).None?;
          return Failed;
        }
        var lease := Lease(u, subnet, PrintMac(hwAddr.hwaddr));
        assert GrantLease(before, u, c) == Some(lease);
        var ok := db.AddEntry(lease);
        if !ok {
          return Failed;
        }
        return Leased(lease);
    }

    /** `picks` stands for the random source: the number behind each attempt's choice.  The request gives up after a
        bounded number of statements, and issues none for a host that is not an IPv4 address. */
    method AcquireSubnetLease(u: string, single: bool, picks: nat -> nat) returns (out: Outcome)
      requires Valid()
      modifies db
      ensures Acquires(cfg, old(db.rows), db.rows, u, single, db.now, out, db.Reliable())
      ensures db.statements <= old(db.statements) + 2 + 4 * cfg.attempts
      ensures ParseIPv4(u).None? ==> db.statements == old(db.statements)
    {
      hide ParseIPv4, Attempt;
      if ParseIPv4(u).None? {
        return Failed;
      }
      ghost var start := db.rows;
      var ok, existing := db.LeaseForUnderlayIP(u);
      if !ok {
        return Failed;
      }
      if existing.Some? {
        if cfg.pool.IsMember(existing.value.overlaySubnet) {
          return Leased(existing.value);
        }
        var deleted := db.DeleteEntry(u);
        if deleted != Deleted {
          return Failed;
        }
      }
      assert db.rows == start - {u};
      out := NoLease;
      var numErrs := 0;
      ghost var ts, outs := [db.rows], [];
      while numErrs < cfg.attempts && !out.Leased?
        invariant numErrs == |outs|
        invariant db.statements <= old(db.statements) + 2 + 4 * numErrs
        invariant AttemptRun(cfg, ts, outs, u, single, db.now, db.Reliable())
        invariant ts[0] == start - {u} && ts[|outs|] == db.rows && out == LastOutcome(outs)
      {
        ghost var prefix, rounds := ts, outs;
        out := TryAcquireLease(u, single, picks(numErrs));
        ts, outs := ts + [db.rows], outs + [out];
        AttemptRunExtends(cfg, prefix, rounds, u, single, db.now, db.Reliable(), db.rows, out);
        numErrs := numErrs + 1;
      }
      assert Retries(cfg, start - {u}, db.rows, u, single, db.now, out, db.Reliable());
    }

    method RenewSubnetLease(lease: Lease) returns (res: RenewResult)
      modifies db
      ensures Renews(old(db.rows), db.rows, lease, db.now, res, db.Reliable())
      ensures ParseIP(lease.underlayIP).None? || ParsePrefix(lease.overlaySubnet).None?
              || ParseMac(lease.hardwareAddr).None? ==>
        res == NonRetriable && db.rows == old(db.rows) && db.statements == old(db.statements)
    {
      hide ParseIP, ParsePrefix, ParseMac, Insertable;
      if !WellFormed(lease) {
        return NonRetriable;
      }
      var ok, existing := db.LeaseForUnderlayIP(lease.underlayIP);
      if !ok {
        return Retriable;
      }
      if existing.None? {
        var added := db.AddEntry(lease);
        if !added {
          return NonRetriable;
        }
      } else if lease != existing.value {
        return NonRetriable;
      }
      var touched := db.RenewLeaseForUnderlayIP(lease.underlayIP);
      if !touched {
        return Retriable;
      }
      var read, lastRenewedAt := db.LastRenewedAtForUnderlayIP(lease.underlayIP);
      if !read {
        return Retriable;
      }
      return Renewed;
    }

    method ReleaseSubnetLease(u: string) returns (ok: bool)
      modifies db
      ensures Releases(old(db.rows), db.rows, u, ok, db.Reliable())
      ensures ok ==> db.rows == old(db.rows) - {u}
      ensures db.Reliable() ==> ok
    {
      var r := db.DeleteEntry(u);
      ok := r != DeleteFailed;
    }

    method RoutableLeases() returns (ok: bool, leases: seq<Lease>)
      modifies db`statements
      ensures ok ==> Lists(leases, db.rows, ActiveKeys(db.rows, cfg.expiration, db.now))
      ensures db.Reliable() ==> ok
    {
      ok, leases := db.AllActive(cfg.expiration);
    }
  }

  lemma AttemptRunExtends(cfg: Config, ts: seq<Table>, outs: seq<Outcome>, u: string, single: bool, now: int,
                          sound: bool,
                          t: Table, out: Outcome)
    requires AttemptRun(cfg, ts, outs, u, single, now, sound)
    requires !LastOutcome(outs).Leased? && |outs| < cfg.attempts
    requires Attempt(cfg, ts[|outs|], t, u, single, now, out, sound)
    ensures AttemptRun(cfg, ts + [t], outs + [out], u, single, now, sound)
  {
    hide Attempt;
  }

  lemma OnlyIPv4HasHwAddr(ip: IP)
    ensures GenerateForVTEP(ip).Generated? <==> ip.V4?
    ensures ip.V4? ==> GenerateForVTEP(ip) == Generated(VtepMac(ip.addr))
  {
    if ip.V4? { VtepAddressIsGenerated(ip.addr); }
  }

  lemma ListedSubnets(t: Table, single: bool, leases: seq<Lease>, taken: seq<string>)
    requires Lists(leases, t, ClassKeys(t, single))
    requires |taken| == |leases| && forall j :: 0 <= j < |taken| ==> taken[j] == leases[j].overlaySubnet
    ensures Elements(taken) == Taken(t, single)
  {
    hide IsSingle;
    forall s ensures s in Elements(taken) <==> s in Taken(t, single) {
      if s in Elements(taken) {
        var j :| 0 <= j < |taken| && taken[j] == s;
        assert leases[j].underlayIP in ClassKeys(t, single);
      }
      if s in Taken(t, single) {
        var u :| u in t && IsSingle(t[u].subnet) == single && t[u].subnet == s;
        assert LeaseOf(t, u) in leases;
        var j :| 0 <= j < |leases| && leases[j] == LeaseOf(t, u);
        assert taken[j] == s;
      }
    }
  }
}
