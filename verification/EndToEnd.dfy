/** The lease table and the kernel tables together: what the controllers hand out is what the hosts forward. */
module EndToEnd {
  import opened Wrappers
  import opened Addressing
  import opened Text
  import opened IPText
  import opened HardwareAddr
  import opened CidrPool
  import opened LeaseTable
  import opened LeaseProtocol
  import opened Leasing
  import opened Interleaving
  import opened Kernel
  import opened Converger
  import opened Convergence
  import opened Continuity
  import opened Forwarding

  lemma DisjointHaveDistinctMacs(p: Cidr, q: Cidr)
    requires Disjoint(p, q)
    ensures p.Base() != q.Base() && p.addr != q.addr && p.Network() != q.Network()
    ensures VtepMac(p.Base()) != VtepMac(q.Base())
  {
    hide VtepMac, Shl, Shr, PrintMac;
    NetworkKeepsRange(p);
    NetworkKeepsRange(q);
    assert p.Contains(p.Base()) && q.Contains(q.Base()) && p.Contains(p.addr) && q.Contains(q.addr);
    if VtepMac(p.Base()) == VtepMac(q.Base()) {
      VtepMacInjective(p.Base(), q.Base());
    }
  }

  /** Two different entries of a listing ask for disjoint ranges and different hardware addresses. */
  lemma ListedDiffer(cfg: Config, net: Cidr, mask: PrefixLen, t: Table, keys: set<string>, leases: seq<Lease>, c: Conf,
                     i: nat, j: nat, p: Cidr, u: IP, m: Mac, q: Cidr, v: IP, n: Mac)
    requires net.len <= mask && cfg.pool == MakePool(net, mask) && Healthy(cfg, t) && Lists(leases, t, keys)
    requires i < |leases| && j < |leases| && i != j
    requires AsksFor(c, leases[i], p, u, m) && AsksFor(c, leases[j], q, v, n)
    ensures Disjoint(p, q) && m != n
    ensures p.addr != q.addr && p.Network() != q.Network()
  {
    hide ParseCidr, ParseIP, ParseMac, MakePool, Healthy, Routable, Disjoint, Shl, Shr, Octets;
    HealthyLeasesAreApart(cfg, net, mask, t);
    var x, y := leases[i].underlayIP, leases[j].underlayIP;
    assert leases[i] == LeaseOf(t, x) && leases[j] == LeaseOf(t, y) && x != y;
    DisjointHaveDistinctMacs(p, q);
  }

  /** The leases of a healthy table never contradict each other: their plan runs to its end, so only a failing kernel
      call can make Converge fail, and what is in place stays in place throughout. */
  lemma HealthyLeasesPlan(cfg: Config, net: Cidr, mask: PrefixLen, t: Table, keys: set<string>, leases: seq<Lease>,
                          c: Conf)
    requires net.len <= mask && cfg.pool == MakePool(net, mask) && Healthy(cfg, t) && Lists(leases, t, keys)
    ensures InstallPlan(c, leases).ok
    ensures NoConflict(AllOps(c, leases)) && Settled(c, leases)
  {
    hide ParseCidr, ParseIP, ParseMac, MakePool, Routable, InstallPlan, AllOps, SameKey, Settled;
    forall i | 0 <= i < |leases|
      ensures ParseCidr(leases[i].overlaySubnet).Some? && ParseIP(leases[i].underlayIP).Some?
              && ParseMac(leases[i].hardwareAddr).Some?
    {
      HealthyLeasesAreApart(cfg, net, mask, t);
    }
    ParsedLeasesPlan(c, leases);
    PlanIsReached(c, leases);
    ConsistentLeasesAreSettled(c, leases);
    var ops := InstallPlan(c, leases).ops;
    forall a, b | a in ops && b in ops && SameKey(a, b) ensures a == b {
      hide Healthy, Lists;
      var i, p, u, m := PlannedIsAsked(c, leases, a);
      var j, q, v, n := PlannedIsAsked(c, leases, b);
      if i != j {
        ListedDiffer(cfg, net, mask, t, keys, leases, c, i, j, p, u, m, q, v, n);
      }
      SameKeySameOp(c, p, u, m, q, v, n, a, b);
    }
  }

  lemma SameKeySameOp(c: Conf, p: Cidr, u: IP, m: Mac, q: Cidr, v: IP, n: Mac, a: Op, b: Op)
    requires a in [RouteReplace(RouteFor(c, p)), NeighSet(ArpFor(c, p.addr, m)), NeighSet(FdbFor(c, u, m))]
    requires b in [RouteReplace(RouteFor(c, q)), NeighSet(ArpFor(c, q.addr, n)), NeighSet(FdbFor(c, v, n))]
    requires (p == q && u == v && m == n) || (p.Network() != q.Network() && p.addr != q.addr && m != n)
    requires SameKey(a, b)
    ensures a == b
  {
  }

  lemma {:induction false} ParsedLeasesPlan(c: Conf, leases: seq<Lease>)
    requires forall i :: 0 <= i < |leases| ==>
      ParseCidr(leases[i].overlaySubnet).Some? && ParseIP(leases[i].underlayIP).Some?
        && ParseMac(leases[i].hardwareAddr).Some?
    ensures InstallPlan(c, leases).ok
  {
    hide ParseCidr, ParseIP, ParseMac, Routable;
    if leases != [] {
      ParsedLeasesPlan(c, leases[..|leases| - 1]);
    }
  }

  /** The converger of the host `me`, configured with the controller's network. */
  ghost predicate ConfiguredFor(c: Conf, net: Cidr, t: Table, me: string) {
    c.overlay == net && me in t && ParseCidr(t[me].subnet) == Some(c.local)
  }

  /** After a convergence on the routable leases of a healthy table, every address inside the lease of any other active
      host is forwarded to exactly that host, if the routes that are not the converger's are no longer than the
      overlay network where they cover the address. */
  lemma LeasedAddressIsForwarded(cfg: Config, net: Cidr, mask: PrefixLen, t: Table, now: int, me: string, v: string,
                                 dest: Cidr, c: Conf, leases: seq<Lease>, k: Tables, k': Tables, dels: seq<Op>, a: Addr)
    requires net.len < mask && cfg.pool == MakePool(net, mask) && Healthy(cfg, t) && ConfiguredFor(c, net, t, me)
    requires Lists(leases, t, ActiveKeys(t, cfg.expiration, now))
    requires v in ActiveKeys(t, cfg.expiration, now) && v != me && ParseCidr(t[v].subnet) == Some(dest)
             && dest.Contains(a)
    requires Keyed(k, c.link) && Converges(c, k, k', leases, dels)
    requires forall d :: d in k.routes && Foreign(c, k.routes[d]) && d.Contains(a) ==> d.len <= net.len
    ensures ParseIP(v).Some? && Forwards(k', c.link, a, ParseIP(v).value)
  {
    hide ParseCidr, ParseIP, ParseMac, MakePool, Converges, Keyed, Foreign, Forwards, Shl, Shr, Disjoint, PrintCidr,
         EndsInSlash32, HwAddrFor;
    var keys := ActiveKeys(t, cfg.expiration, now);
    assert LeaseOf(t, v) in leases;
    var i :| 0 <= i < |leases| && leases[i] == LeaseOf(t, v);
    HealthyLeasesAreApart(cfg, net, mask, t);
    var u, m := ParseIP(v).value, ParseMac(t[v].hwaddr).value;
    assert AsksFor(c, leases[i], dest, u, m) by { RemoteIsRoutable(cfg, net, mask, t, me, v, dest, c); }
    forall j, q, u', n | 0 <= j < |leases| && AsksFor(c, leases[j], q, u', n) && j != i
      ensures Disjoint(dest, q) && m != n
    {
      ListedDiffer(cfg, net, mask, t, keys, leases, c, i, j, dest, u, m, q, u', n);
    }
    assert mask <= dest.len by { MemberParses(net, mask, t[v].subnet); }
    ConvergenceForwards(c, k, k', leases, dels, i, dest, u, m, a);
  }

  lemma RemoteIsRoutable(cfg: Config, net: Cidr, mask: PrefixLen, t: Table, me: string, v: string, dest: Cidr, c: Conf)
    requires net.len <= mask && cfg.pool == MakePool(net, mask) && Healthy(cfg, t) && ConfiguredFor(c, net, t, me)
    requires v in t && v != me && ParseCidr(t[v].subnet) == Some(dest)
    ensures Routable(c, dest)
  {
    hide ParseCidr, ParseIP, ParseMac, MakePool, Shl, Shr, Disjoint, VtepMac, PrintCidr, EndsInSlash32;
    HealthyLeasesAreApart(cfg, net, mask, t);
    MemberParses(net, mask, t[me].subnet);
    DisjointHaveDistinctMacs(dest, c.local);
    NetworkKeepsRange(dest);
    assert dest.Contains(dest.Base());
  }

  /** The same for the table of any reachable state of the controllers, with requests interleaved at will. */
  lemma ReachableTableForwards(cfg: Config, net: Cidr, mask: PrefixLen, run: seq<Interleaving.State>, n: nat,
                               me: string, v: string, dest: Cidr,
                               c: Conf, leases: seq<Lease>, k: Tables, k': Tables, dels: seq<Op>, a: Addr)
    requires net.len < mask && cfg.pool == MakePool(net, mask)
    requires IsRun(cfg, run) && RenewsPoolLeases(cfg, run) && n < |run| && ConfiguredFor(c, net, run[n].table, me)
    requires Lists(leases, run[n].table, ActiveKeys(run[n].table, cfg.expiration, run[n].now))
    requires v in ActiveKeys(run[n].table, cfg.expiration, run[n].now) && v != me
    requires ParseCidr(run[n].table[v].subnet) == Some(dest) && dest.Contains(a)
    requires Keyed(k, c.link) && Converges(c, k, k', leases, dels)
    requires forall d :: d in k.routes && Foreign(c, k.routes[d]) && d.Contains(a) ==> d.len <= net.len
    ensures ParseIP(v).Some? && Forwards(k', c.link, a, ParseIP(v).value)
  {
    hide *;
    LeasesStayDisjoint(cfg, net, mask, run, n);
    LeasedAddressIsForwarded(cfg, net, mask, run[n].table, run[n].now, me, v, dest, c, leases, k, k', dels, a);
  }
}
