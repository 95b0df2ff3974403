/** Where the kernel tables send a packet, and that a convergence makes them send it to the right host. */
module Forwarding {
  import opened Wrappers
  import opened Addressing
  import opened Text
  import opened IPText
  import opened LeaseTable
  import opened Kernel
  import opened Converger
  import opened Convergence

  // ---------- the lookup chain ----------

  /** The longest match of section 5.1 of RFC 4632. */
  ghost predicate LongestMatch(routes: map<Cidr, Route>, a: Addr, d: Cidr) {
    && d in routes && d.Contains(a)
    && forall e :: e in routes && e.Contains(a) ==> e.len <= d.len
  }

  /** From the route's gateway by ARP to a hardware address, and from that by the forwarding database to a remote
      tunnel end point, as in section 4.1 of RFC 7348. */
  function TunnelEnd(k: Tables, link: int, r: Route): Option<IP> {
    if r.link == link && r.gw.Some? && V4(r.gw.value) in k.arp then
      match k.arp[V4(r.gw.value)].mac
      case Some(m) => if m in k.fdb then k.fdb[m].ip else None
      case None => None
    else None
  }

  /** A packet to a has a route, and its longest match leads to the tunnel end point. */
  ghost predicate Forwards(k: Tables, link: int, a: Addr, end: IP) {
    && (exists d :: LongestMatch(k.routes, a, d))
    && forall d :: LongestMatch(k.routes, a, d) ==> TunnelEnd(k, link, k.routes[d]) == Some(end)
  }

  // ---------- where planned entries come from ----------

  /** The lease asks for entries to that destination. */
  predicate AsksFor(c: Conf, l: Lease, dest: Cidr, u: IP, m: Mac) {
    ParseCidr(l.overlaySubnet) == Some(dest) && Routable(c, dest) && ParseIP(l.underlayIP) == Some(u)
      && ParseMac(l.hardwareAddr) == Some(m)
  }

  /** Lease i of the list asks for op. */
  ghost predicate AskedBy(c: Conf, leases: seq<Lease>, i: nat, dest: Cidr, u: IP, m: Mac, op: Op) {
    && i < |leases| && AsksFor(c, leases[i], dest, u, m)
    && op in [RouteReplace(RouteFor(c, dest)), NeighSet(ArpFor(c, dest.addr, m)), NeighSet(FdbFor(c, u, m))]
  }

  lemma {:induction false} PlannedIsAsked(c: Conf, leases: seq<Lease>, op: Op)
    returns (i: nat, dest: Cidr, u: IP, m: Mac)
    requires InstallPlan(c, leases).ok && op in InstallPlan(c, leases).ops
    ensures AskedBy(c, leases, i, dest, u, m, op)
  {
    hide ParseCidr, ParseIP, ParseMac, Routable, RouteFor, ArpFor, FdbFor;
    var front, l := leases[..|leases| - 1], leases[|leases| - 1];
    if op in InstallPlan(c, front).ops {
      i, dest, u, m := PlannedIsAsked(c, front, op);
    } else {
      assert op in LeasePlan(c, l).ops;
      i, dest, u, m := |leases| - 1, ParseCidr(l.overlaySubnet).value, ParseIP(l.underlayIP).value,
        ParseMac(l.hardwareAddr).value;
    }
  }

  lemma {:induction false} AskedIsPlanned(c: Conf, leases: seq<Lease>, i: nat, dest: Cidr) returns (u: IP, m: Mac)
    requires InstallPlan(c, leases).ok && i < |leases|
    requires ParseCidr(leases[i].overlaySubnet) == Some(dest) && Routable(c, dest)
    ensures AsksFor(c, leases[i], dest, u, m)
    ensures forall op ::
      op in [RouteReplace(RouteFor(c, dest)), NeighSet(ArpFor(c, dest.addr, m)), NeighSet(FdbFor(c, u, m))] ==>
      op in InstallPlan(c, leases).ops
  {
    hide ParseCidr, ParseIP, ParseMac, Routable, RouteFor, ArpFor, FdbFor;
    var n := |leases| - 1;
    if i < n {
      assert leases[..n][i] == leases[i];
      u, m := AskedIsPlanned(c, leases[..n], i, dest);
    } else {
      u, m := ParseIP(leases[i].underlayIP).value, ParseMac(leases[i].hardwareAddr).value;
      assert LeasePlan(c, leases[i]).ops == [RouteReplace(RouteFor(c, dest)), NeighSet(ArpFor(c, dest.addr, m)),
        NeighSet(FdbFor(c, u, m))];
    }
  }

  // ---------- forwarding after a convergence ----------

  /** Lease i shares no address and no hardware address with any other lease that is routed. */
  ghost predicate StandsAlone(c: Conf, leases: seq<Lease>, i: nat, dest: Cidr, m: Mac) {
    forall j, dest', u', m' :: 0 <= j < |leases| && AsksFor(c, leases[j], dest', u', m') && j != i ==>
      Disjoint(dest, dest') && m != m'
  }

  /** The entries of a lease that stands alone: the only desired route that covers its addresses is its own, and its
      gateway and hardware address lead to its host. */
  lemma LeaseEntries(c: Conf, leases: seq<Lease>, i: nat, dest: Cidr, u: IP, m: Mac, a: Addr)
    requires InstallPlan(c, leases).ok && i < |leases| && AsksFor(c, leases[i], dest, u, m)
    requires StandsAlone(c, leases, i, dest, m) && dest.Contains(a)
    ensures var d := Desired(c, leases);
      && (forall x :: x in d.routes && x.Contains(a) ==> x == dest.Network() && d.routes[x] == RouteFor(c, dest))
      && dest.Network() in d.routes
      && V4(dest.addr) in d.arp && d.arp[V4(dest.addr)] == ArpFor(c, dest.addr, m)
      && m in d.fdb && d.fdb[m] == FdbFor(c, u, m)
  {
    hide *;
    LeaseRoute(c, leases, i, dest, u, m, a);
    LeaseNeighs(c, leases, i, dest, u, m);
  }

  lemma LeaseRoute(c: Conf, leases: seq<Lease>, i: nat, dest: Cidr, u: IP, m: Mac, a: Addr)
    requires InstallPlan(c, leases).ok && i < |leases| && AsksFor(c, leases[i], dest, u, m)
    requires StandsAlone(c, leases, i, dest, m) && dest.Contains(a)
    ensures var d := Desired(c, leases);
      && (forall x :: x in d.routes && x.Contains(a) ==> x == dest.Network() && d.routes[x] == RouteFor(c, dest))
      && dest.Network() in d.routes
  {
    hide ParseCidr, ParseIP, ParseMac, InstallPlan, Apply, ApplyAll, Shl, Shr, Routable, StandsAlone, Disjoint;
    var ops, d := InstallPlan(c, leases).ops, Desired(c, leases);
    assert AllInstall(ops, c.link) by { PlannedInstalls(c, leases); }
    InstalledRoutes(NO_ENTRIES, ops, c.link);
    var u', m' := AskedIsPlanned(c, leases, i, dest);
    assert RouteReplace(RouteFor(c, dest)) in ops;
    forall x | x in d.routes && x.Contains(a) ensures x == dest.Network() && d.routes[x] == RouteFor(c, dest) {
      RouteIsOwn(c, leases, i, dest, u, m, a, d.routes[x]);
    }
  }

  lemma LeaseNeighs(c: Conf, leases: seq<Lease>, i: nat, dest: Cidr, u: IP, m: Mac)
    requires InstallPlan(c, leases).ok && i < |leases| && AsksFor(c, leases[i], dest, u, m)
    requires StandsAlone(c, leases, i, dest, m)
    ensures var d := Desired(c, leases);
      && V4(dest.addr) in d.arp && d.arp[V4(dest.addr)] == ArpFor(c, dest.addr, m)
      && m in d.fdb && d.fdb[m] == FdbFor(c, u, m)
  {
    hide ParseCidr, ParseIP, ParseMac, InstallPlan, Apply, ApplyAll, Shl, Shr, Routable, StandsAlone, Disjoint,
         RouteFor;
    var ops, d := InstallPlan(c, leases).ops, Desired(c, leases);
    assert AllInstall(ops, c.link) by { PlannedInstalls(c, leases); }
    var u', m' := AskedIsPlanned(c, leases, i, dest);
    assert NeighSet(ArpFor(c, dest.addr, m)) in ops && NeighSet(FdbFor(c, u, m)) in ops;
    InstalledArp(NO_ENTRIES, ops, c.link);
    InstalledFdb(NO_ENTRIES, ops, c.link);
    assert V4(dest.addr) in d.arp && m in d.fdb;
    ArpIsOwn(c, leases, i, dest, u, m, d.arp[V4(dest.addr)]);
    FdbIsOwn(c, leases, i, dest, u, m, d.fdb[m]);
  }

  lemma RouteIsOwn(c: Conf, leases: seq<Lease>, i: nat, dest: Cidr, u: IP, m: Mac, a: Addr, r: Route)
    requires InstallPlan(c, leases).ok && i < |leases| && AsksFor(c, leases[i], dest, u, m)
    requires StandsAlone(c, leases, i, dest, m) && dest.Contains(a)
    requires RouteReplace(r) in InstallPlan(c, leases).ops && r.dst.Contains(a)
    ensures r == RouteFor(c, dest)
  {
    hide ParseCidr, ParseIP, ParseMac, InstallPlan, Shl, Shr, Routable;
    var j, dest', u', m' := PlannedIsAsked(c, leases, RouteReplace(r));
    NetworkKeepsRange(dest');
    assert dest'.Contains(a);
  }

  lemma ArpIsOwn(c: Conf, leases: seq<Lease>, i: nat, dest: Cidr, u: IP, m: Mac, n: Neigh)
    requires InstallPlan(c, leases).ok && i < |leases| && AsksFor(c, leases[i], dest, u, m)
    requires StandsAlone(c, leases, i, dest, m)
    requires NeighSet(n) in InstallPlan(c, leases).ops && !n.bridge && n.ip == Some(V4(dest.addr))
    ensures n == ArpFor(c, dest.addr, m)
  {
    hide ParseCidr, ParseIP, ParseMac, InstallPlan, Shl, Shr, Routable;
    var j, dest', u', m' := PlannedIsAsked(c, leases, NeighSet(n));
    NetworkKeepsRange(dest');
    NetworkKeepsRange(dest);
    assert dest'.Contains(dest.addr) && dest.Contains(dest.addr);
  }

  lemma FdbIsOwn(c: Conf, leases: seq<Lease>, i: nat, dest: Cidr, u: IP, m: Mac, n: Neigh)
    requires InstallPlan(c, leases).ok && i < |leases| && AsksFor(c, leases[i], dest, u, m)
    requires StandsAlone(c, leases, i, dest, m)
    requires NeighSet(n) in InstallPlan(c, leases).ops && n.bridge && n.mac == Some(m)
    ensures n == FdbFor(c, u, m)
  {
    hide ParseCidr, ParseIP, ParseMac, InstallPlan, Shl, Shr, Routable, Disjoint;
    var j, dest', u', m' := PlannedIsAsked(c, leases, NeighSet(n));
  }

  /** After a convergence every address inside a remote lease of the overlay is forwarded to exactly the lease's host,
      if the lease stands alone and the routes that are not the converger's are shorter where they overlap it. */
  lemma ConvergenceForwards(c: Conf, k: Tables, k': Tables, leases: seq<Lease>, dels: seq<Op>, i: nat, dest: Cidr,
                            u: IP, m: Mac, a: Addr)
    requires Keyed(k, c.link) && Converges(c, k, k', leases, dels)
    requires i < |leases| && AsksFor(c, leases[i], dest, u, m) && StandsAlone(c, leases, i, dest, m) && dest.Contains(a)
    requires forall d :: d in k.routes && Foreign(c, k.routes[d]) && d.Contains(a) ==> d.len < dest.len
    ensures Forwards(k', c.link, a, u)
  {
    hide Converges, Keyed, InstallPlan, Desired, Foreign, StandsAlone, AsksFor, Shl, Shr, LooksPlanned;
    assert InstallPlan(c, leases).ok by { ConvergesPlans(c, k, k', leases, dels); }
    LeaseEntries(c, leases, i, dest, u, m, a);
    RoutesAreExact(c, k, k', leases, dels);
    NeighsAreExact(c, k, k', leases, dels);
    NetworkKeepsRange(dest);
    assert dest.Network().Contains(a);
    assert LongestMatch(k'.routes, a, dest.Network());
    forall d | LongestMatch(k'.routes, a, d) ensures d == dest.Network() {
      assert d.len >= dest.len;
    }
  }

  /** An address that no routed lease covers is never sent to a tunnel by the converger's routes: whatever route
      it matches is one the converger does not manage. */
  lemma UnleasedIsNotForwarded(c: Conf, k: Tables, k': Tables, leases: seq<Lease>, dels: seq<Op>, a: Addr, d: Cidr)
    requires Keyed(k, c.link) && Converges(c, k, k', leases, dels)
    requires forall j, dest, u, m :: 0 <= j < |leases| && AsksFor(c, leases[j], dest, u, m) ==> !dest.Contains(a)
    requires LongestMatch(k'.routes, a, d)
    ensures d in k.routes && k'.routes[d] == k.routes[d] && Foreign(c, k.routes[d])
  {
    hide Converges, Keyed, InstallPlan, Foreign, AsksFor, Shl, Shr, LooksPlanned, Apply, ApplyAll;
    RoutesAreExact(c, k, k', leases, dels);
    ConvergesPlans(c, k, k', leases, dels);
    PlannedInstalls(c, leases);
    InstalledRoutes(NO_ENTRIES, InstallPlan(c, leases).ops, c.link);
    if d in Desired(c, leases).routes {
      var j, dest, u, m := PlannedIsAsked(c, leases, RouteReplace(Desired(c, leases).routes[d]));
      NetworkKeepsRange(dest);
    }
  }
}
