/** The reconciler of every host (daemon/vtep/converger.go): it installs a route, an ARP entry and an FDB entry
    for every remote lease and then deletes what is stale. */
module Converger {
  import opened Wrappers
  import opened Addressing
  import opened Text
  import opened IPText
  import opened LeaseTable
  import opened Kernel

  /** The overlay network, the local subnet (a network address) and the index of the VTEP device. */
  datatype Conf = Conf(overlay: Cidr, local: Cidr, link: int)

  // ---------- the operations Converge issues ----------

  function RouteFor(c: Conf, dest: Cidr): Route {
    Route(c.link, SCOPE_UNIVERSE, dest.Network(), Some(dest.addr), Some(c.local.Base()))
  }

  function ArpFor(c: Conf, dest: Addr, mac: Mac): Neigh {
    Neigh(c.link, NUD_PERMANENT, Some(V4(dest)), Some(mac), false)
  }

  function FdbFor(c: Conf, underlay: IP, mac: Mac): Neigh {
    Neigh(c.link, NUD_PERMANENT, Some(underlay), Some(mac), true)
  }

  predicate IsLocal(c: Conf, dest: Cidr) {
    dest.Network() == c.local
  }

  /** A lease of another host inside the overlay network. */
  predicate Routable(c: Conf, dest: Cidr) {
    !IsLocal(c, dest) && c.overlay.Contains(dest.Base())
  }

  /** A list of operations, and whether it runs to its end rather than to an error in a lease. */
  datatype Plan = Plan(ops: seq<Op>, ok: bool)

  /** A subnet in IPv6 notation is passed over, unless it comes to a routable IPv4 network, for which the kernel refuses
      a route with the IPv6 prefix length. */
  predicate PassedOver(c: Conf, subnet: string) {
    ParsePrefix(subnet).Some? && !(MappedNetwork(subnet).Some? && Routable(c, MappedNetwork(subnet).value))
  }

  function LeasePlan(c: Conf, l: Lease): Plan {
    match ParseCidr(l.overlaySubnet)
    case None => Plan([], PassedOver(c, l.overlaySubnet))
    case Some(dest) =>
      if !Routable(c, dest) then Plan([], true)
      else match (ParseIP(l.underlayIP), ParseMac(l.hardwareAddr))
        case (Some(u), Some(m)) =>
          Plan([RouteReplace(RouteFor(c, dest)), NeighSet(ArpFor(c, dest.addr, m)), NeighSet(FdbFor(c, u, m))], true)
        case _ => Plan([RouteReplace(RouteFor(c, dest))], false)
  }

  function InstallPlan(c: Conf, leases: seq<Lease>): Plan {
    if leases == [] then Plan([], true)
    else
      var p := InstallPlan(c, leases[..|leases| - 1]);
      if !p.ok then p
      else
        var q := LeasePlan(c, leases[|leases| - 1]);
        Plan(p.ops + q.ops, q.ok)
  }

  predicate RouteEqual(r1: Route, r2: Route) {
    r1.link == r2.link && r1.scope == r2.scope && r1.dst == r2.dst && r1.gw == r2.gw && r1.src == r2.src
  }

  /** The family is not compared. */
  predicate NeighEqual(n1: Neigh, n2: Neigh) {
    n1.link == n2.link && n1.state == n2.state && n1.ip == n2.ip && n1.mac == n2.mac
  }

  predicate IsManaged(c: Conf, r: Route) {
    r.link == c.link && r.gw.Some? && c.overlay.Contains(r.gw.value)
  }

  /** The routes a list of operations installs, and the neighbours it sets, in order. */
  function RoutesOf(ops: seq<Op>): seq<Route> {
    if ops == [] then []
    else
      var op := ops[|ops| - 1];
      RoutesOf(ops[..|ops| - 1]) + (if op.RouteReplace? then [op.route] else [])
  }

  function NeighsOf(ops: seq<Op>): seq<Neigh> {
    if ops == [] then []
    else
      var op := ops[|ops| - 1];
      NeighsOf(ops[..|ops| - 1]) + (if op.NeighSet? then [op.neigh] else [])
  }

  /** The deletions issued for the routes and neighbours that are no longer wanted. */
  function RouteDels(c: Conf, removed: seq<Route>): seq<Op> {
    if removed == [] then []
    else
      var r := removed[|removed| - 1];
      RouteDels(c, removed[..|removed| - 1]) + (if IsManaged(c, r) then [RouteDel(r)] else [])
  }

  function NeighDels(c: Conf, removed: seq<Neigh>): seq<Op> {
    if removed == [] then []
    else
      var n := removed[|removed| - 1];
      NeighDels(c, removed[..|removed| - 1]) + (if n.link == c.link then [NeighDel(n)] else [])
  }

  function DeletePlan(c: Conf, routes: seq<Route>, neighs: seq<Neigh>, installs: seq<Op>): seq<Op> {
    RouteDels(c, RemovedRoutes(routes, RoutesOf(installs))) + NeighDels(c, RemovedNeighs(neighs, NeighsOf(installs)))
  }

  /** Everything Converge does after reading the given entries: install first, delete last. */
  function ConvergePlan(c: Conf, routes: seq<Route>, neighs: seq<Neigh>, leases: seq<Lease>): Plan {
    var p := InstallPlan(c, leases);
    if !p.ok then p else Plan(p.ops + DeletePlan(c, routes, neighs, p.ops), true)
  }

  /** A successful convergence: the kernel lists its entries, and the whole plan is carried out. */
  ghost predicate Converges(c: Conf, k: Tables, k': Tables, leases: seq<Lease>, dels: seq<Op>) {
    exists routes, neighs ::
      && ListsRoutes(routes, k, c.link) && ListsNeighs(neighs, k)
      && InstallPlan(c, leases).ok
      && dels == DeletePlan(c, routes, neighs, InstallPlan(c, leases).ops)
      && k' == ApplyAll(k, InstallPlan(c, leases).ops + dels)
  }

  lemma PlanConverges(c: Conf, k: Tables, routes: seq<Route>, neighs: seq<Neigh>, leases: seq<Lease>, done: seq<Op>)
    requires ListsRoutes(routes, k, c.link) && ListsNeighs(neighs, k)
    requires ConvergePlan(c, routes, neighs, leases) == Plan(done, true)
    ensures Converges(c, k, ApplyAll(k, done), leases, DeletePlan(c, routes, neighs, InstallPlan(c, leases).ops))
  {
    hide ListsRoutes, ListsNeighs, InstallPlan, DeletePlan, ApplyAll;
  }

  // ---------- the methods ----------

  /** The previous routes that no current route equals, in order. */
  method GetDeletedRoutes(previous: seq<Route>, current: seq<Route>) returns (deleted: seq<Route>)
    ensures forall r :: r in deleted <==> r in previous && r !in current
    ensures deleted == RemovedRoutes(previous, current)
  {
    deleted := [];
    for i := 0 to |previous|
      invariant deleted == RemovedRoutes(previous[..i], current)
      invariant forall r :: r in deleted <==> r in previous[..i] && r !in current
    {
      var isRemoved := true;
      for j := 0 to |current|
        invariant isRemoved <==> previous[i] !in current[..j]
      {
        isRemoved := isRemoved && !RouteEqual(previous[i], current[j]);
      }
      assert current[..|current|] == current;
      assert previous[..i + 1][..i] == previous[..i];
      assert previous[..i + 1] == previous[..i] + [previous[i]];
      if isRemoved {
        deleted := deleted + [previous[i]];
      }
    }
    assert previous[..|previous|] == previous;
  }

  function RemovedRoutes(previous: seq<Route>, current: seq<Route>): seq<Route> {
    if previous == [] then []
    else
      var r := previous[|previous| - 1];
      RemovedRoutes(previous[..|previous| - 1], current) + (if r in current then [] else [r])
  }

  predicate EqualsOne(n: Neigh, current: seq<Neigh>) {
    exists j :: 0 <= j < |current| && NeighEqual(n, current[j])
  }

  function RemovedNeighs(previous: seq<Neigh>, current: seq<Neigh>): seq<Neigh> {
    if previous == [] then []
    else
      var n := previous[|previous| - 1];
      RemovedNeighs(previous[..|previous| - 1], current) + (if EqualsOne(n, current) then [] else [n])
  }

  /** The previous neighbours that equal no current one up to the family, in order. */
  method GetDeletedNeighs(previous: seq<Neigh>, current: seq<Neigh>) returns (deleted: seq<Neigh>)
    ensures forall n :: n in deleted <==> n in previous && !EqualsOne(n, current)
    ensures deleted == RemovedNeighs(previous, current)
  {
    deleted := [];
    for i := 0 to |previous|
      invariant deleted == RemovedNeighs(previous[..i], current)
      invariant forall n :: n in deleted <==> n in previous[..i] && !EqualsOne(n, current)
    {
      var isRemoved := true;
      for j := 0 to |current|
        invariant isRemoved <==> !EqualsOne(previous[i], current[..j])
      {
        assert current[..j + 1][..j] == current[..j];
        assert EqualsOne(previous[i], current[..j + 1]) <==>
          EqualsOne(previous[i], current[..j]) || NeighEqual(previous[i], current[j]) by {
          if NeighEqual(previous[i], current[j]) { assert current[..j + 1][j] == current[j]; }
          if EqualsOne(previous[i], current[..j]) {
            var x :| 0 <= x < j && NeighEqual(previous[i], current[..j][x]);
            assert current[..j + 1][x] == current[..j][x];
          }
        }
        isRemoved := isRemoved && !NeighEqual(previous[i], current[j]);
      }
      assert current[..|current|] == current;
      assert previous[..i + 1][..i] == previous[..i];
      assert previous[..i + 1] == previous[..i] + [previous[i]];
      if isRemoved {
        deleted := deleted + [previous[i]];
      }
    }
    assert previous[..|previous|] == previous;
  }

  class Reconciler {
    const conf: Conf
    const nl: Netlink

    constructor (conf: Conf, nl: Netlink)
      ensures this.conf == conf && this.nl == nl
    {
      this.conf := conf;
      this.nl := nl;
    }

    /** Installs the entries of one lease; `done` is what was installed before an error, if any. */
    method InstallLease(l: Lease) returns (ok: bool, routes: seq<Route>, neighs: seq<Neigh>, ghost done: seq<Op>)
      modifies nl
      ensures nl.log == old(nl.log) + done && nl.tables == ApplyAll(old(nl.tables), done)
      ensures done <= LeasePlan(conf, l).ops
      ensures ok ==> LeasePlan(conf, l) == Plan(done, true)
      ensures nl.Reliable() ==> LeasePlan(conf, l) == Plan(done, ok)
      ensures ok ==> routes == RoutesOf(done) && neighs == NeighsOf(done)
    {
      hide ParseCidr, ParseIP, ParseMac, Apply, PassedOver;
      routes, neighs, done := [], [], [];
      var parsed := ParseCidr(l.overlaySubnet);
      if parsed.None? {
        return PassedOver(conf, l.overlaySubnet), [], [], [];
      }
      var dest := parsed.value;
      if IsLocal(conf, dest) || !conf.overlay.Contains(dest.Base()) {
        return true, [], [], [];
      }
      var route := RouteFor(conf, dest);
      ok := nl.Execute(RouteReplace(route));
      if !ok {
        return;
      }
      done := [RouteReplace(route)];
      var underlayIP := ParseIP(l.underlayIP);
      if underlayIP.None? {
        return false, [], [], done;
      }
      var remoteMac := ParseMac(l.hardwareAddr);
      if remoteMac.None? {
        return false, [], [], done;
      }
      var arp := ArpFor(conf, dest.addr, remoteMac.value);
      ok := nl.Execute(NeighSet(arp));
      if !ok {
        return;
      }
      ApplyAllAppends(old(nl.tables), done, [NeighSet(arp)]);
      done := done + [NeighSet(arp)];
      var fdb := FdbFor(conf, underlayIP.value, remoteMac.value);
      ok := nl.Execute(NeighSet(fdb));
      if !ok {
        return;
      }
      ApplyAllAppends(old(nl.tables), done, [NeighSet(fdb)]);
      done := done + [NeighSet(fdb)];
      OneLeaseInstalls(route, arp, fdb);
      return true, [route], [arp, fdb], done;
    }

    method InstallLeases(leases: seq<Lease>)
      returns (ok: bool, routes: seq<Route>, neighs: seq<Neigh>, ghost done: seq<Op>)
      modifies nl
      ensures nl.log == old(nl.log) + done && nl.tables == ApplyAll(old(nl.tables), done)
      ensures done <= InstallPlan(conf, leases).ops
      ensures ok ==> InstallPlan(conf, leases) == Plan(done, true)
      ensures nl.Reliable() ==> InstallPlan(conf, leases) == Plan(done, ok)
      ensures ok ==> routes == RoutesOf(done) && neighs == NeighsOf(done)
    {
      hide LeasePlan, Apply, ApplyAll, RoutesOf, NeighsOf;
      assert ApplyAll(nl.tables, []) == nl.tables by { ApplyAllNothing(nl.tables); }
      assert RoutesOf([]) == [] && NeighsOf([]) == [] by { NothingInstalled(); }
      routes, neighs, done := [], [], [];
      for i := 0 to |leases|
        invariant nl.log == old(nl.log) + done && nl.tables == ApplyAll(old(nl.tables), done)
        invariant InstallPlan(conf, leases[..i]) == Plan(done, true)
        invariant routes == RoutesOf(done) && neighs == NeighsOf(done)
      {
        assert leases[..i + 1][..i] == leases[..i];
        var one, r, n, more := InstallLease(leases[i]);
        ApplyAllAppends(old(nl.tables), done, more);
        CurrentAppends(done, more);
        PlanGrows(conf, leases, i + 1);
        done, routes, neighs := done + more, routes + r, neighs + n;
        if !one {
          return false, [], [], done;
        }
      }
      assert leases[..|leases|] == leases;
      ok := true;
    }

    method DeleteRoutes(removed: seq<Route>) returns (ok: bool, ghost done: seq<Op>)
      modifies nl
      ensures nl.log == old(nl.log) + done && nl.tables == ApplyAll(old(nl.tables), done)
      ensures done <= RouteDels(conf, removed)
      ensures ok ==> done == RouteDels(conf, removed)
      ensures nl.Reliable() ==> ok
    {
      hide IsManaged, Apply;
      done := [];
      for i := 0 to |removed|
        invariant nl.log == old(nl.log) + done && nl.tables == ApplyAll(old(nl.tables), done)
        invariant done == RouteDels(conf, removed[..i])
      {
        RouteDelsGrow(conf, removed, i + 1);
        assert removed[..i + 1][..i] == removed[..i];
        if IsManaged(conf, removed[i]) {
          ok := nl.Execute(RouteDel(removed[i]));
          if !ok {
            return;
          }
          ApplyAllAppends(old(nl.tables), done, [RouteDel(removed[i])]);
          done := done + [RouteDel(removed[i])];
        }
      }
      assert removed[..|removed|] == removed;
      ok := true;
    }

    method DeleteNeighs(removed: seq<Neigh>) returns (ok: bool, ghost done: seq<Op>)
      modifies nl
      ensures nl.log == old(nl.log) + done && nl.tables == ApplyAll(old(nl.tables), done)
      ensures done <= NeighDels(conf, removed)
      ensures ok ==> done == NeighDels(conf, removed)
      ensures nl.Reliable() ==> ok
    {
      hide Apply;
      done := [];
      for i := 0 to |removed|
        invariant nl.log == old(nl.log) + done && nl.tables == ApplyAll(old(nl.tables), done)
        invariant done == NeighDels(conf, removed[..i])
      {
        NeighDelsGrow(conf, removed, i + 1);
        assert removed[..i + 1][..i] == removed[..i];
        if removed[i].link == conf.link {
          ok := nl.Execute(NeighDel(removed[i]));
          if !ok {
            return;
          }
          ApplyAllAppends(old(nl.tables), done, [NeighDel(removed[i])]);
          done := done + [NeighDel(removed[i])];
        }
      }
      assert removed[..|removed|] == removed;
      ok := true;
    }

    /** Whatever fails, the calls made are the first ones of the plan, all of it if Converge succeeds; when no call
        fails, Converge gives up only on a lease that the plan gives up on.  `routes` and `neighs` are what the kernel
        listed before. */
    method Converge(leases: seq<Lease>)
      returns (ok: bool, ghost routes: seq<Route>, ghost neighs: seq<Neigh>, ghost done: seq<Op>)
      requires Keyed(nl.tables, conf.link)
      modifies nl
      ensures nl.log == old(nl.log) + done && nl.tables == ApplyAll(old(nl.tables), done)
      ensures done <= ConvergePlan(conf, routes, neighs, leases).ops
      ensures done != [] || ok || nl.Reliable() ==>
        ListsRoutes(routes, old(nl.tables), conf.link) && ListsNeighs(neighs, old(nl.tables))
      ensures ok ==> ConvergePlan(conf, routes, neighs, leases) == Plan(done, true)
      ensures ok ==> Converges(conf, old(nl.tables), nl.tables, leases,
                               DeletePlan(conf, routes, neighs, InstallPlan(conf, leases).ops))
      ensures nl.Reliable() ==> ConvergePlan(conf, routes, neighs, leases) == Plan(done, ok)
    {
      hide InstallPlan, RoutesOf, NeighsOf, RemovedRoutes, RemovedNeighs, RouteDels, NeighDels, ApplyAll, Keyed,
           Converges;
      routes, neighs, done := [], [], [];
      assert ApplyAll(nl.tables, []) == nl.tables by { ApplyAllNothing(nl.tables); }
      var listed, previousRoutes := nl.RouteList(conf.link);
      if !listed {
        return false, [], [], [];
      }
      var fdbListed, previousFDBNeighs := nl.FDBList(conf.link);
      if !fdbListed {
        return false, [], [], [];
      }
      var arpListed, previousARPNeighs := nl.ARPList(conf.link);
      if !arpListed {
        return false, [], [], [];
      }
      var previousNeighs := previousARPNeighs + previousFDBNeighs;
      routes, neighs := previousRoutes, previousNeighs;
      ghost var start := nl.tables;
      var installed, currentRoutes, currentNeighs, first := InstallLeases(leases);
      if !installed {
        return false, routes, neighs, first;
      }
      ghost var middle := nl.tables;
      var removedRoutes := GetDeletedRoutes(previousRoutes, currentRoutes);
      var routesDeleted, second := DeleteRoutes(removedRoutes);
      ApplyAllAppends(start, first, second);
      if !routesDeleted {
        return false, routes, neighs, first + second;
      }
      var removedNeighs := GetDeletedNeighs(previousNeighs, currentNeighs);
      var neighsDeleted, third := DeleteNeighs(removedNeighs);
      ApplyAllAppends(start, first + second, third);
      assert first + second + third == first + (second + third);
      assert neighsDeleted ==> Converges(conf, start, nl.tables, leases,
                                         DeletePlan(conf, routes, neighs, InstallPlan(conf, leases).ops)) by {
        if neighsDeleted { PlanConverges(conf, start, routes, neighs, leases, first + second + third); }
      }
      return neighsDeleted, routes, neighs, first + second + third;
    }
  }

  // ---------- lists that grow with the loops ----------

  lemma ApplyAllNothing(k: Tables)
    ensures ApplyAll(k, []) == k
  {
  }

  lemma NothingInstalled()
    ensures RoutesOf([]) == [] && NeighsOf([]) == []
  {
  }

  lemma {:induction false} CurrentAppends(a: seq<Op>, b: seq<Op>)
    ensures RoutesOf(a + b) == RoutesOf(a) + RoutesOf(b)
    ensures NeighsOf(a + b) == NeighsOf(a) + NeighsOf(b)
  {
    if b == [] {
      assert a + b == a;
    } else {
      var front := b[..|b| - 1];
      assert (a + b)[..|a + b| - 1] == a + front;
      CurrentAppends(a, front);
    }
  }

  lemma OneLeaseInstalls(route: Route, arp: Neigh, fdb: Neigh)
    ensures var ops := [RouteReplace(route)] + [NeighSet(arp)] + [NeighSet(fdb)];
      RoutesOf(ops) == [route] && NeighsOf(ops) == [arp, fdb]
  {
    var a, b, c := [RouteReplace(route)], [NeighSet(arp)], [NeighSet(fdb)];
    CurrentAppends(a + b, c);
    CurrentAppends(a, b);
    assert a[..0] == [] && b[..0] == [] && c[..0] == [];
  }

  lemma {:induction false} PlanGrows(c: Conf, leases: seq<Lease>, i: nat)
    requires i <= |leases|
    ensures InstallPlan(c, leases[..i]).ops <= InstallPlan(c, leases).ops
    ensures !InstallPlan(c, leases[..i]).ok ==> InstallPlan(c, leases) == InstallPlan(c, leases[..i])
    decreases |leases|
  {
    hide LeasePlan;
    if i == |leases| {
      assert leases[..i] == leases;
    } else {
      var front := leases[..|leases| - 1];
      assert front[..i] == leases[..i];
      PlanGrows(c, front, i);
    }
  }

  lemma {:induction false} RouteDelsGrow(c: Conf, removed: seq<Route>, i: nat)
    requires i <= |removed|
    ensures RouteDels(c, removed[..i]) <= RouteDels(c, removed)
    decreases |removed|
  {
    hide IsManaged;
    if i == |removed| {
      assert removed[..i] == removed;
    } else {
      var front := removed[..|removed| - 1];
      assert front[..i] == removed[..i];
      RouteDelsGrow(c, front, i);
    }
  }

  lemma {:induction false} NeighDelsGrow(c: Conf, removed: seq<Neigh>, i: nat)
    requires i <= |removed|
    ensures NeighDels(c, removed[..i]) <= NeighDels(c, removed)
    decreases |removed|
  {
    if i == |removed| {
      assert removed[..i] == removed;
    } else {
      var front := removed[..|removed| - 1];
      assert front[..i] == removed[..i];
      NeighDelsGrow(c, front, i);
    }
  }
}
