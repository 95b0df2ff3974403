/** What a convergence leaves behind, what a repeated one does, and what stays in place meanwhile. */
module Convergence {
  import opened Wrappers
  import opened Addressing
  import opened Text
  import opened IPText
  import opened LeaseTable
  import opened Kernel
  import opened Converger

  /** The entries the leases ask for, and no others. */
  function Desired(c: Conf, leases: seq<Lease>): Tables {
    ApplyAll(NO_ENTRIES, InstallPlan(c, leases).ops)
  }

  // ---------- what a list of installs builds ----------

  ghost predicate AllInstall(ops: seq<Op>, link: int) {
    forall op :: op in ops ==> Installs(op, link)
  }

  lemma {:induction false} InstalledRoutes(k: Tables, ops: seq<Op>, link: int)
    requires AllInstall(ops, link)
    ensures var t := ApplyAll(k, ops).routes;
      && (forall d :: d in t ==>
            || (RouteReplace(t[d]) in ops && t[d].dst == d)
            || (d in k.routes && t[d] == k.routes[d] && forall r :: RouteReplace(r) in ops ==> r.dst != d))
      && (forall r :: RouteReplace(r) in ops ==> r.dst in t)
      && k.routes.Keys <= t.Keys
    decreases |ops|
  {
    if ops != [] {
      assert ops == [ops[0]] + ops[1..];
      assert Installs(ops[0], link);
      InstalledRoutes(Apply(k, ops[0]), ops[1..], link);
    }
  }

  lemma {:induction false} InstalledArp(k: Tables, ops: seq<Op>, link: int)
    requires AllInstall(ops, link)
    ensures var t := ApplyAll(k, ops).arp;
      && (forall a :: a in t ==>
            || (NeighSet(t[a]) in ops && t[a].ip == Some(a) && !t[a].bridge)
            || (a in k.arp && t[a] == k.arp[a] && forall n :: NeighSet(n) in ops && !n.bridge ==> n.ip != Some(a)))
      && (forall n :: NeighSet(n) in ops && !n.bridge ==> n.ip.value in t)
      && k.arp.Keys <= t.Keys
    decreases |ops|
  {
    if ops != [] {
      assert ops == [ops[0]] + ops[1..];
      assert Installs(ops[0], link);
      InstalledArp(Apply(k, ops[0]), ops[1..], link);
    }
  }

  lemma {:induction false} InstalledFdb(k: Tables, ops: seq<Op>, link: int)
    requires AllInstall(ops, link)
    ensures var t := ApplyAll(k, ops).fdb;
      && (forall m :: m in t ==>
            || (NeighSet(t[m]) in ops && t[m].mac == Some(m) && t[m].bridge)
            || (m in k.fdb && t[m] == k.fdb[m] && forall n :: NeighSet(n) in ops && n.bridge ==> n.mac != Some(m)))
      && (forall n :: NeighSet(n) in ops && n.bridge ==> n.mac.value in t)
      && k.fdb.Keys <= t.Keys
    decreases |ops|
  {
    if ops != [] {
      assert ops == [ops[0]] + ops[1..];
      assert Installs(ops[0], link);
      InstalledFdb(Apply(k, ops[0]), ops[1..], link);
    }
  }

  /** Some FDB entry with the hardware address is among the installs. */
  ghost predicate SetsFdb(ops: seq<Op>, mac: Option<Mac>) {
    exists f :: NeighSet(f) in ops && f.bridge && f.mac == mac
  }

  /** The hardware address of every neighbour that is set also keys an FDB entry that is set. */
  ghost predicate PairsNeighs(ops: seq<Op>) {
    forall n :: NeighSet(n) in ops ==> SetsFdb(ops, n.mac)
  }

  lemma PairsAppend(p: seq<Op>, q: seq<Op>, link: int)
    requires AllInstall(p, link) && AllInstall(q, link) && PairsNeighs(p) && PairsNeighs(q)
    ensures AllInstall(p + q, link) && PairsNeighs(p + q)
  {
    hide Installs;
    forall n | NeighSet(n) in p + q ensures SetsFdb(p + q, n.mac) {
      var part := if NeighSet(n) in p then p else q;
      assert SetsFdb(part, n.mac);
      var f :| NeighSet(f) in part && f.bridge && f.mac == n.mac;
      assert NeighSet(f) in p + q;
    }
  }

  lemma LeaseInstalls(c: Conf, l: Lease)
    requires LeasePlan(c, l).ok
    ensures AllInstall(LeasePlan(c, l).ops, c.link) && PairsNeighs(LeasePlan(c, l).ops)
  {
    hide ParseCidr, ParseIP, ParseMac, PassedOver, Routable;
    var q := LeasePlan(c, l).ops;
    if q != [] {
      assert q[2] in q && q[2] == NeighSet(q[2].neigh) && q[2].neigh.bridge;
      assert forall n :: NeighSet(n) in q ==> n.mac == q[2].neigh.mac;
    }
  }

  /** Every planned operation installs an entry, and the hardware address of every neighbour also keys a planned FDB
      entry. */
  lemma {:induction false} PlannedInstalls(c: Conf, leases: seq<Lease>)
    requires InstallPlan(c, leases).ok
    ensures AllInstall(InstallPlan(c, leases).ops, c.link) && PairsNeighs(InstallPlan(c, leases).ops)
  {
    hide LeasePlan, AllInstall, PairsNeighs;
    if leases == [] {
      NothingIsInstalled(c.link);
    } else {
      var l := leases[|leases| - 1];
      PlannedInstalls(c, leases[..|leases| - 1]);
      LeaseInstalls(c, l);
      PairsAppend(InstallPlan(c, leases[..|leases| - 1]).ops, LeasePlan(c, l).ops, c.link);
    }
  }

  lemma NothingIsInstalled(link: int)
    ensures AllInstall([], link) && PairsNeighs([])
  {
  }

  // ---------- what is deleted ----------

  lemma {:induction false} CurrentLists(ops: seq<Op>)
    ensures forall r :: r in RoutesOf(ops) <==> RouteReplace(r) in ops
    ensures forall n :: n in NeighsOf(ops) <==> NeighSet(n) in ops
  {
    if ops != [] {
      assert ops == ops[..|ops| - 1] + [ops[|ops| - 1]];
      CurrentLists(ops[..|ops| - 1]);
    }
  }

  lemma {:induction false} RemovedRoutesAre(previous: seq<Route>, current: seq<Route>)
    ensures forall r :: r in RemovedRoutes(previous, current) <==> r in previous && r !in current
  {
    if previous != [] {
      assert previous == previous[..|previous| - 1] + [previous[|previous| - 1]];
      RemovedRoutesAre(previous[..|previous| - 1], current);
    }
  }

  lemma {:induction false} RemovedNeighsAre(previous: seq<Neigh>, current: seq<Neigh>)
    ensures forall n :: n in RemovedNeighs(previous, current) <==> n in previous && !EqualsOne(n, current)
  {
    hide EqualsOne;
    if previous != [] {
      assert previous == previous[..|previous| - 1] + [previous[|previous| - 1]];
      RemovedNeighsAre(previous[..|previous| - 1], current);
    }
  }

  lemma {:induction false} RouteDelsAre(c: Conf, removed: seq<Route>)
    ensures forall op :: op in RouteDels(c, removed) <==> op.RouteDel? && op.route in removed && IsManaged(c, op.route)
  {
    hide IsManaged;
    if removed != [] {
      assert removed == removed[..|removed| - 1] + [removed[|removed| - 1]];
      RouteDelsAre(c, removed[..|removed| - 1]);
    }
  }

  lemma {:induction false} NeighDelsAre(c: Conf, removed: seq<Neigh>)
    ensures forall op :: op in NeighDels(c, removed) <==> op.NeighDel? && op.neigh in removed && op.neigh.link == c.link
  {
    if removed != [] {
      assert removed == removed[..|removed| - 1] + [removed[|removed| - 1]];
      NeighDelsAre(c, removed[..|removed| - 1]);
    }
  }

  /** Some planned neighbour, ARP or FDB, looks the same as n when the family is ignored. */
  ghost predicate LooksPlanned(n: Neigh, ops: seq<Op>) {
    exists m :: NeighSet(m) in ops && NeighEqual(n, m)
  }

  /** Deleted are exactly the listed managed routes that are not planned and the listed neighbours that look
      like no planned one. */
  lemma DeletedAre(c: Conf, routes: seq<Route>, neighs: seq<Neigh>, ops: seq<Op>)
    ensures forall op :: op in DeletePlan(c, routes, neighs, ops) <==>
      || (op.RouteDel? && op.route in routes && RouteReplace(op.route) !in ops && IsManaged(c, op.route))
      || (op.NeighDel? && op.neigh in neighs && op.neigh.link == c.link && !LooksPlanned(op.neigh, ops))
  {
    hide IsManaged, NeighEqual, RoutesOf, NeighsOf, RemovedRoutes, RemovedNeighs, RouteDels, NeighDels;
    CurrentLists(ops);
    var current := NeighsOf(ops);
    forall n ensures EqualsOne(n, current) <==> LooksPlanned(n, ops) {
      if EqualsOne(n, current) {
        var j :| 0 <= j < |current| && NeighEqual(n, current[j]);
        assert NeighSet(current[j]) in ops;
      }
      if LooksPlanned(n, ops) {
        var m :| NeighSet(m) in ops && NeighEqual(n, m);
        var j :| 0 <= j < |current| && current[j] == m;
      }
    }
    RemovedRoutesAre(routes, RoutesOf(ops));
    RemovedNeighsAre(neighs, current);
    RouteDelsAre(c, RemovedRoutes(routes, RoutesOf(ops)));
    NeighDelsAre(c, RemovedNeighs(neighs, current));
  }

  // ---------- the result ----------

  lemma EmptyIsKeyed(link: int)
    ensures Keyed(NO_ENTRIES, link)
  {
  }

  /** Installing overlays the desired entries; deleting then takes the listed stale ones away. */
  lemma ConvergedTables(c: Conf, k: Tables, k': Tables, leases: seq<Lease>, dels: seq<Op>)
    requires Keyed(k, c.link) && Converges(c, k, k', leases, dels)
    ensures k' == Without(Over(k, Desired(c, leases)), dels)
    ensures Keyed(k', c.link) && Keyed(Desired(c, leases), c.link) && Keyed(Over(k, Desired(c, leases)), c.link)
    ensures forall r :: RouteDel(r) in dels <==>
      r.dst in k.routes && k.routes[r.dst] == r && IsManaged(c, r) && RouteReplace(r) !in InstallPlan(c, leases).ops
    ensures forall n :: NeighDel(n) in dels <==>
      HasNeigh(k, n) && n.link == c.link && !LooksPlanned(n, InstallPlan(c, leases).ops)
  {
    hide LooksPlanned, InstallPlan, HasNeigh, Apply, Without, DeletePlan;
    var ops := InstallPlan(c, leases).ops;
    var routes, neighs :|
      && ListsRoutes(routes, k, c.link) && ListsNeighs(neighs, k)
      && InstallPlan(c, leases).ok
      && dels == DeletePlan(c, routes, neighs, ops)
      && k' == ApplyAll(k, ops + dels);
    PlannedInstalls(c, leases);
    DeletedAre(c, routes, neighs, ops);
    ApplyAllAppends(k, ops, dels);
    assert Over(k, NO_ENTRIES) == k;
    InstallingIsOverlay(k, NO_ENTRIES, ops, c.link);
    EmptyIsKeyed(c.link);
    InstallingKeepsKeys(NO_ENTRIES, ops, c.link);
    InstallingKeepsKeys(k, ops, c.link);
    forall i | 0 <= i < |dels| ensures Deletes(dels[i]) { assert dels[i] in dels; }
    DeletingFilters(ApplyAll(k, ops), dels, c.link);
  }

  /** A route that is none of the converger's business: on another device, or without a gateway in the overlay. */
  predicate Foreign(c: Conf, r: Route) {
    r.link != c.link || r.gw.None? || !c.overlay.Contains(r.gw.value)
  }

  lemma ForeignIsUnmanaged(c: Conf)
    ensures forall r :: Foreign(c, r) <==> !IsManaged(c, r)
  {
  }

  ghost function ForeignRoutes(c: Conf, k: Tables): map<Cidr, Route> {
    map d | d in k.routes && Foreign(c, k.routes[d]) :: k.routes[d]
  }

  /** ARP entries nobody asks for that look like a planned FDB entry: same address, MAC and state. */
  ghost function MistakenArp(c: Conf, k: Tables, leases: seq<Lease>): map<IP, Neigh> {
    map a | a in k.arp && a !in Desired(c, leases).arp && LooksPlanned(k.arp[a], InstallPlan(c, leases).ops) :: k.arp[a]
  }

  /** A successful convergence leaves exactly the desired routes over the foreign ones, exactly the desired FDB
      entries, and exactly the desired ARP entries besides those mistaken for FDB entries. */
  lemma ConvergenceIsExact(c: Conf, k: Tables, k': Tables, leases: seq<Lease>, dels: seq<Op>)
    requires Keyed(k, c.link) && Converges(c, k, k', leases, dels)
    ensures k'.routes == ForeignRoutes(c, k) + Desired(c, leases).routes
    ensures k'.fdb == Desired(c, leases).fdb
    ensures k'.arp == MistakenArp(c, k, leases) + Desired(c, leases).arp
  {
    hide *;
    RoutesAreExact(c, k, k', leases, dels);
    NeighsAreExact(c, k, k', leases, dels);
  }

  lemma RoutesAreExact(c: Conf, k: Tables, k': Tables, leases: seq<Lease>, dels: seq<Op>)
    requires Keyed(k, c.link) && Converges(c, k, k', leases, dels)
    ensures k'.routes == ForeignRoutes(c, k) + Desired(c, leases).routes
  {
    hide Converges, InstallPlan, Desired, IsManaged, Foreign, LooksPlanned, Keyed, HasNeigh;
    ConvergedTables(c, k, k', leases, dels);
    DesiredRoutesArePlanned(c, k, k', leases, dels);
    ForeignIsUnmanaged(c);
  }

  /** An old route that no lease asks for stays if and only if it is on another device, has no gateway, or has one
      outside the overlay network. */
  lemma StaleRouteStaysIff(c: Conf, k: Tables, k': Tables, leases: seq<Lease>, dels: seq<Op>, d: Cidr)
    requires Keyed(k, c.link) && Converges(c, k, k', leases, dels)
    requires d in k.routes && d !in Desired(c, leases).routes
    ensures d in k'.routes <==>
      k.routes[d].link != c.link || k.routes[d].gw.None? || !c.overlay.Contains(k.routes[d].gw.value)
    ensures d in k'.routes ==> k'.routes[d] == k.routes[d]
  {
    hide Converges, InstallPlan, Desired, Keyed, Shl, Shr;
    RoutesAreExact(c, k, k', leases, dels);
  }

  lemma NeighsAreExact(c: Conf, k: Tables, k': Tables, leases: seq<Lease>, dels: seq<Op>)
    requires Keyed(k, c.link) && Converges(c, k, k', leases, dels)
    ensures k'.fdb == Desired(c, leases).fdb
    ensures k'.arp == MistakenArp(c, k, leases) + Desired(c, leases).arp
  {
    hide Converges, InstallPlan, Desired, IsManaged, LooksPlanned, Keyed, HasNeigh;
    ConvergedTables(c, k, k', leases, dels);
    DesiredArpIsPlanned(c, k, k', leases, dels);
    DesiredFdbIsPlanned(c, k, k', leases, dels);
    assert k'.fdb == Desired(c, leases).fdb;
  }

  /** The ARP table ends up as desired exactly when no unwanted ARP entry looks like a planned FDB entry. */
  lemma ArpIsExactIff(c: Conf, k: Tables, k': Tables, leases: seq<Lease>, dels: seq<Op>)
    requires Keyed(k, c.link) && Converges(c, k, k', leases, dels)
    ensures k'.arp == Desired(c, leases).arp <==>
      forall a :: a in k.arp && a !in Desired(c, leases).arp ==> !LooksPlanned(k.arp[a], InstallPlan(c, leases).ops)
  {
    hide Converges, InstallPlan, Desired, LooksPlanned, Keyed;
    NeighsAreExact(c, k, k', leases, dels);
    if a :| a in k.arp && a !in Desired(c, leases).arp && LooksPlanned(k.arp[a], InstallPlan(c, leases).ops) {
      assert a in k'.arp;
    }
  }

  /** In particular when no underlay address of a lease is an address of the ARP table. */
  lemma ArpIsExactApartFromUnderlay(c: Conf, k: Tables, k': Tables, leases: seq<Lease>, dels: seq<Op>)
    requires Keyed(k, c.link) && Converges(c, k, k', leases, dels)
    requires forall i :: 0 <= i < |leases| && ParseIP(leases[i].underlayIP).Some? ==>
      ParseIP(leases[i].underlayIP).value !in k.arp
    ensures k'.arp == Desired(c, leases).arp
  {
    hide Converges, InstallPlan, ParseIP, Apply, ApplyAll;
    ArpIsExactIff(c, k, k', leases, dels);
    var ops := InstallPlan(c, leases).ops;
    ConvergesPlans(c, k, k', leases, dels);
    PlannedInstalls(c, leases);
    InstalledArp(NO_ENTRIES, ops, c.link);
    forall n | NeighSet(n) in ops && n.bridge ensures n.ip.value !in k.arp {
      PlannedFdb(c, leases, n);
    }
  }

  lemma {:induction false} PlannedFdb(c: Conf, leases: seq<Lease>, n: Neigh)
    requires NeighSet(n) in InstallPlan(c, leases).ops && n.bridge
    ensures exists i ::
      0 <= i < |leases| && ParseIP(leases[i].underlayIP).Some? && n.ip == Some(ParseIP(leases[i].underlayIP).value)
  {
    hide ParseCidr, ParseIP, ParseMac;
    var front, l := leases[..|leases| - 1], leases[|leases| - 1];
    if NeighSet(n) in InstallPlan(c, front).ops {
      PlannedFdb(c, front, n);
    } else {
      assert NeighSet(n) in LeasePlan(c, l).ops;
    }
  }

  /** And it does go wrong otherwise: an ARP entry left from an old lease whose address is the underlay address
      of a new one, with the new one's hardware address, is never deleted. */
  lemma MistakenEntrySurvives(c: Conf, dest: Cidr, u: Addr, m: Mac, k': Tables, dels: seq<Op>)
    requires Routable(c, dest) && u != dest.addr
    requires Converges(c, NO_ENTRIES.(arp := map[V4(u) := ArpFor(c, u, m)]), k',
                       [Lease(PrintIP(u), PrintCidr(dest), PrintMac(m))], dels)
    ensures V4(u) in k'.arp && V4(u) !in Desired(c, [Lease(PrintIP(u), PrintCidr(dest), PrintMac(m))]).arp
  {
    hide *;
    var k := NO_ENTRIES.(arp := map[V4(u) := ArpFor(c, u, m)]);
    var l := Lease(PrintIP(u), PrintCidr(dest), PrintMac(m));
    KeyedAlone(c, u, m);
    OneLeasePlan(c, dest, u, m);
    MistakenAlone(c, RouteFor(c, dest), dest.addr, u, m, [l]);
    NeighsAreExact(c, k, k', [l], dels);
  }

  lemma KeyedAlone(c: Conf, u: Addr, m: Mac)
    ensures Keyed(NO_ENTRIES.(arp := map[V4(u) := ArpFor(c, u, m)]), c.link)
  {
  }

  lemma MistakenAlone(c: Conf, r: Route, a: Addr, u: Addr, m: Mac, leases: seq<Lease>)
    requires a != u
    requires InstallPlan(c, leases) ==
      Plan([RouteReplace(r), NeighSet(ArpFor(c, a, m)), NeighSet(FdbFor(c, V4(u), m))], true)
    ensures V4(u) !in Desired(c, leases).arp
    ensures V4(u) in MistakenArp(c, NO_ENTRIES.(arp := map[V4(u) := ArpFor(c, u, m)]), leases)
  {
    hide Apply, ApplyAll, InstallPlan, NeighEqual;
    var ops := InstallPlan(c, leases).ops;
    assert V4(u) !in Desired(c, leases).arp by {
      assert AllInstall(ops, c.link) by { PlannedInstalls(c, leases); }
      InstalledArp(NO_ENTRIES, ops, c.link);
    }
    assert LooksPlanned(ArpFor(c, u, m), ops) by {
      LooksAlike(c, u, m);
      assert NeighSet(FdbFor(c, V4(u), m)) in ops;
    }
    hide LooksPlanned, Desired;
  }

  lemma LooksAlike(c: Conf, u: Addr, m: Mac)
    ensures NeighEqual(ArpFor(c, u, m), FdbFor(c, V4(u), m))
  {
  }

  lemma OneLeasePlan(c: Conf, dest: Cidr, u: Addr, m: Mac)
    requires Routable(c, dest)
    ensures InstallPlan(c, [Lease(PrintIP(u), PrintCidr(dest), PrintMac(m))]) ==
      Plan([RouteReplace(RouteFor(c, dest)), NeighSet(ArpFor(c, dest.addr, m)), NeighSet(FdbFor(c, V4(u), m))], true)
  {
    hide ParseCidr, ParseIP, ParseMac, PrintCidr, PrintIP, PrintMac, Routable;
    var l := Lease(PrintIP(u), PrintCidr(dest), PrintMac(m));
    AddressHasTwoTexts(u);
    CidrRoundTrip(dest);
    MacRoundTrip(m);
    assert [l][..0] == [];
    assert InstallPlan(c, []) == Plan([], true);
    assert [] + LeasePlan(c, l).ops == LeasePlan(c, l).ops;
  }

  lemma DesiredRoutesArePlanned(c: Conf, k: Tables, k': Tables, leases: seq<Lease>, dels: seq<Op>)
    requires Keyed(k, c.link) && Converges(c, k, k', leases, dels)
    ensures forall d :: d in Desired(c, leases).routes ==> RouteDel(Desired(c, leases).routes[d]) !in dels
    ensures forall d :: d in k.routes && d !in Desired(c, leases).routes ==>
      (RouteDel(k.routes[d]) in dels <==> IsManaged(c, k.routes[d]))
  {
    hide IsManaged, LooksPlanned, InstallPlan, Apply, Without, HasNeigh, Keyed;
    ConvergedTables(c, k, k', leases, dels);
    PlannedInstalls(c, leases);
    InstalledRoutes(NO_ENTRIES, InstallPlan(c, leases).ops, c.link);
    KeyedRoutes(k, c.link);
  }

  lemma KeyedRoutes(k: Tables, link: int)
    requires Keyed(k, link)
    ensures forall d :: d in k.routes ==> k.routes[d].dst == d
  {
  }

  /** The neighbours a convergence deletes are entries of the device that look like no planned one. */
  lemma DeletedNeighs(c: Conf, k: Tables, k': Tables, leases: seq<Lease>, dels: seq<Op>, n: Neigh)
    requires Keyed(k, c.link) && Converges(c, k, k', leases, dels)
    ensures NeighSet(n) in InstallPlan(c, leases).ops ==> NeighDel(n) !in dels
    ensures n.ip.Some? && n.ip.value in k.arp && k.arp[n.ip.value] == n ==>
      (NeighDel(n) in dels <==> !LooksPlanned(n, InstallPlan(c, leases).ops))
    ensures n.mac.Some? && n.mac.value in k.fdb && k.fdb[n.mac.value] == n ==>
      (NeighDel(n) in dels <==> !LooksPlanned(n, InstallPlan(c, leases).ops))
  {
    hide InstallPlan, Desired, Converges, Without, Over, LooksPlanned;
    ConvergedTables(c, k, k', leases, dels);
    if NeighSet(n) in InstallPlan(c, leases).ops {
      PlannedLooksPlanned(n, InstallPlan(c, leases).ops);
    }
  }

  lemma PlannedLooksPlanned(n: Neigh, ops: seq<Op>)
    requires NeighSet(n) in ops
    ensures LooksPlanned(n, ops)
  {
    assert NeighEqual(n, n);
  }

  lemma DesiredArpIsPlanned(c: Conf, k: Tables, k': Tables, leases: seq<Lease>, dels: seq<Op>)
    requires Keyed(k, c.link) && Converges(c, k, k', leases, dels)
    ensures var d := Desired(c, leases);
      && (forall a :: a in d.arp ==> NeighDel(d.arp[a]) !in dels)
      && (forall a :: a in k.arp && a !in d.arp ==>
            (NeighDel(k.arp[a]) in dels <==> !LooksPlanned(k.arp[a], InstallPlan(c, leases).ops)))
  {
    hide InstallPlan, Apply, ApplyAll, Converges, LooksPlanned, Keyed;
    var ops, d := InstallPlan(c, leases).ops, Desired(c, leases);
    assert AllInstall(ops, c.link) by {
      ConvergesPlans(c, k, k', leases, dels);
      PlannedInstalls(c, leases);
    }
    InstalledArp(NO_ENTRIES, ops, c.link);
    KeyedArp(k, c.link);
    forall a | a in d.arp ensures NeighDel(d.arp[a]) !in dels {
      DeletedNeighs(c, k, k', leases, dels, d.arp[a]);
    }
    forall a | a in k.arp ensures NeighDel(k.arp[a]) in dels <==> !LooksPlanned(k.arp[a], ops) {
      DeletedNeighs(c, k, k', leases, dels, k.arp[a]);
    }
  }

  lemma KeyedArp(k: Tables, link: int)
    requires Keyed(k, link)
    ensures forall a :: a in k.arp ==> k.arp[a].ip == Some(a)
  {
  }

  lemma KeyedFdb(k: Tables, link: int)
    requires Keyed(k, link)
    ensures forall m :: m in k.fdb ==> k.fdb[m].mac == Some(m)
  {
  }

  lemma DesiredFdbIsPlanned(c: Conf, k: Tables, k': Tables, leases: seq<Lease>, dels: seq<Op>)
    requires Keyed(k, c.link) && Converges(c, k, k', leases, dels)
    ensures var d := Desired(c, leases);
      && (forall m :: m in d.fdb ==> NeighDel(d.fdb[m]) !in dels)
      && (forall m :: m in k.fdb && m !in d.fdb ==> NeighDel(k.fdb[m]) in dels)
  {
    hide InstallPlan, Apply, ApplyAll, Converges, LooksPlanned, Keyed;
    var ops, d := InstallPlan(c, leases).ops, Desired(c, leases);
    assert InstallPlan(c, leases).ok by { ConvergesPlans(c, k, k', leases, dels); }
    assert AllInstall(ops, c.link) by { PlannedInstalls(c, leases); }
    InstalledFdb(NO_ENTRIES, ops, c.link);
    KeyedFdb(k, c.link);
    forall m | m in d.fdb ensures NeighDel(d.fdb[m]) !in dels {
      DeletedNeighs(c, k, k', leases, dels, d.fdb[m]);
    }
    forall m | m in k.fdb && m !in d.fdb ensures NeighDel(k.fdb[m]) in dels {
      UnplannedMac(c, leases, k.fdb[m], m);
      DeletedNeighs(c, k, k', leases, dels, k.fdb[m]);
    }
  }

  /** An entry whose hardware address keys no planned FDB entry looks like no planned neighbour. */
  lemma UnplannedMac(c: Conf, leases: seq<Lease>, n: Neigh, m: Mac)
    requires InstallPlan(c, leases).ok && n.mac == Some(m)
    requires forall f :: NeighSet(f) in InstallPlan(c, leases).ops && f.bridge ==> f.mac != Some(m)
    ensures !LooksPlanned(n, InstallPlan(c, leases).ops)
  {
    hide InstallPlan;
    PlannedInstalls(c, leases);
  }

  lemma ConvergesPlans(c: Conf, k: Tables, k': Tables, leases: seq<Lease>, dels: seq<Op>)
    requires Converges(c, k, k', leases, dels)
    ensures InstallPlan(c, leases).ok
  {
  }

  // ---------- repeating a convergence ----------

  /** A convergence that follows a successful one with the same leases deletes nothing and changes nothing. */
  lemma ConvergenceIsIdempotent(c: Conf, k: Tables, k1: Tables, k2: Tables, leases: seq<Lease>, dels1: seq<Op>,
                                dels2: seq<Op>)
    requires Keyed(k, c.link) && Converges(c, k, k1, leases, dels1) && Converges(c, k1, k2, leases, dels2)
    ensures dels2 == [] && k2 == k1
  {
    hide Converges, InstallPlan, Desired, Keyed, LooksPlanned, HasNeigh, IsManaged, Without, Over;
    ConvergedTables(c, k, k1, leases, dels1);
    ConvergedTables(c, k1, k2, leases, dels2);
    if dels2 != [] {
      OnlyDeletions(c, k1, k2, leases, dels2, dels2[0]);
      match dels2[0]
      case RouteDel(r) => RepeatKeepsRoute(c, k, k1, k2, leases, dels1, dels2, r);
      case NeighDel(n) => RepeatKeepsNeigh(c, k, k1, k2, leases, dels1, dels2, n);
    }
    RoutesAreExact(c, k, k1, leases, dels1);
    NeighsAreExact(c, k, k1, leases, dels1);
    NothingToAdd(k1, Desired(c, leases));
  }

  lemma NothingToAdd(k: Tables, d: Tables)
    requires forall x :: x in d.routes ==> x in k.routes && k.routes[x] == d.routes[x]
    requires forall x :: x in d.arp ==> x in k.arp && k.arp[x] == d.arp[x]
    requires forall x :: x in d.fdb ==> x in k.fdb && k.fdb[x] == d.fdb[x]
    ensures Without(Over(k, d), []) == k
  {
    var w := Without(Over(k, d), []);
    assert w.routes == k.routes;
    assert w.arp == k.arp;
    assert w.fdb == k.fdb;
  }

  lemma RepeatKeepsRoute(c: Conf, k: Tables, k1: Tables, k2: Tables, leases: seq<Lease>, dels1: seq<Op>,
                         dels2: seq<Op>, r: Route)
    requires Keyed(k, c.link) && Converges(c, k, k1, leases, dels1) && Keyed(k1, c.link)
             && Converges(c, k1, k2, leases, dels2)
    ensures RouteDel(r) !in dels2
  {
    hide Converges, InstallPlan, Desired, Keyed, LooksPlanned, HasNeigh, IsManaged, Foreign, Without;
    ConvergedTables(c, k1, k2, leases, dels2);
    RoutesAreExact(c, k, k1, leases, dels1);
    ForeignIsUnmanaged(c);
    DesiredRoutesArePlanned(c, k1, k2, leases, dels2);
  }

  lemma RepeatKeepsNeigh(c: Conf, k: Tables, k1: Tables, k2: Tables, leases: seq<Lease>, dels1: seq<Op>,
                         dels2: seq<Op>, n: Neigh)
    requires Keyed(k, c.link) && Converges(c, k, k1, leases, dels1) && Keyed(k1, c.link)
             && Converges(c, k1, k2, leases, dels2)
    ensures NeighDel(n) !in dels2
  {
    hide Converges, InstallPlan, Desired, Keyed, LooksPlanned, IsManaged, Without;
    ConvergedTables(c, k1, k2, leases, dels2);
    NeighsAreExact(c, k, k1, leases, dels1);
    DesiredArpIsPlanned(c, k1, k2, leases, dels2);
    DesiredFdbIsPlanned(c, k1, k2, leases, dels2);
  }

  lemma OnlyDeletions(c: Conf, k: Tables, k': Tables, leases: seq<Lease>, dels: seq<Op>, op: Op)
    requires Converges(c, k, k', leases, dels) && op in dels
    ensures Deletes(op)
  {
    hide InstallPlan, DeletePlan, ApplyAll, LooksPlanned, IsManaged, ListsRoutes, ListsNeighs;
    var routes, neighs :|
      && ListsRoutes(routes, k, c.link) && ListsNeighs(neighs, k)
      && InstallPlan(c, leases).ok
      && dels == DeletePlan(c, routes, neighs, InstallPlan(c, leases).ops)
      && k' == ApplyAll(k, InstallPlan(c, leases).ops + dels);
    DeletedAre(c, routes, neighs, InstallPlan(c, leases).ops);
  }
}
