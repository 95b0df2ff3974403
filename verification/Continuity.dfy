/** What stays in place while a convergence is under way, wherever it stops. */
module Continuity {
  import opened Wrappers
  import opened Text
  import opened IPText
  import opened LeaseTable
  import opened Kernel
  import opened Converger
  import opened Convergence

  // ---------- what the leases want ----------

  /** The installs of all leases, those after a lease that stops the convergence included. */
  function AllOps(c: Conf, leases: seq<Lease>): seq<Op> {
    if leases == [] then [] else AllOps(c, leases[..|leases| - 1]) + LeasePlan(c, leases[|leases| - 1]).ops
  }

  /** The entries all leases together ask for. */
  function Wanted(c: Conf, leases: seq<Lease>): Tables {
    ApplyAll(NO_ENTRIES, AllOps(c, leases))
  }

  lemma {:induction false} PlanIsReached(c: Conf, leases: seq<Lease>)
    ensures InstallPlan(c, leases).ops <= AllOps(c, leases)
    ensures InstallPlan(c, leases).ok ==> InstallPlan(c, leases).ops == AllOps(c, leases)
    ensures AllInstall(AllOps(c, leases), c.link)
  {
    hide ParseCidr, ParseIP, ParseMac, PassedOver, Routable;
    if leases != [] {
      PlanIsReached(c, leases[..|leases| - 1]);
    }
  }

  /** The entry an install puts in place is there. */
  ghost predicate InPlace(t: Tables, op: Op) {
    match op
    case RouteReplace(r) => r.dst in t.routes && t.routes[r.dst] == r
    case NeighSet(n) => HasNeigh(t, n)
    case _ => false
  }

  ghost predicate KeyInUse(t: Tables, op: Op) {
    match op
    case RouteReplace(r) => r.dst in t.routes
    case NeighSet(n) => if n.bridge then n.mac.Some? && n.mac.value in t.fdb else n.ip.Some? && n.ip.value in t.arp
    case _ => false
  }

  /** Every install that the convergence reaches is one whose entry the leases want in the end. */
  ghost predicate Settled(c: Conf, leases: seq<Lease>) {
    forall op :: op in InstallPlan(c, leases).ops ==> InPlace(Wanted(c, leases), op)
  }

  // ---------- make before break ----------

  /** Every entry of k that is also wanted is, unchanged, in t. */
  ghost predicate KeepsWanted<K, V>(k: map<K, V>, d: map<K, V>, t: map<K, V>) {
    forall x :: x in k && x in d && k[x] == d[x] ==> x in t && t[x] == k[x]
  }

  ghost predicate KeepsDesired(k: Tables, d: Tables, t: Tables) {
    KeepsWanted(k.routes, d.routes, t.routes) && KeepsWanted(k.arp, d.arp, t.arp) && KeepsWanted(k.fdb, d.fdb, t.fdb)
  }

  lemma InstallingKeepsDesired(k: Tables, d: Tables, some: seq<Op>, link: int)
    requires AllInstall(some, link) && forall op :: op in some ==> InPlace(d, op)
    ensures KeepsDesired(k, d, ApplyAll(k, some))
  {
    hide ApplyAll, Apply;
    var t := ApplyAll(k, some);
    InstalledRoutes(k, some, link);
    InstalledArp(k, some, link);
    InstalledFdb(k, some, link);
    forall x | x in k.routes && x in d.routes && k.routes[x] == d.routes[x]
      ensures x in t.routes && t.routes[x] == k.routes[x]
    {
      if RouteReplace(t.routes[x]) in some { assert InPlace(d, RouteReplace(t.routes[x])); }
    }
    forall x | x in k.arp && x in d.arp && k.arp[x] == d.arp[x] ensures x in t.arp && t.arp[x] == k.arp[x] {
      if NeighSet(t.arp[x]) in some { assert InPlace(d, NeighSet(t.arp[x])); }
    }
    forall x | x in k.fdb && x in d.fdb && k.fdb[x] == d.fdb[x] ensures x in t.fdb && t.fdb[x] == k.fdb[x] {
      if NeighSet(t.fdb[x]) in some { assert InPlace(d, NeighSet(t.fdb[x])); }
    }
  }

  /** Wherever Converge stops, at a failing call, at a lease it cannot read or at its end, every entry that was in place
      and that the leases want is in place unchanged, provided the installs it reaches are settled. */
  lemma MakeBeforeBreak(c: Conf, k: Tables, routes: seq<Route>, neighs: seq<Neigh>, leases: seq<Lease>, done: seq<Op>)
    requires Keyed(k, c.link) && Settled(c, leases)
    requires done <= ConvergePlan(c, routes, neighs, leases).ops
    ensures KeepsDesired(k, Wanted(c, leases), ApplyAll(k, done))
  {
    hide InstallPlan, AllOps, DeletePlan, InPlace, KeepsDesired, ApplyAll, Keyed;
    var ops := InstallPlan(c, leases).ops;
    PlanIsReached(c, leases);
    if |done| <= |ops| {
      assert done <= ops;
      assert forall op :: op in done ==> op in ops;
      assert AllInstall(done, c.link) && forall op :: op in done ==> InPlace(Wanted(c, leases), op);
      InstallingKeepsDesired(k, Wanted(c, leases), done, c.link);
    } else {
      var some := done[|ops|..];
      assert done == ops + some && some <= DeletePlan(c, routes, neighs, ops);
      DeletingKeepsDesired(c, k, routes, neighs, leases, some);
    }
  }

  /** Deletions that start after the installs end leave the desired entries alone. */
  lemma DeletingKeepsDesired(c: Conf, k: Tables, routes: seq<Route>, neighs: seq<Neigh>, leases: seq<Lease>,
                             some: seq<Op>)
    requires Keyed(k, c.link) && InstallPlan(c, leases).ok
    requires some <= DeletePlan(c, routes, neighs, InstallPlan(c, leases).ops)
    ensures KeepsDesired(k, Wanted(c, leases), ApplyAll(k, InstallPlan(c, leases).ops + some))
  {
    hide InstallPlan, AllOps, DeletePlan, Apply, ApplyAll, IsManaged, NeighEqual, Without, LooksPlanned, Keyed;
    var ops, dels := InstallPlan(c, leases).ops, DeletePlan(c, routes, neighs, InstallPlan(c, leases).ops);
    PlannedInstalls(c, leases);
    PlanIsReached(c, leases);
    DeletedAre(c, routes, neighs, ops);
    assert forall op :: op in some ==> op in dels;
    ApplyAllAppends(k, ops, some);
    assert Over(k, NO_ENTRIES) == k;
    InstallingIsOverlay(k, NO_ENTRIES, ops, c.link);
    InstallingKeepsKeys(k, ops, c.link);
    forall i | 0 <= i < |some| ensures Deletes(some[i]) { assert some[i] in dels; }
    DeletingFilters(ApplyAll(k, ops), some, c.link);
    DesiredSurvives(c, k, ops, some);
  }

  lemma DesiredSurvives(c: Conf, k: Tables, ops: seq<Op>, some: seq<Op>)
    requires AllInstall(ops, c.link)
    requires forall r :: RouteDel(r) in some ==> RouteReplace(r) !in ops
    requires forall n :: NeighDel(n) in some ==> !LooksPlanned(n, ops)
    ensures KeepsDesired(k, ApplyAll(NO_ENTRIES, ops), Without(Over(k, ApplyAll(NO_ENTRIES, ops)), some))
  {
    hide Apply, ApplyAll;
    forall n | NeighSet(n) in ops ensures NeighDel(n) !in some {
      assert NeighEqual(n, n);
    }
    hide LooksPlanned;
    InstalledRoutes(NO_ENTRIES, ops, c.link);
    InstalledArp(NO_ENTRIES, ops, c.link);
    InstalledFdb(NO_ENTRIES, ops, c.link);
    var d := ApplyAll(NO_ENTRIES, ops);
    var w := Without(Over(k, d), some);
    assert KeepsWanted(k.routes, d.routes, w.routes);
    assert KeepsWanted(k.arp, d.arp, w.arp);
    assert KeepsWanted(k.fdb, d.fdb, w.fdb);
  }

  // ---------- the provision is exact ----------

  lemma DisplacingLosesEntry(k: Tables, t: Tables, op: Op)
    requires InPlace(t, op) && !InPlace(k, op) && KeyInUse(k, op)
    ensures !KeepsDesired(k, k, t)
  {
  }

  lemma InstalledKeyIsInUse(k: Tables, ops: seq<Op>, op: Op, link: int)
    requires AllInstall(ops, link) && op in ops
    ensures KeyInUse(ApplyAll(k, ops), op)
  {
    hide Apply, ApplyAll;
    assert Installs(op, link);
    match op
    case RouteReplace(r) => InstalledRoutes(k, ops, link);
    case NeighSet(n) => if n.bridge { InstalledFdb(k, ops, link); } else { InstalledArp(k, ops, link); }
  }

  lemma InstalledIsInPlace(k: Tables, ops: seq<Op>, x: Op, link: int)
    requires Installs(x, link)
    ensures InPlace(ApplyAll(k, ops + [x]), x)
  {
    ApplyAllAppends(k, ops, [x]);
    assert ApplyAll(ApplyAll(k, ops), [x]) == Apply(ApplyAll(k, ops), x);
  }

  /** Without the provision, a convergence that finds everything as wanted takes an entry away for a while. */
  lemma UnsettledLeasesFlap(c: Conf, leases: seq<Lease>) returns (done: seq<Op>)
    requires !Settled(c, leases)
    ensures Keyed(Wanted(c, leases), c.link)
    ensures done <= InstallPlan(c, leases).ops
    ensures !KeepsDesired(Wanted(c, leases), Wanted(c, leases), ApplyAll(Wanted(c, leases), done))
  {
    hide InstallPlan, AllOps, Apply, ApplyAll, KeepsDesired, InPlace, KeyInUse, Keyed;
    var ops, all, d := InstallPlan(c, leases).ops, AllOps(c, leases), Wanted(c, leases);
    PlanIsReached(c, leases);
    EmptyIsKeyed(c.link);
    InstallingKeepsKeys(NO_ENTRIES, all, c.link);
    var x :| x in ops && !InPlace(d, x);
    var i :| 0 <= i < |ops| && ops[i] == x;
    done := ops[..i + 1];
    assert done == ops[..i] + [x] && x == all[i];
    InstalledIsInPlace(d, ops[..i], x, c.link);
    InstalledKeyIsInUse(NO_ENTRIES, all, x, c.link);
    DisplacingLosesEntry(d, ApplyAll(d, done), x);
  }

  /** Whatever the kernel holds and lists, and wherever Converge stops, wanted entries stay in place. */
  ghost predicate KeepsInPlace(c: Conf, leases: seq<Lease>) {
    forall k, routes, neighs, done ::
      Keyed(k, c.link) && done <= ConvergePlan(c, routes, neighs, leases).ops ==>
        KeepsDesired(k, Wanted(c, leases), ApplyAll(k, done))
  }

  /** So make before break holds for a list of leases if and only if the installs it reaches are settled. */
  lemma MakeBeforeBreakIff(c: Conf, leases: seq<Lease>)
    ensures KeepsInPlace(c, leases) <==> Settled(c, leases)
  {
    hide Settled, Keyed, KeepsDesired, ApplyAll, Wanted, ConvergePlan;
    if Settled(c, leases) {
      forall k, routes, neighs, done | Keyed(k, c.link) && done <= ConvergePlan(c, routes, neighs, leases).ops
        ensures KeepsDesired(k, Wanted(c, leases), ApplyAll(k, done))
      {
        MakeBeforeBreak(c, k, routes, neighs, leases, done);
      }
    } else {
      var done := UnsettledLeasesFlap(c, leases);
      assert done <= ConvergePlan(c, [], [], leases).ops by { InstallsComeFirst(c, leases); }
    }
  }

  lemma InstallsComeFirst(c: Conf, leases: seq<Lease>)
    ensures InstallPlan(c, leases).ops <= ConvergePlan(c, [], [], leases).ops
  {
  }

  // ---------- leases that do not contradict each other ----------

  /** Two installs go to the same place. */
  predicate SameKey(a: Op, b: Op) {
    || (a.RouteReplace? && b.RouteReplace? && a.route.dst == b.route.dst)
    || (a.NeighSet? && b.NeighSet? && a.neigh.bridge && b.neigh.bridge && a.neigh.mac == b.neigh.mac)
    || (a.NeighSet? && b.NeighSet? && !a.neigh.bridge && !b.neigh.bridge && a.neigh.ip == b.neigh.ip)
  }

  /** No two installs contradict each other. */
  ghost predicate NoConflict(ops: seq<Op>) {
    forall a, b :: a in ops && b in ops && SameKey(a, b) ==> a == b
  }

  lemma NotBothInPlace(t: Tables, a: Op, b: Op)
    requires SameKey(a, b) && a != b
    ensures !(InPlace(t, a) && InPlace(t, b))
  {
  }

  /** Leases that do not contradict each other are settled, even if some of them cannot be read; when all can be read,
      only those are. */
  lemma ConsistentLeasesAreSettled(c: Conf, leases: seq<Lease>)
    ensures NoConflict(AllOps(c, leases)) ==> Settled(c, leases)
    ensures InstallPlan(c, leases).ok && Settled(c, leases) ==> NoConflict(AllOps(c, leases))
  {
    hide InstallPlan, AllOps, Apply, ApplyAll, InPlace, SameKey;
    var all, d := AllOps(c, leases), Wanted(c, leases);
    PlanIsReached(c, leases);
    if NoConflict(all) {
      forall op | op in InstallPlan(c, leases).ops ensures InPlace(d, op) {
        assert op in all;
        ConsistentInstallStays(all, op, c.link);
      }
    }
    if InstallPlan(c, leases).ok && Settled(c, leases) {
      forall a, b | a in all && b in all && SameKey(a, b) ensures a == b {
        if a != b { NotBothInPlace(d, a, b); }
      }
    }
  }

  lemma ConsistentInstallStays(ops: seq<Op>, op: Op, link: int)
    requires AllInstall(ops, link) && NoConflict(ops) && op in ops
    ensures InPlace(ApplyAll(NO_ENTRIES, ops), op)
  {
    hide Apply, ApplyAll;
    var d := ApplyAll(NO_ENTRIES, ops);
    assert Installs(op, link);
    match op
    case RouteReplace(r) =>
      InstalledRoutes(NO_ENTRIES, ops, link);
      assert SameKey(op, RouteReplace(d.routes[r.dst]));
    case NeighSet(n) =>
      if n.bridge {
        InstalledFdb(NO_ENTRIES, ops, link);
        assert SameKey(op, NeighSet(d.fdb[n.mac.value]));
      } else {
        InstalledArp(NO_ENTRIES, ops, link);
        assert SameKey(op, NeighSet(d.arp[n.ip.value]));
      }
  }
}
