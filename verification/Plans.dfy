/** What a convergence plans, entry by entry, and when it gives up. */
module Plans {
  import opened Wrappers
  import opened Addressing
  import opened Text
  import opened IPText
  import opened LeaseTable
  import opened Kernel
  import opened Converger
  import opened Convergence
  import opened Forwarding

  /** A lease that names the block of another host inside the overlay network, and that host. */
  ghost predicate Remote(c: Conf, l: Lease, dest: Cidr, u: IP, m: Mac) {
    && ParseCidr(l.overlaySubnet) == Some(dest) && ParseIP(l.underlayIP) == Some(u)
    && ParseMac(l.hardwareAddr) == Some(m)
    && dest.Network() != c.local && c.overlay.Contains(dest.Base())
  }

  /** The three entries of a remote lease, field by field: the route to its network through its address with the local
      base address as source, the permanent ARP entry of that address, and the permanent FDB entry of its host. */
  predicate EntryOf(c: Conf, dest: Cidr, u: IP, m: Mac, op: Op) {
    || op == RouteReplace(Route(c.link, 0, dest.Network(), Some(dest.addr), Some(c.local.Base())))
    || op == NeighSet(Neigh(c.link, 0x80, Some(V4(dest.addr)), Some(m), false))
    || op == NeighSet(Neigh(c.link, 0x80, Some(u), Some(m), true))
  }

  lemma RemoteAsks(c: Conf, l: Lease, dest: Cidr, u: IP, m: Mac)
    ensures Remote(c, l, dest, u, m) <==> AsksFor(c, l, dest, u, m)
  {
    hide ParseCidr, ParseIP, ParseMac, Shl, Shr;
  }

  /** A plan that runs to its end consists of exactly the entries of the remote leases. */
  lemma PlannedExactly(c: Conf, leases: seq<Lease>, op: Op)
    requires InstallPlan(c, leases).ok
    ensures op in InstallPlan(c, leases).ops <==>
      exists i, dest, u, m :: 0 <= i < |leases| && Remote(c, leases[i], dest, u, m) && EntryOf(c, dest, u, m, op)
  {
    hide ParseCidr, ParseIP, ParseMac, InstallPlan, Remote, AsksFor;
    if op in InstallPlan(c, leases).ops {
      var i, dest, u, m := PlannedIsAsked(c, leases, op);
      RemoteAsks(c, leases[i], dest, u, m);
      assert EntryOf(c, dest, u, m, op);
    }
    forall i, dest, u, m | 0 <= i < |leases| && Remote(c, leases[i], dest, u, m) && EntryOf(c, dest, u, m, op)
      ensures op in InstallPlan(c, leases).ops
    {
      RemoteIsPlanned(c, leases, i, dest, u, m, op);
    }
  }

  lemma RemoteIsPlanned(c: Conf, leases: seq<Lease>, i: nat, dest: Cidr, u: IP, m: Mac, op: Op)
    requires InstallPlan(c, leases).ok && i < |leases|
    requires Remote(c, leases[i], dest, u, m) && EntryOf(c, dest, u, m, op)
    ensures op in InstallPlan(c, leases).ops
  {
    hide ParseCidr, ParseIP, ParseMac, InstallPlan, Shl, Shr;
    RemoteAsks(c, leases[i], dest, u, m);
    var u', m' := AskedIsPlanned(c, leases, i, dest);
    assert u' == u && m' == m;
  }

  /** What a convergence is for: there is a route to a network, an ARP entry for an address and an FDB entry for a
      hardware address exactly if a remote lease has it, and each entry is one that a remote lease asks for. */
  lemma DesiredExactly(c: Conf, leases: seq<Lease>, d: Cidr, a: IP, h: Mac)
    requires InstallPlan(c, leases).ok
    ensures d in Desired(c, leases).routes <==>
      exists i, dest, u, m :: 0 <= i < |leases| && Remote(c, leases[i], dest, u, m) && dest.Network() == d
    ensures a in Desired(c, leases).arp <==>
      exists i, dest, u, m :: 0 <= i < |leases| && Remote(c, leases[i], dest, u, m) && V4(dest.addr) == a
    ensures h in Desired(c, leases).fdb <==>
      exists i, dest, u :: 0 <= i < |leases| && Remote(c, leases[i], dest, u, h)
    ensures var t := Desired(c, leases);
      && (d in t.routes ==> t.routes[d].dst == d && Wanted(c, leases, RouteReplace(t.routes[d])))
      && (a in t.arp ==> !t.arp[a].bridge && t.arp[a].ip == Some(a) && Wanted(c, leases, NeighSet(t.arp[a])))
      && (h in t.fdb ==> t.fdb[h].bridge && t.fdb[h].mac == Some(h) && Wanted(c, leases, NeighSet(t.fdb[h])))
  {
    hide InstallPlan, Desired, Remote, Wanted;
    var t := Desired(c, leases);
    DesiredIsWanted(c, leases, d, a, h);
    forall i, dest, u, m | 0 <= i < |leases| && Remote(c, leases[i], dest, u, m)
      ensures dest.Network() in t.routes && V4(dest.addr) in t.arp && m in t.fdb
    {
      RemoteIsDesired(c, leases, i, dest, u, m);
    }
    if d in t.routes {
      var i, dest, u, m := WantedComesFrom(c, leases, RouteReplace(t.routes[d]));
    }
    if a in t.arp {
      var i, dest, u, m := WantedComesFrom(c, leases, NeighSet(t.arp[a]));
    }
    if h in t.fdb {
      var i, dest, u, m := WantedComesFrom(c, leases, NeighSet(t.fdb[h]));
    }
  }

  lemma DesiredIsWanted(c: Conf, leases: seq<Lease>, d: Cidr, a: IP, h: Mac)
    requires InstallPlan(c, leases).ok
    ensures var t := Desired(c, leases);
      && (d in t.routes ==> t.routes[d].dst == d && Wanted(c, leases, RouteReplace(t.routes[d])))
      && (a in t.arp ==> !t.arp[a].bridge && t.arp[a].ip == Some(a) && Wanted(c, leases, NeighSet(t.arp[a])))
      && (h in t.fdb ==> t.fdb[h].bridge && t.fdb[h].mac == Some(h) && Wanted(c, leases, NeighSet(t.fdb[h])))
  {
    hide InstallPlan, Apply, ApplyAll, Wanted;
    var ops, t := InstallPlan(c, leases).ops, Desired(c, leases);
    assert AllInstall(ops, c.link) by { PlannedInstalls(c, leases); }
    InstalledRoutes(NO_ENTRIES, ops, c.link);
    InstalledArp(NO_ENTRIES, ops, c.link);
    InstalledFdb(NO_ENTRIES, ops, c.link);
    if d in t.routes { PlannedIsWanted(c, leases, RouteReplace(t.routes[d])); }
    if a in t.arp { PlannedIsWanted(c, leases, NeighSet(t.arp[a])); }
    if h in t.fdb { PlannedIsWanted(c, leases, NeighSet(t.fdb[h])); }
  }

  /** Some remote lease asks for the operation. */
  ghost predicate Wanted(c: Conf, leases: seq<Lease>, op: Op) {
    exists i, dest, u, m :: 0 <= i < |leases| && Remote(c, leases[i], dest, u, m) && EntryOf(c, dest, u, m, op)
  }

  lemma PlannedIsWanted(c: Conf, leases: seq<Lease>, op: Op)
    requires InstallPlan(c, leases).ok && op in InstallPlan(c, leases).ops
    ensures Wanted(c, leases, op)
  {
    hide InstallPlan, Remote, EntryOf;
    PlannedExactly(c, leases, op);
  }

  lemma WantedComesFrom(c: Conf, leases: seq<Lease>, op: Op) returns (i: nat, dest: Cidr, u: IP, m: Mac)
    requires Wanted(c, leases, op)
    ensures i < |leases| && Remote(c, leases[i], dest, u, m)
    ensures op.RouteReplace? ==> op.route.dst == dest.Network()
    ensures op.NeighSet? ==> op.neigh.mac == Some(m)
    ensures op.NeighSet? && !op.neigh.bridge ==> op.neigh.ip == Some(V4(dest.addr))
  {
    hide Remote;
    i, dest, u, m :| 0 <= i < |leases| && Remote(c, leases[i], dest, u, m) && EntryOf(c, dest, u, m, op);
  }

  lemma RemoteIsDesired(c: Conf, leases: seq<Lease>, i: nat, dest: Cidr, u: IP, m: Mac)
    requires InstallPlan(c, leases).ok && i < |leases| && Remote(c, leases[i], dest, u, m)
    ensures dest.Network() in Desired(c, leases).routes && V4(dest.addr) in Desired(c, leases).arp
    ensures m in Desired(c, leases).fdb
  {
    hide InstallPlan, Apply, ApplyAll, Remote;
    var ops := InstallPlan(c, leases).ops;
    assert AllInstall(ops, c.link) by { PlannedInstalls(c, leases); }
    InstalledRoutes(NO_ENTRIES, ops, c.link);
    InstalledArp(NO_ENTRIES, ops, c.link);
    InstalledFdb(NO_ENTRIES, ops, c.link);
    var r := Route(c.link, 0, dest.Network(), Some(dest.addr), Some(c.local.Base()));
    var arp := Neigh(c.link, 0x80, Some(V4(dest.addr)), Some(m), false);
    var fdb := Neigh(c.link, 0x80, Some(u), Some(m), true);
    RemoteIsPlanned(c, leases, i, dest, u, m, RouteReplace(r));
    RemoteIsPlanned(c, leases, i, dest, u, m, NeighSet(arp));
    RemoteIsPlanned(c, leases, i, dest, u, m, NeighSet(fdb));
  }

  // ---------- leases that are passed over ----------

  /** A lease of the host's own network, or of a network outside the overlay. */
  ghost predicate Elsewhere(c: Conf, l: Lease) {
    exists dest ::
      ParseCidr(l.overlaySubnet) == Some(dest) && (dest.Network() == c.local || !c.overlay.Contains(dest.Base()))
  }

  lemma ElsewherePlansNothing(c: Conf, l: Lease)
    requires Elsewhere(c, l)
    ensures LeasePlan(c, l) == Plan([], true)
  {
    hide ParseCidr, ParseIP, ParseMac, Shl, Shr;
  }

  /** The local lease and the leases outside the overlay might as well not be listed: no operation comes from them, and
      they do not stop the others, whatever else they say. */
  lemma {:induction false} ElsewhereIsIgnored(c: Conf, leases: seq<Lease>, i: nat)
    requires i < |leases| && Elsewhere(c, leases[i])
    ensures InstallPlan(c, leases) == InstallPlan(c, leases[..i] + leases[i + 1..])
    decreases |leases|
  {
    hide Elsewhere, LeasePlan;
    var n := |leases| - 1;
    var rest := leases[..i] + leases[i + 1..];
    if i == n {
      assert rest == leases[..n];
      ElsewherePlansNothing(c, leases[n]);
      assert InstallPlan(c, rest).ops + [] == InstallPlan(c, rest).ops;
    } else {
      assert leases[..n][i] == leases[i];
      ElsewhereIsIgnored(c, leases[..n], i);
      assert rest[..n - 1] == leases[..n][..i] + leases[..n][i + 1..];
      assert rest[n - 1] == leases[n];
    }
  }

  // ---------- when a plan gives up ----------

  /** The IPv4 network of a subnet in IPv6 notation is routable, so the kernel is asked for a route it refuses. */
  ghost predicate MappedRoute(c: Conf, subnet: string) {
    exists a: Addr, len: nat ::
      && ParseCidr(subnet).None? && 96 <= len <= 128 && ParsePrefix(subnet) == Some((V4(a), len))
      && Cidr(a, len - 96).Network() != c.local && c.overlay.Contains(Cidr(a, len - 96).Base())
  }

  /** The lease stops the convergence: its subnet cannot be read or routed, or it is a remote block whose host cannot be
      read. */
  ghost predicate Stops(c: Conf, l: Lease) {
    || ParsePrefix(l.overlaySubnet).None?
    || MappedRoute(c, l.overlaySubnet)
    || (ParseCidr(l.overlaySubnet).Some? && !Elsewhere(c, l)
        && (ParseIP(l.underlayIP).None? || ParseMac(l.hardwareAddr).None?))
  }

  lemma LeasePlanRunsIff(c: Conf, l: Lease)
    ensures LeasePlan(c, l).ok <==> !Stops(c, l)
  {
    hide ParseCidr, ParseIP, ParseMac, ParsePrefix, Shl, Shr;
    if ParseCidr(l.overlaySubnet).Some? {
      DottedPrefix(l.overlaySubnet);
    } else {
      MappedIff(c, l.overlaySubnet);
    }
  }

  lemma MappedIff(c: Conf, subnet: string)
    ensures MappedRoute(c, subnet) <==> MappedNetwork(subnet).Some? && Routable(c, MappedNetwork(subnet).value)
  {
    hide ParseCidr, ParsePrefix, Shl, Shr;
    var n := MappedNetwork(subnet);
    if n.Some? && Routable(c, n.value) {
      assert ParsePrefix(subnet) == Some((V4(n.value.addr), n.value.len + 96));
    }
  }

  /** A convergence gives up exactly if some lease stops it. */
  lemma {:induction false} PlanRunsIff(c: Conf, leases: seq<Lease>)
    ensures InstallPlan(c, leases).ok <==> forall i :: 0 <= i < |leases| ==> !Stops(c, leases[i])
  {
    hide Stops, LeasePlan;
    if leases != [] {
      var n := |leases| - 1;
      PlanRunsIff(c, leases[..n]);
      LeasePlanRunsIff(c, leases[n]);
      assert forall i :: 0 <= i < n ==> leases[..n][i] == leases[i];
    }
  }

  // ---------- ARP entries that are not deleted ----------

  /** An ARP entry that no lease asks for stays exactly if it is permanent and its address and hardware address are the
      underlay address and the hardware address of one remote lease: the comparison ignores the family. */
  lemma StaleArpStaysIff(c: Conf, k: Tables, k': Tables, leases: seq<Lease>, dels: seq<Op>, a: IP)
    requires Keyed(k, c.link) && Converges(c, k, k', leases, dels)
    requires a in k.arp && a !in Desired(c, leases).arp
    ensures a in k'.arp <==>
      && k.arp[a].state == 0x80
      && exists i, dest, m :: 0 <= i < |leases| && Remote(c, leases[i], dest, a, m) && k.arp[a].mac == Some(m)
  {
    hide ParseCidr, ParseIP, ParseMac, InstallPlan, Converges, Desired, LooksPlanned, Apply, Remote;
    assert InstallPlan(c, leases).ok by { ConvergesPlans(c, k, k', leases, dels); }
    NeighsAreExact(c, k, k', leases, dels);
    StaleLooksPlannedIff(c, k, leases, a);
  }

  lemma StaleLooksPlannedIff(c: Conf, k: Tables, leases: seq<Lease>, a: IP)
    requires Keyed(k, c.link) && InstallPlan(c, leases).ok
    requires a in k.arp && a !in Desired(c, leases).arp
    ensures LooksPlanned(k.arp[a], InstallPlan(c, leases).ops) <==>
      && k.arp[a].state == 0x80
      && exists i, dest, m :: 0 <= i < |leases| && Remote(c, leases[i], dest, a, m) && k.arp[a].mac == Some(m)
  {
    hide ParseCidr, ParseIP, ParseMac, InstallPlan, Apply, ApplyAll, Remote;
    var ops, n := InstallPlan(c, leases).ops, k.arp[a];
    assert AllInstall(ops, c.link) by { PlannedInstalls(c, leases); }
    InstalledArp(NO_ENTRIES, ops, c.link);
    if LooksPlanned(n, ops) {
      var f :| NeighSet(f) in ops && NeighEqual(n, f);
      PlannedExactly(c, leases, NeighSet(f));
    }
    forall i, dest, m | 0 <= i < |leases| && Remote(c, leases[i], dest, a, m) && n.mac == Some(m) && n.state == 0x80
      ensures LooksPlanned(n, ops)
    {
      var f := Neigh(c.link, 0x80, Some(a), Some(m), true);
      RemoteIsPlanned(c, leases, i, dest, a, m, NeighSet(f));
      assert NeighEqual(n, f);
    }
  }
}
