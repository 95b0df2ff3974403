/** Convergences one after the other on what the controllers hand out: no ARP entry is ever mistaken for an FDB
    entry. */
module ArpHistory {
  import opened Wrappers
  import opened Addressing
  import opened Text
  import opened IPText
  import opened HardwareAddr
  import opened CidrPool
  import opened LeaseTable
  import opened LeaseProtocol
  import opened Leasing
  import opened Kernel
  import opened Converger
  import opened Convergence
  import opened Forwarding
  import opened EndToEnd

  /** The leases are a listing of some table of pool leases. */
  ghost predicate HandedOut(cfg: Config, leases: seq<Lease>) {
    exists t, keys :: Healthy(cfg, t) && Lists(leases, t, keys)
  }

  /** One convergence, which may stop anywhere. */
  ghost predicate Round(cfg: Config, c: Conf, k: Tables, k': Tables, leases: seq<Lease>) {
    && HandedOut(cfg, leases)
    && exists routes, neighs, done ::
         done <= ConvergePlan(c, routes, neighs, leases).ops && k' == ApplyAll(k, done)
  }

  /** Convergences, each with its own leases, starting with no ARP entry but derived ones, perhaps with none. */
  ghost predicate History(cfg: Config, c: Conf, ks: seq<Tables>, lists: seq<seq<Lease>>) {
    && |ks| == |lists| + 1 && Keyed(ks[0], c.link) && DerivedArp(c, ks[0])
    && forall i :: 0 <= i < |lists| ==> Round(cfg, c, ks[i], ks[i + 1], lists[i])
  }

  /** The ARP entry of an address with the hardware address derived from it. */
  predicate IsDerived(c: Conf, n: Neigh) {
    n.ip.Some? && n.ip.value.V4? && n == ArpFor(c, n.ip.value.addr, VtepMac(n.ip.value.addr))
  }

  ghost predicate DerivedArp(c: Conf, k: Tables) {
    forall a :: a in k.arp ==> IsDerived(c, k.arp[a])
  }

  predicate KeepsDerived(c: Conf, op: Op) {
    Deletes(op) || (Installs(op, c.link) && (op.NeighSet? && !op.neigh.bridge ==> IsDerived(c, op.neigh)))
  }

  lemma OpKeepsDerived(c: Conf, k: Tables, op: Op)
    requires Keyed(k, c.link) && DerivedArp(c, k) && KeepsDerived(c, op)
    ensures Keyed(Apply(k, op), c.link) && DerivedArp(c, Apply(k, op))
  {
    hide IsDerived;
  }

  lemma {:induction false} OpsKeepDerived(c: Conf, k: Tables, ops: seq<Op>)
    requires Keyed(k, c.link) && DerivedArp(c, k) && forall i :: 0 <= i < |ops| ==> KeepsDerived(c, ops[i])
    ensures Keyed(ApplyAll(k, ops), c.link) && DerivedArp(c, ApplyAll(k, ops))
    decreases |ops|
  {
    hide KeepsDerived, Keyed, DerivedArp, Apply;
    if ops != [] {
      OpKeepsDerived(c, k, ops[0]);
      OpsKeepDerived(c, Apply(k, ops[0]), ops[1..]);
    }
  }

  /** What a lease that was handed out asks for: its subnet is written with its base address, and its hardware address
      is derived from that. */
  lemma HandedOutAsks(cfg: Config, net: Cidr, mask: PrefixLen, c: Conf, leases: seq<Lease>, i: nat, dest: Cidr, u: IP,
                      m: Mac)
    requires net.len <= mask && cfg.pool == MakePool(net, mask) && HandedOut(cfg, leases)
    requires i < |leases| && AsksFor(c, leases[i], dest, u, m)
    ensures dest.addr == dest.Base() && m == VtepMac(dest.addr)
  {
    hide ParseCidr, ParseIP, ParseMac, MakePool, HwAddrFor, Octets, Routable, Unique, PrintCidr, EndsInSlash32, Shl,
         Shr;
    var t: Table, keys :| Healthy(cfg, t) && Lists(leases, t, keys);
    var x := leases[i].underlayIP;
    assert x in t && leases[i] == LeaseOf(t, x);
    PoolLeaseCovers(cfg, net, mask, t[x].subnet, t[x].hwaddr);
    MemberParses(net, mask, t[x].subnet);
  }

  lemma HandedOutPlans(cfg: Config, net: Cidr, mask: PrefixLen, c: Conf, leases: seq<Lease>)
    requires net.len <= mask && cfg.pool == MakePool(net, mask) && HandedOut(cfg, leases)
    ensures InstallPlan(c, leases).ok
    ensures forall op :: op in InstallPlan(c, leases).ops ==> KeepsDerived(c, op)
  {
    hide InstallPlan, MakePool, Healthy, Lists, AsksFor, VtepMac;
    var t: Table, keys :| Healthy(cfg, t) && Lists(leases, t, keys);
    HealthyLeasesPlan(cfg, net, mask, t, keys, leases, c);
    forall op | op in InstallPlan(c, leases).ops ensures KeepsDerived(c, op) {
      var i, dest, u, m := PlannedIsAsked(c, leases, op);
      HandedOutAsks(cfg, net, mask, c, leases, i, dest, u, m);
    }
  }

  lemma RoundKeepsDerived(cfg: Config, net: Cidr, mask: PrefixLen, c: Conf, k: Tables, k': Tables, leases: seq<Lease>)
    requires net.len <= mask && cfg.pool == MakePool(net, mask)
    requires Keyed(k, c.link) && DerivedArp(c, k) && Round(cfg, c, k, k', leases)
    ensures Keyed(k', c.link) && DerivedArp(c, k')
  {
    hide InstallPlan, DeletePlan, HandedOut, ApplyAll, Keyed, DerivedArp, MakePool, KeepsDerived, LooksPlanned,
         IsManaged;
    var routes, neighs, done :| done <= ConvergePlan(c, routes, neighs, leases).ops && k' == ApplyAll(k, done);
    var ops := InstallPlan(c, leases).ops;
    HandedOutPlans(cfg, net, mask, c, leases);
    DeletedAre(c, routes, neighs, ops);
    var all := ops + DeletePlan(c, routes, neighs, ops);
    forall i | 0 <= i < |done| ensures KeepsDerived(c, done[i]) {
      assert done[i] == all[i];
      if i >= |ops| {
        assert all[i] in DeletePlan(c, routes, neighs, ops);
        DeletionKeepsDerived(c, done[i]);
      }
    }
    OpsKeepDerived(c, k, done);
  }

  lemma DeletionKeepsDerived(c: Conf, op: Op)
    requires op.RouteDel? || op.NeighDel?
    ensures KeepsDerived(c, op)
  {
  }

  lemma {:induction false} HistoryIsDerived(cfg: Config, net: Cidr, mask: PrefixLen, c: Conf, ks: seq<Tables>,
                                            lists: seq<seq<Lease>>, i: nat)
    requires net.len <= mask && cfg.pool == MakePool(net, mask) && History(cfg, c, ks, lists) && i < |ks|
    ensures Keyed(ks[i], c.link) && DerivedArp(c, ks[i])
  {
    hide Round, Keyed, MakePool;
    if i > 0 {
      HistoryIsDerived(cfg, net, mask, c, ks, lists, i - 1);
      RoundKeepsDerived(cfg, net, mask, c, ks[i - 1], ks[i], lists[i - 1]);
    }
  }

  /** A derived ARP entry that looks planned is planned as an ARP entry. */
  lemma DerivedLooksPlanned(cfg: Config, net: Cidr, mask: PrefixLen, c: Conf, leases: seq<Lease>, n: Neigh)
    requires net.len <= mask && cfg.pool == MakePool(net, mask) && HandedOut(cfg, leases)
    requires InstallPlan(c, leases).ok && IsDerived(c, n) && LooksPlanned(n, InstallPlan(c, leases).ops)
    ensures NeighSet(n) in InstallPlan(c, leases).ops
  {
    hide InstallPlan, MakePool, HandedOut, VtepMac, ParseCidr, ParseIP, ParseMac, PrintMac, Routable;
    var f :| NeighSet(f) in InstallPlan(c, leases).ops && NeighEqual(n, f);
    var i, dest, u, m := PlannedIsAsked(c, leases, NeighSet(f));
    HandedOutAsks(cfg, net, mask, c, leases, i, dest, u, m);
    VtepMacInjective(dest.addr, n.ip.value.addr) by {
      assert VtepMac(dest.addr) == VtepMac(n.ip.value.addr);
    }
    var u', m' := AskedIsPlanned(c, leases, i, dest);
    HandedOutAsks(cfg, net, mask, c, leases, i, dest, u', m');
  }

  /** From an empty ARP table or one of derived entries on, however many convergences there were and wherever they
      stopped, a convergence on what the controllers hand out that succeeds leaves exactly the wanted ARP entries. */
  lemma ArpStaysExact(cfg: Config, net: Cidr, mask: PrefixLen, c: Conf, ks: seq<Tables>, lists: seq<seq<Lease>>,
                      k': Tables, leases: seq<Lease>, dels: seq<Op>)
    requires net.len <= mask && cfg.pool == MakePool(net, mask) && History(cfg, c, ks, lists)
    requires HandedOut(cfg, leases) && Converges(c, ks[|lists|], k', leases, dels)
    ensures k'.arp == Desired(c, leases).arp
  {
    hide InstallPlan, MakePool, Round, HandedOut, Converges, LooksPlanned, Keyed, Apply, ApplyAll;
    var k, ops := ks[|lists|], InstallPlan(c, leases).ops;
    HistoryIsDerived(cfg, net, mask, c, ks, lists, |lists|);
    assert InstallPlan(c, leases).ok by { ConvergesPlans(c, k, k', leases, dels); }
    PlannedInstalls(c, leases);
    InstalledArp(NO_ENTRIES, ops, c.link);
    KeyedArp(k, c.link);
    forall a | a in k.arp && LooksPlanned(k.arp[a], ops) ensures a in Desired(c, leases).arp {
      DerivedLooksPlanned(cfg, net, mask, c, leases, k.arp[a]);
    }
    ArpIsExactIff(c, k, k', leases, dels);
  }
}
