/** A kernel that deletes an ARP entry by its address alone, whatever else the call says, and what that changes. */
module ArpByKey {
  import opened IPText
  import opened CidrPool
  import opened LeaseTable
  import opened LeaseProtocol
  import opened HardwareAddr
  import opened Kernel
  import opened Converger
  import opened Convergence
  import opened ArpHistory
  import opened Addressing

  function ApplyByKey(k: Tables, op: Op): Tables {
    if op.NeighDel? && !op.neigh.bridge && op.neigh.ip.Some? then k.(arp := k.arp - {op.neigh.ip.value})
    else Apply(k, op)
  }

  function ApplyAllByKey(k: Tables, ops: seq<Op>): Tables
    decreases |ops|
  {
    if ops == [] then k else ApplyAllByKey(ApplyByKey(k, ops[0]), ops[1..])
  }

  /** The addresses of the ARP entries that are to be deleted. */
  ghost function DeletedKeys(ops: seq<Op>): set<IP> {
    set op | op in ops && op.NeighDel? && !op.neigh.bridge && op.neigh.ip.Some? :: op.neigh.ip.value
  }

  /** Until the first deletion there is no difference. */
  lemma {:induction false} InstallingByKey(k: Tables, ops: seq<Op>, dels: seq<Op>, link: int)
    requires forall i :: 0 <= i < |ops| ==> Installs(ops[i], link)
    ensures ApplyAllByKey(k, ops + dels) == ApplyAllByKey(ApplyAll(k, ops), dels)
    decreases |ops|
  {
    hide Apply;
    if ops == [] {
      assert ops + dels == dels;
    } else {
      assert (ops + dels)[0] == ops[0] && (ops + dels)[1..] == ops[1..] + dels && Installs(ops[0], link);
      InstallingByKey(Apply(k, ops[0]), ops[1..], dels, link);
    }
  }

  /** Routes and FDB entries go as before; of the ARP entries, all with a listed address. */
  lemma {:induction false} DeletingByKey(k: Tables, k2: Tables, dels: seq<Op>)
    requires forall i :: 0 <= i < |dels| ==> Deletes(dels[i])
    requires k2.routes == k.routes && k2.fdb == k.fdb
    ensures var t, t2 := ApplyAllByKey(k, dels), ApplyAll(k2, dels);
      t.routes == t2.routes && t.fdb == t2.fdb && t.arp == k.arp - DeletedKeys(dels)
    decreases |dels|
  {
    if dels == [] {
      assert k.arp - DeletedKeys(dels) == k.arp;
    } else {
      var op := dels[0];
      assert Deletes(op);
      DeletingByKey(ApplyByKey(k, op), Apply(k2, op), dels[1..]);
      DeletedKeysSplit(dels);
      assert k.arp - DeletedKeys([op]) - DeletedKeys(dels[1..]) == k.arp - DeletedKeys(dels);
      assert ApplyByKey(k, op).arp == k.arp - DeletedKeys([op]);
    }
  }

  lemma DeletedKeysSplit(dels: seq<Op>)
    requires dels != []
    ensures DeletedKeys(dels) == DeletedKeys([dels[0]]) + DeletedKeys(dels[1..])
    ensures DeletedKeys([dels[0]]) ==
      if dels[0].NeighDel? && !dels[0].neigh.bridge && dels[0].neigh.ip.Some? then {dels[0].neigh.ip.value} else {}
  {
    assert forall op :: op in dels <==> op in [dels[0]] || op in dels[1..];
    assert forall op :: op in [dels[0]] <==> op == dels[0];
  }

  /** A successful convergence on such a kernel. */
  ghost predicate ConvergesByKey(c: Conf, k: Tables, k': Tables, leases: seq<Lease>, dels: seq<Op>) {
    exists routes, neighs ::
      && ListsRoutes(routes, k, c.link) && ListsNeighs(neighs, k)
      && InstallPlan(c, leases).ok
      && dels == DeletePlan(c, routes, neighs, InstallPlan(c, leases).ops)
      && k' == ApplyAllByKey(k, InstallPlan(c, leases).ops + dels)
  }

  /** The wanted addresses that had an unwanted entry before. */
  ghost function Lost(c: Conf, k: Tables, leases: seq<Lease>): set<IP> {
    set a | a in k.arp && a in Desired(c, leases).arp && !LooksPlanned(k.arp[a], InstallPlan(c, leases).ops)
  }

  lemma DeletedKeysAre(c: Conf, k: Tables, k': Tables, leases: seq<Lease>, dels: seq<Op>, a: IP)
    requires Keyed(k, c.link) && Converges(c, k, k', leases, dels)
    ensures a in DeletedKeys(dels) <==> a in k.arp && !LooksPlanned(k.arp[a], InstallPlan(c, leases).ops)
  {
    hide Converges, InstallPlan, Desired, Without, Over, LooksPlanned;
    ConvergedTables(c, k, k', leases, dels);
    if a in DeletedKeys(dels) {
      var op :| op in dels && op.NeighDel? && !op.neigh.bridge && op.neigh.ip.Some? && op.neigh.ip.value == a;
      assert NeighDel(op.neigh) in dels;
    }
    if a in k.arp && !LooksPlanned(k.arp[a], InstallPlan(c, leases).ops) {
      assert NeighDel(k.arp[a]) in dels;
    }
  }

  /** It ends with the routes and FDB entries of any other kernel, but without the wanted ARP entries of addresses that
      had an unwanted entry before. */
  lemma ByKeyLoses(c: Conf, k: Tables, k': Tables, leases: seq<Lease>, dels: seq<Op>)
    requires Keyed(k, c.link) && ConvergesByKey(c, k, k', leases, dels)
    ensures k'.routes == ForeignRoutes(c, k) + Desired(c, leases).routes && k'.fdb == Desired(c, leases).fdb
    ensures k'.arp == MistakenArp(c, k, leases) + Desired(c, leases).arp - Lost(c, k, leases)
  {
    hide InstallPlan, DeletePlan, ApplyAll, ApplyAllByKey, Keyed, LooksPlanned, ListsRoutes, ListsNeighs, IsManaged,
         ForeignRoutes, Installs;
    var ops := InstallPlan(c, leases).ops;
    var routes, neighs :|
      && ListsRoutes(routes, k, c.link) && ListsNeighs(neighs, k)
      && InstallPlan(c, leases).ok
      && dels == DeletePlan(c, routes, neighs, ops)
      && k' == ApplyAllByKey(k, ops + dels);
    var full := ApplyAll(k, ops + dels);
    assert Converges(c, k, full, leases, dels);
    assert forall i :: 0 <= i < |ops| ==> Installs(ops[i], c.link) by { PlannedInstalls(c, leases); }
    forall i | 0 <= i < |dels| ensures Deletes(dels[i]) { OnlyDeletions(c, k, full, leases, dels, dels[i]); }
    InstallingByKey(k, ops, dels, c.link);
    ApplyAllAppends(k, ops, dels);
    DeletingByKey(ApplyAll(k, ops), ApplyAll(k, ops), dels);
    assert ApplyAll(k, ops) == Over(k, Desired(c, leases)) by {
      assert Over(k, NO_ENTRIES) == k;
      InstallingIsOverlay(k, NO_ENTRIES, ops, c.link);
    }
    forall a ensures a in DeletedKeys(dels) <==> a in k.arp && !LooksPlanned(k.arp[a], ops) {
      DeletedKeysAre(c, k, full, leases, dels, a);
    }
    ConvergenceIsExact(c, k, full, leases, dels);
    ByKeyArp(c, k, leases, DeletedKeys(dels));
  }

  lemma ByKeyArp(c: Conf, k: Tables, leases: seq<Lease>, keys: set<IP>)
    requires forall a :: a in keys <==> a in k.arp && !LooksPlanned(k.arp[a], InstallPlan(c, leases).ops)
    ensures Over(k, Desired(c, leases)).arp - keys ==
      MistakenArp(c, k, leases) + Desired(c, leases).arp - Lost(c, k, leases)
  {
    hide InstallPlan, Desired, LooksPlanned;
  }

  /** So deletion by key makes no difference if and only if no wanted address had an unwanted entry before. */
  lemma ByKeyIsExactIff(c: Conf, k: Tables, k': Tables, full: Tables, leases: seq<Lease>, dels: seq<Op>)
    requires Keyed(k, c.link) && ConvergesByKey(c, k, k', leases, dels) && Converges(c, k, full, leases, dels)
    ensures k' == full <==>
      forall a :: a in k.arp && a in Desired(c, leases).arp ==> LooksPlanned(k.arp[a], InstallPlan(c, leases).ops)
  {
    hide InstallPlan, Desired, LooksPlanned, Keyed, Converges, ConvergesByKey, ForeignRoutes, MistakenArp;
    ByKeyLoses(c, k, k', leases, dels);
    ConvergenceIsExact(c, k, full, leases, dels);
    if a :| a in Lost(c, k, leases) {
      assert a in full.arp && a !in k'.arp;
    } else {
      assert k'.arp == full.arp;
    }
  }

  /** And it never does where the hardware addresses are derived, as on what controllers hand out. */
  lemma DerivedLosesNothing(cfg: Config, net: Cidr, mask: PrefixLen, c: Conf, k: Tables, leases: seq<Lease>)
    requires net.len <= mask && cfg.pool == MakePool(net, mask) && HandedOut(cfg, leases)
    requires Keyed(k, c.link) && DerivedArp(c, k)
    ensures Lost(c, k, leases) == {}
  {
    hide MakePool, HandedOut, InstallPlan, Keyed, Apply, ApplyAll, LooksPlanned, VtepMac;
    HandedOutPlans(cfg, net, mask, c, leases);
    var ops, d := InstallPlan(c, leases).ops, Desired(c, leases);
    assert AllInstall(ops, c.link) by { PlannedInstalls(c, leases); }
    InstalledArp(NO_ENTRIES, ops, c.link);
    KeyedArp(k, c.link);
    forall a | a in k.arp && a in d.arp ensures LooksPlanned(k.arp[a], ops) {
      assert KeepsDerived(c, NeighSet(d.arp[a]));
      PlannedLooksPlanned(d.arp[a], ops);
    }
  }
}
