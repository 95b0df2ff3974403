/** Many requests in flight at once, on any number of controllers: each database statement is one
    atomic step of one process, so a process may act on rows it read long ago. */
module Interleaving {
  import opened Wrappers
  import opened Addressing
  import opened Text
  import opened IPText
  import opened HardwareAddr
  import opened CidrPool
  import opened LeaseTable
  import opened LeaseProtocol
  import opened Leasing

  datatype Answer = ToAcquire(out: Outcome) | ToRenew(res: RenewResult) | ToRelease(ok: bool)

  /** A request by the statement it issues next; `left` counts the acquire attempts still allowed. */
  datatype Proc =
    | Done(answer: Answer)
    | LookingUp(host: string, single: bool)
    | Dropping(host: string, single: bool)
    | Listing(host: string, single: bool, left: nat)
    | Searching(host: string, single: bool, left: nat)
    | Evicting(host: string, single: bool, left: nat, victim: string, subnet: string, seen: int)
    | Inserting(single: bool, left: nat, lease: Lease)
    | RenewLooking(lease: Lease)
    | RenewAdding(lease: Lease)
    | RenewTouching(lease: Lease)
    | RenewReading(lease: Lease)
    | Releasing(host: string)

  datatype State = State(table: Table, now: int, procs: seq<Proc>)

  /** After the own row is out of the way: the first attempt, if any is configured. */
  function FirstAttempt(cfg: Config, u: string, single: bool): Proc {
    if cfg.attempts == 0 then Done(ToAcquire(NoLease)) else Listing(u, single, cfg.attempts)
  }

  /** After an attempt without a lease: the next one, or the answer of the last. */
  function NextAttempt(u: string, single: bool, left: nat, out: Outcome): Proc {
    if left <= 1 then Done(ToAcquire(out)) else Listing(u, single, left - 1)
  }

  /** With a subnet in hand: derive its hardware address and insert, or give the attempt up. */
  function Chosen(u: string, single: bool, left: nat, subnet: string): Proc {
    match HwAddrFor(subnet)
    case None => NextAttempt(u, single, left, Failed)
    case Some(h) => Inserting(single, left, Lease(u, subnet, h))
  }

  ghost predicate Begins(p: Proc) {
    match p
    case LookingUp(u, _) => ParseIPv4(u).Some?
    case RenewLooking(l) => WellFormed(l)
    case Releasing(_) => true
    case _ => false
  }

  /** One statement of a request.  A statement may be lost, and its answer may be lost after it ran. */
  ghost predicate Statement(cfg: Config, t: Table, t': Table, now: int, p: Proc, p': Proc) {
    match p
    case Done(_) => t' == t && Begins(p')
    case LookingUp(u, single) =>
      && t' == t
      && (|| p' == Done(ToAcquire(Failed))
          || p' == (if u !in t then FirstAttempt(cfg, u, single)
                    else if cfg.pool.IsMember(t[u].subnet) then Done(ToAcquire(Leased(LeaseOf(t, u))))
                    else Dropping(u, single)))
    case Dropping(u, single) =>
      || (p' == Done(ToAcquire(Failed)) && (t' == t || t' == t - {u}))
      || (u in t && t' == t - {u} && p' == FirstAttempt(cfg, u, single))
    case Listing(u, single, left) =>
      && t' == t
      && (|| p' == NextAttempt(u, single, left, Failed)
          || (PoolCovered(cfg, t, single) && p' == Searching(u, single, left))
          || (exists s :: s in cfg.pool.Class(single) && s !in Taken(t, single) && p' == Chosen(u, single, left, s)))
    case Searching(u, single, left) =>
      && t' == t
      && (|| p' == NextAttempt(u, single, left, Failed)
          || (NoneExpired(t, single, cfg.expiration, now) && p' == NextAttempt(u, single, left, NoLease))
          || (exists v :: OldestExpired(t, single, cfg.expiration, now, v)
                          && p' == Evicting(u, single, left, v, t[v].subnet, t[v].renewed)))
    case Evicting(u, single, left, v, s, _) =>
      || (p' == NextAttempt(u, single, left, Failed) && (t' == t || t' == t - {v}))
      || (v in t && t' == t - {v} && p' == Chosen(u, single, left, s))
    case Inserting(single, left, l) =>
      || (Insert(t, l, now) == Some(t')
          && (p' == Done(ToAcquire(Leased(l))) || p' == NextAttempt(l.underlayIP, single, left, Failed)))
      || (t' == t && p' == NextAttempt(l.underlayIP, single, left, Failed))
    case RenewLooking(l) =>
      && t' == t
      && (|| p' == Done(ToRenew(Retriable))
          || p' == (if l.underlayIP !in t then RenewAdding(l)
                    else if LeaseOf(t, l.underlayIP) == l then RenewTouching(l)
                    else Done(ToRenew(NonRetriable))))
    case RenewAdding(l) =>
      || (Insert(t, l, now) == Some(t') && (p' == RenewTouching(l) || p' == Done(ToRenew(NonRetriable))))
      || (t' == t && p' == Done(ToRenew(NonRetriable)))
    case RenewTouching(l) =>
      || (t' == Touch(t, l.underlayIP, now) && (p' == RenewReading(l) || p' == Done(ToRenew(Retriable))))
      || (t' == t && p' == Done(ToRenew(Retriable)))
    case RenewReading(l) =>
      t' == t && (p' == Done(ToRenew(Retriable)) || (l.underlayIP in t && p' == Done(ToRenew(Renewed))))
    case Releasing(u) =>
      || (t' == t - {u} && (p' == Done(ToRelease(true)) || p' == Done(ToRelease(false))))
      || (t' == t && p' == Done(ToRelease(false)))
  }

  ghost predicate ProcStep(cfg: Config, s: State, s': State, i: nat) {
    && i < |s.procs| && s'.now == s.now && |s'.procs| == |s.procs|
    && s'.procs == s.procs[i := s'.procs[i]]
    && Statement(cfg, s.table, s'.table, s.now, s.procs[i], s'.procs[i])
  }

  /** One process runs its next statement, or time passes. */
  ghost predicate Step(cfg: Config, s: State, s': State) {
    || (exists i :: ProcStep(cfg, s, s', i))
    || (s.now <= s'.now && s' == s.(now := s'.now))
  }

  ghost predicate Init(s: State) {
    s.table == map[] && forall i :: 0 <= i < |s.procs| ==> s.procs[i].Done?
  }

  ghost predicate IsRun(cfg: Config, run: seq<State>) {
    && run != [] && Init(run[0])
    && forall i :: 0 <= i < |run| - 1 ==> Step(cfg, run[i], run[i + 1])
  }

  // ---------- uniqueness, unconditionally ----------

  lemma StatementKeepsUnique(cfg: Config, t: Table, t': Table, now: int, p: Proc, p': Proc)
    requires Statement(cfg, t, t', now, p, p') && Unique(t)
    ensures Unique(t')
  {
    hide WellFormed, Chosen, PoolCovered, NoneExpired, OldestExpired, Taken;
    match p
    case Inserting(_, _, l) => if Insertable(t, l) { InsertKeepsUnique(t, l, now); }
    case RenewAdding(l) => if Insertable(t, l) { InsertKeepsUnique(t, l, now); }
    case _ =>
  }

  /** In every reachable state no two rows share an underlay address, a subnet or a hardware address,
      whatever the requests are and however their statements interleave. */
  lemma {:induction false} TableStaysUnique(cfg: Config, run: seq<State>, k: nat)
    requires IsRun(cfg, run) && k < |run|
    ensures Unique(run[k].table)
  {
    hide Statement, Unique;
    if k == 0 {
      EmptyIsUnique();
    } else {
      TableStaysUnique(cfg, run, k - 1);
      var s, s' := run[k - 1], run[k];
      assert Step(cfg, s, s');
      if i: nat :| ProcStep(cfg, s, s', i) {
        StatementKeepsUnique(cfg, s.table, s'.table, s.now, s.procs[i], s'.procs[i]);
      }
    }
  }

  lemma EmptyIsUnique()
    ensures Unique(map[])
  {
  }

  // ---------- pool membership, disjointness and derived addresses ----------

  /** What a process carries from one statement to the next stays true of the pool, however old it is. */
  ghost predicate CarriesPoolLease(cfg: Config, p: Proc) {
    match p
    case LookingUp(u, _) => ParseIPv4(u).Some?
    case Dropping(u, _) => ParseIPv4(u).Some?
    case Listing(u, _, _) => ParseIPv4(u).Some?
    case Searching(u, _, _) => ParseIPv4(u).Some?
    case Evicting(u, _, _, _, s, _) => ParseIPv4(u).Some? && cfg.pool.IsMember(s)
    case Inserting(_, _, l) => ParseIPv4(l.underlayIP).Some? && PoolLease(cfg, l.overlaySubnet, l.hardwareAddr)
    case RenewLooking(l) => WellFormed(l) && PoolLease(cfg, l.overlaySubnet, l.hardwareAddr)
    case RenewAdding(l) => WellFormed(l) && PoolLease(cfg, l.overlaySubnet, l.hardwareAddr)
    case _ => true
  }

  /** Hosts only renew leases of the pool. */
  ghost predicate RenewsPoolLeases(cfg: Config, run: seq<State>) {
    forall k, i :: 0 <= k < |run| && 0 <= i < |run[k].procs| && run[k].procs[i].RenewLooking? ==>
      PoolLease(cfg, run[k].procs[i].lease.overlaySubnet, run[k].procs[i].lease.hardwareAddr)
  }

  lemma StatementKeepsHealthy(cfg: Config, t: Table, t': Table, now: int, p: Proc, p': Proc)
    requires Statement(cfg, t, t', now, p, p') && Healthy(cfg, t) && CarriesPoolLease(cfg, p)
    requires p'.RenewLooking? ==> PoolLease(cfg, p'.lease.overlaySubnet, p'.lease.hardwareAddr)
    ensures Healthy(cfg, t') && CarriesPoolLease(cfg, p')
  {
    hide ParseIP, ParsePrefix, ParseMac, HwAddrFor, IsSingle, Unique, Insertable, PoolCovered;
    StatementKeepsUnique(cfg, t, t', now, p, p');
  }

  ghost predicate Inv(cfg: Config, s: State) {
    && Healthy(cfg, s.table)
    && forall i :: 0 <= i < |s.procs| ==> CarriesPoolLease(cfg, s.procs[i])
  }

  lemma {:induction false} InvHolds(cfg: Config, run: seq<State>, k: nat)
    requires IsRun(cfg, run) && RenewsPoolLeases(cfg, run) && k < |run|
    ensures Inv(cfg, run[k])
  {
    hide Statement, PoolLease, ParseIP, WellFormed;
    if k > 0 {
      InvHolds(cfg, run, k - 1);
      var s, s' := run[k - 1], run[k];
      assert Step(cfg, s, s');
      if i: nat :| ProcStep(cfg, s, s', i) {
        StatementKeepsHealthy(cfg, s.table, s'.table, s.now, s.procs[i], s'.procs[i]);
      }
    }
  }

  /** Every lease covers part of the network, apart from the others, with the hardware address the pool gives it. */
  ghost predicate LeasesAreApart(net: Cidr, t: Table) {
    && (forall u :: u in t ==>
          && ParseCidr(t[u].subnet).Some?
          && ParseMac(t[u].hwaddr) == Some([0xee, 0xee] + Octets(ParseCidr(t[u].subnet).value.Base())))
    && (forall u, a: Addr :: u in t && ParseCidr(t[u].subnet).value.Contains(a) ==> net.Contains(a))
    && (forall u, v :: u in t && v in t && u != v ==>
          Disjoint(ParseCidr(t[u].subnet).value, ParseCidr(t[v].subnet).value))
  }

  lemma HealthyLeasesAreApart(cfg: Config, net: Cidr, mask: PrefixLen, t: Table)
    requires net.len <= mask && cfg.pool == MakePool(net, mask) && Healthy(cfg, t)
    ensures LeasesAreApart(net, t)
  {
    hide ParseCidr, ParseMac, ParseIP, Octets, MakePool, HwAddrFor, Disjoint, Shl, Shr;
    forall u | u in t
      ensures && ParseCidr(t[u].subnet).Some?
              && ParseMac(t[u].hwaddr) == Some([0xee, 0xee] + Octets(ParseCidr(t[u].subnet).value.Base()))
      ensures forall a: Addr :: ParseCidr(t[u].subnet).value.Contains(a) ==> net.Contains(a)
    {
      PoolLeaseCovers(cfg, net, mask, t[u].subnet, t[u].hwaddr);
    }
    forall u, v | u in t && v in t && u != v
      ensures Disjoint(ParseCidr(t[u].subnet).value, ParseCidr(t[v].subnet).value)
    {
      assert PoolLease(cfg, t[u].subnet, t[u].hwaddr) && PoolLease(cfg, t[v].subnet, t[v].hwaddr);
      MembersAreDisjoint(net, mask, t[u].subnet, t[v].subnet);
    }
  }

  /** When hosts renew only leases of the pool, every reachable table, under any interleaving, stale reads
      and lost answers included, holds pool members only; their ranges are pairwise disjoint parts of
      the network and every hardware address is ee:ee followed by the subnet's base address. */
  lemma LeasesStayDisjoint(cfg: Config, net: Cidr, mask: PrefixLen, run: seq<State>, k: nat)
    requires net.len <= mask && cfg.pool == MakePool(net, mask)
    requires IsRun(cfg, run) && RenewsPoolLeases(cfg, run) && k < |run|
    ensures Healthy(cfg, run[k].table)
    ensures LeasesAreApart(net, run[k].table)
  {
    hide IsRun, RenewsPoolLeases, LeasesAreApart, MakePool;
    InvHolds(cfg, run, k);
    HealthyLeasesAreApart(cfg, net, mask, run[k].table);
  }
}
