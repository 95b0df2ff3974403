/** Every row that a controller ever writes can be read again: what renewals are checked for, and what that means for
    the hosts that converge on the table. */
module Readable {
  import opened Wrappers
  import opened Addressing
  import opened Text
  import opened IPText
  import opened HardwareAddr
  import opened LeaseTable
  import opened LeaseProtocol
  import opened Interleaving
  import opened Converger
  import opened Plans

  // ---------- one renewal ----------

  /** A renewal with an address, a subnet or a hardware address that does not parse is refused and touches nothing,
      whatever else fails. */
  lemma RenewalIsValidated(t: Table, t': Table, l: Lease, now: int, res: RenewResult, sound: bool)
    requires Renews(t, t', l, now, res, sound)
    requires ParseIP(l.underlayIP).None? || ParsePrefix(l.overlaySubnet).None? || ParseMac(l.hardwareAddr).None?
    ensures t' == t && res == NonRetriable
  {
    hide ParseIP, ParsePrefix, ParseMac;
  }

  /** The row of the host holds the lease, or the host has none and the lease fits its columns and is new in them. */
  ghost predicate Renewable(t: Table, l: Lease) {
    if l.underlayIP in t then t[l.underlayIP].subnet == l.overlaySubnet && t[l.underlayIP].hwaddr == l.hardwareAddr
    else
      && |l.underlayIP| <= 15 && |l.overlaySubnet| <= 18 && |l.hardwareAddr| <= 17
      && forall v :: v in t ==> t[v].subnet != l.overlaySubnet && t[v].hwaddr != l.hardwareAddr
  }

  /** With the database answering, a renewal succeeds exactly if the lease can be read and is renewable; it then leaves
      the row of the lease dated now and every other row alone, and otherwise it is refused and changes nothing. */
  lemma RenewalIsDecided(t: Table, t': Table, l: Lease, now: int, res: RenewResult)
    requires Renews(t, t', l, now, res, true)
    ensures res == Renewed <==>
      && ParseIP(l.underlayIP).Some? && ParsePrefix(l.overlaySubnet).Some? && ParseMac(l.hardwareAddr).Some?
      && Renewable(t, l)
    ensures res == Renewed ==> t' == t[l.underlayIP := Row(l.overlaySubnet, l.hardwareAddr, now)]
    ensures res != Renewed ==> res == NonRetriable && t' == t
  {
    hide ParseIP, ParsePrefix, ParseMac;
  }

  // ---------- every run ----------

  ghost predicate ReadableLease(l: Lease) {
    ParseIP(l.underlayIP).Some? && ParsePrefix(l.overlaySubnet).Some? && ParseMac(l.hardwareAddr).Some?
  }

  ghost predicate ReadableTable(t: Table) {
    forall u :: u in t ==>
      && ParseIP(u).Some? && ParsePrefix(t[u].subnet).Some? && ParseMac(t[u].hwaddr).Some?
      && |u| <= 15 && |t[u].subnet| <= 18 && |t[u].hwaddr| <= 17
  }

  ghost predicate CarriesReadable(p: Proc) {
    match p
    case LookingUp(u, _) => ParseIP(u).Some?
    case Dropping(u, _) => ParseIP(u).Some?
    case Listing(u, _, _) => ParseIP(u).Some?
    case Searching(u, _, _) => ParseIP(u).Some?
    case Evicting(u, _, _, _, _, _) => ParseIP(u).Some?
    case Inserting(_, _, l) => ReadableLease(l)
    case RenewLooking(l) => ReadableLease(l)
    case RenewAdding(l) => ReadableLease(l)
    case _ => true
  }

  /** Whatever subnet an attempt takes, what it inserts can be read. */
  lemma ChosenIsReadable(u: string, single: bool, left: nat, subnet: string)
    requires ParseIP(u).Some?
    ensures CarriesReadable(Chosen(u, single, left, subnet))
  {
    hide ParseIP, ParsePrefix, ParseMac, PrintMac, VtepMac;
    match ParsePrefix(subnet)
    case Some((V4(a), _)) => MacRoundTrip(VtepMac(a));
    case _ =>
  }

  lemma StatementWritesReadable(cfg: Config, t: Table, t': Table, now: int, p: Proc, p': Proc)
    requires Statement(cfg, t, t', now, p, p') && ReadableTable(t) && CarriesReadable(p)
    ensures ReadableTable(t')
  {
    hide ParseIP, ParsePrefix, ParseMac, IsSingle, PoolCovered, Chosen, NoneExpired, OldestExpired, Taken, NextAttempt,
         FirstAttempt, Begins;
  }

  lemma StatementCarriesReadable(cfg: Config, t: Table, t': Table, now: int, p: Proc, p': Proc)
    requires Statement(cfg, t, t', now, p, p') && CarriesReadable(p)
    ensures CarriesReadable(p')
  {
    hide ParseIP, ParsePrefix, ParseMac, IsSingle, PoolCovered, Chosen, NoneExpired, OldestExpired, Taken, Insert,
         Touch;
    match p
    case Listing(u, single, left) =>
      forall s ensures CarriesReadable(Chosen(u, single, left, s)) { ChosenIsReadable(u, single, left, s); }
    case Evicting(u, single, left, _, s, _) => ChosenIsReadable(u, single, left, s);
    case _ =>
  }

  ghost predicate ReadableState(s: State) {
    ReadableTable(s.table) && forall i :: 0 <= i < |s.procs| ==> CarriesReadable(s.procs[i])
  }

  lemma {:induction false} StatesAreReadable(cfg: Config, run: seq<State>, k: nat)
    requires IsRun(cfg, run) && k < |run|
    ensures ReadableState(run[k])
  {
    hide Statement, ReadableTable, CarriesReadable;
    if k == 0 {
      EmptyIsReadable();
      forall i | 0 <= i < |run[0].procs| ensures CarriesReadable(run[0].procs[i]) {
        DoneCarriesNothing(run[0].procs[i]);
      }
    } else {
      StatesAreReadable(cfg, run, k - 1);
      var s, s' := run[k - 1], run[k];
      assert Step(cfg, s, s');
      if i: nat :| ProcStep(cfg, s, s', i) {
        StatementWritesReadable(cfg, s.table, s'.table, s.now, s.procs[i], s'.procs[i]);
        StatementCarriesReadable(cfg, s.table, s'.table, s.now, s.procs[i], s'.procs[i]);
      }
    }
  }

  lemma DoneCarriesNothing(p: Proc)
    requires p.Done?
    ensures CarriesReadable(p)
  {
  }

  lemma EmptyIsReadable()
    ensures ReadableTable(map[])
  {
  }

  /** Whatever hosts renew and however statements interleave or get lost, every row of every reachable table has an
      address, a subnet and a hardware address that parse and fit their columns. */
  lemma RowsAreReadable(cfg: Config, run: seq<State>, k: nat, u: string)
    requires IsRun(cfg, run) && k < |run| && u in run[k].table
    ensures ParseIP(u).Some? && ParsePrefix(run[k].table[u].subnet).Some? && ParseMac(run[k].table[u].hwaddr).Some?
    ensures |u| <= 15 && |run[k].table[u].subnet| <= 18 && |run[k].table[u].hwaddr| <= 17
  {
    hide IsRun, ParseIP, ParsePrefix, ParseMac;
    StatesAreReadable(cfg, run, k);
  }

  /** So on a listing of a reachable table no host gives up on a lease, except exactly on a subnet in IPv6 notation
      whose IPv4 network is another's block of the overlay. */
  lemma ReachableTablePlansIff(cfg: Config, run: seq<State>, k: nat, keys: set<string>, leases: seq<Lease>, c: Conf)
    requires IsRun(cfg, run) && k < |run| && Lists(leases, run[k].table, keys)
    ensures InstallPlan(c, leases).ok <==> forall u :: u in keys ==> !MappedRoute(c, run[k].table[u].subnet)
  {
    hide IsRun, ParseIP, ParsePrefix, ParseMac, ParseCidr, InstallPlan, MappedRoute, Elsewhere;
    var t := run[k].table;
    StatesAreReadable(cfg, run, k);
    PlanRunsIff(c, leases);
    forall i | 0 <= i < |leases| ensures Stops(c, leases[i]) <==> MappedRoute(c, leases[i].overlaySubnet) {
      assert leases[i] == LeaseOf(t, leases[i].underlayIP);
    }
    if InstallPlan(c, leases).ok {
      forall u | u in keys ensures !MappedRoute(c, t[u].subnet) {
        assert LeaseOf(t, u) in leases;
        var i :| 0 <= i < |leases| && leases[i] == LeaseOf(t, u);
      }
    }
  }

  // ---------- and that exception is reached ----------

  /** A block of 256 addresses, in IPv6 notation. */
  function MappedBlock(a: Addr): string {
    HexMappedText(a) + "/120"
  }

  lemma NoSlash(s: string)
    requires AllHex(s)
    ensures '/' !in s
  {
    assert HexValue('/').None?;
  }

  lemma MappedBlockParses(a: Addr)
    ensures ParsePrefix(MappedBlock(a)) == Some((V4(a), 120)) && ParseCidr(MappedBlock(a)).None?
  {
    hide ParseIPv6, ParseDotted, HexText;
    var s := HexMappedText(a);
    HexTextReads(a / 0x1_0000);
    HexTextReads(a % 0x1_0000);
    NoSlash(HexText(a / 0x1_0000));
    NoSlash(HexText(a % 0x1_0000));
    HexMappedReads(a);
    assert MappedBlock(a) == s + ['/'] + "120";
    SplitField(s, "120", '/');
    SplitField("120", [], '/');
    assert "120"[..2] == "12" && "12"[..1] == "1" && "1"[..0] == "";
    assert DecimalValue("1") == 1 && DecimalValue("12") == 12 && DecimalValue("120") == 120;
  }

  /** The table after the only renewal of a run. */
  function OneRow(l: Lease, now: int): Table {
    map[l.underlayIP := Row(l.overlaySubnet, l.hardwareAddr, now)]
  }

  lemma OneRenewalRuns(cfg: Config, l: Lease, now: int)
    requires ReadableLease(l) && FitsColumns(l)
    ensures exists run: seq<State>, k :: IsRun(cfg, run) && 0 <= k < |run| && run[k].table == OneRow(l, now)
  {
    hide ParseIP, ParsePrefix, ParseMac;
    var t: Table := map[];
    var s0 := State(t, now, [Done(ToRelease(true))]);
    var s1, s2 := State(t, now, [RenewLooking(l)]), State(t, now, [RenewAdding(l)]);
    var s3 := State(OneRow(l, now), now, [RenewTouching(l)]);
    var run := [s0, s1, s2, s3];
    assert ProcStep(cfg, s0, s1, 0) && ProcStep(cfg, s1, s2, 0) && ProcStep(cfg, s2, s3, 0);
    assert IsRun(cfg, run) && run[3].table == OneRow(l, now);
  }

  /** The exception does occur: a block of 256 addresses of the overlay, renewed in IPv6 notation, becomes a row if its
      text is short enough, and a convergence gives up on that row. */
  lemma MappedRenewalStops(cfg: Config, c: Conf, a: Addr, u: Addr, m: Mac, now: int)
    requires |HexMappedText(a)| <= 14 && |m| == 6
    requires Cidr(a, 24).Network() != c.local && c.overlay.Contains(Cidr(a, 24).Base())
    ensures var l := Lease(PrintIP(u), MappedBlock(a), PrintMac(m));
      && (exists run: seq<State>, k :: IsRun(cfg, run) && 0 <= k < |run| && run[k].table == OneRow(l, now))
      && !InstallPlan(c, [l]).ok
  {
    hide IsRun, PrintIP, PrintMac, ParseIP, ParsePrefix, ParseMac, ParseCidr, InstallPlan, HexMappedText, Shl, Shr;
    var l := Lease(PrintIP(u), MappedBlock(a), PrintMac(m));
    MappedBlockParses(a);
    AddressHasTwoTexts(u);
    DottedRoundTrip(u);
    MacRoundTrip(m);
    OneRenewalRuns(cfg, l, now);
    PlanRunsIff(c, [l]);
    assert MappedRoute(c, l.overlaySubnet);
    assert Stops(c, [l][0]);
  }
}
