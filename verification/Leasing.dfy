/** Theorems about one controller request that is served without interruption. */
module Leasing {
  import opened Wrappers
  import opened Addressing
  import opened Text
  import opened IPText
  import opened HardwareAddr
  import opened CidrPool
  import opened LeaseTable
  import opened LeaseProtocol

  // ---------- healthy tables ----------

  /** The controller is configured as its main function does it, with blocks longer than one address. */
  ghost predicate Built(cfg: Config, net: Cidr, mask: PrefixLen) {
    net.len <= mask < 32 && cfg.pool == MakePool(net, mask) && 1 <= cfg.attempts
  }

  predicate PoolLease(cfg: Config, subnet: string, hwaddr: string) {
    cfg.pool.IsMember(subnet) && HwAddrFor(subnet) == Some(hwaddr)
  }

  /** Every row belongs to an IP address and holds a pool member with the hardware address derived from it;
      the unique columns are unique. */
  ghost predicate Healthy(cfg: Config, t: Table) {
    && Unique(t)
    && forall u :: u in t ==> ParseIP(u).Some? && PoolLease(cfg, t[u].subnet, t[u].hwaddr)
  }

  lemma DottedHwAddr(s: string)
    requires ParseCidr(s).Some?
    ensures HwAddrFor(s) == Some(PrintMac(VtepMac(ParseCidr(s).value.addr)))
  {
    hide ParseCidr, ParsePrefix, PrintMac;
    DottedPrefix(s);
  }

  /** Distinct members derive distinct hardware addresses, each of which fits its column. */
  lemma DerivedHwAddr(cfg: Config, net: Cidr, mask: PrefixLen, s: string, r: string)
    requires Built(cfg, net, mask) && cfg.pool.IsMember(s) && cfg.pool.IsMember(r)
    ensures HwAddrFor(s).Some? && |HwAddrFor(s).value| == 17
    ensures s != r ==> HwAddrFor(s) != HwAddrFor(r)
  {
    hide PrintMac, ParseMac, ParseCidr, PrintCidr, VtepMac, EndsInSlash32, MakePool, HwAddrFor;
    MemberParses(net, mask, s);
    MemberParses(net, mask, r);
    DottedHwAddr(s);
    DottedHwAddr(r);
    var p, q := ParseCidr(s).value, ParseCidr(r).value;
    MacRoundTrip(VtepMac(p.addr));
    if s != r && HwAddrFor(s) == HwAddrFor(r) {
      VtepMacInjective(p.addr, q.addr);
      MembersAreDisjoint(net, mask, s, r);
      NetworkKeepsRange(p);
      NetworkKeepsRange(q);
    }
  }

  /** A lease of the pool covers part of the network and carries the hardware address of its base. */
  lemma PoolLeaseCovers(cfg: Config, net: Cidr, mask: PrefixLen, subnet: string, hwaddr: string)
    requires net.len <= mask && cfg.pool == MakePool(net, mask) && PoolLease(cfg, subnet, hwaddr)
    ensures ParseCidr(subnet).Some? && ParseMac(hwaddr) == Some([0xee, 0xee] + Octets(ParseCidr(subnet).value.Base()))
    ensures forall a: Addr :: ParseCidr(subnet).value.Contains(a) ==> net.Contains(a)
  {
    hide ParseCidr, PrintCidr, ParseMac, PrintMac, VtepMac, MakePool, EndsInSlash32, Disjoint, HwAddrFor, Octets;
    MemberParses(net, mask, subnet);
    DottedHwAddr(subnet);
    var p := ParseCidr(subnet).value;
    MacRoundTrip(VtepMac(p.addr));
    VtepAddressIsGenerated(p.addr);
    forall a: Addr | p.Contains(a) ensures net.Contains(a) {
      PieceContains(net, mask, p, a);
    }
  }

  /** On a healthy table the class query sees every row that holds a member of the class. */
  lemma TakenOnHealthy(cfg: Config, net: Cidr, mask: PrefixLen, t: Table, single: bool)
    requires Built(cfg, net, mask) && Healthy(cfg, t)
    ensures Taken(t, single) <= cfg.pool.Class(single)
    ensures forall s :: s in cfg.pool.Class(single) ==> IsSingle(s) == single
    ensures forall u :: u in t && t[u].subnet in cfg.pool.Class(single) ==> t[u].subnet in Taken(t, single)
  {
    hide HwAddrFor, EndsInSlash32, ParseCidr, PrintCidr, MakePool;
    forall s | cfg.pool.IsMember(s) ensures s in cfg.pool.Class(single) <==> IsSingle(s) == single {
      MemberParses(net, mask, s);
    }
  }

  /** A member that no row holds can be inserted for a host without a row. */
  lemma FreeMemberInserts(cfg: Config, net: Cidr, mask: PrefixLen, t: Table, u: string, s: string, now: int)
    requires Built(cfg, net, mask) && Healthy(cfg, t)
    requires ParseIP(u).Some? && |u| <= 15 && u !in t
    requires cfg.pool.IsMember(s) && forall v :: v in t ==> t[v].subnet != s
    ensures HwAddrFor(s).Some?
    ensures Insertable(t, Lease(u, s, HwAddrFor(s).value))
    ensures Healthy(cfg, Insert(t, Lease(u, s, HwAddrFor(s).value), now).value)
  {
    hide HwAddrFor, ParseIP, MakePool, ParseCidr, PrintCidr, EndsInSlash32;
    DerivedHwAddr(cfg, net, mask, s, s);
    forall v | v in t ensures HwAddrFor(t[v].subnet) != HwAddrFor(s) {
      DerivedHwAddr(cfg, net, mask, t[v].subnet, s);
    }
    MemberParses(net, mask, s);
    InsertKeepsUnique(t, Lease(u, s, HwAddrFor(s).value), now);
  }

  /** On a healthy table whatever an attempt chooses is granted: the insert meets no unique column. */
  lemma ChoiceIsGranted(cfg: Config, net: Cidr, mask: PrefixLen, t: Table, u: string, single: bool, now: int, c: Choice)
    requires Built(cfg, net, mask) && Healthy(cfg, t)
    requires ParseIP(u).Some? && |u| <= 15 && u !in t && CanChoose(cfg, t, single, now, c)
    ensures GrantTable(t, u, now, c).Some?
    ensures Healthy(cfg, GrantTable(t, u, now, c).value)
  {
    hide HwAddrFor, IsSingle, ParseIP, Built, Insertable, PoolCovered;
    var s := if c.Free? then c.subnet else t[c.victim].subnet;
    var cleared := Cleared(t, c);
    TakenOnHealthy(cfg, net, mask, t, single);
    FreeMemberInserts(cfg, net, mask, cleared, u, s, now);
  }

  // ---------- one acquire request ----------

  ghost predicate Keeps(t: Table, t': Table, u: string) {
    forall v :: v in t && v != u ==> v in t' && t'[v] == t[v]
  }

  /** The three answers an acquire can give a host without a row. */
  ghost predicate AcquireAnswer(cfg: Config, t: Table, t': Table, u: string, single: bool, now: int, out: Outcome) {
    match out
    case Leased(l) =>
      exists c :: CanChoose(cfg, t, single, now, c)
                  && GrantLease(t, u, c) == Some(l) && GrantTable(t, u, now, c) == Some(t')
    case NoLease => t' == t && PoolCovered(cfg, t, single) && NoneExpired(t, single, cfg.expiration, now)
    case Failed => false
  }

  /** With the database answering, an acquire on a healthy table is decided by its first attempt, if the text of
      the host fits its column. */
  lemma AcquireIsDecided(cfg: Config, net: Cidr, mask: PrefixLen, t: Table, t': Table, u: string, single: bool,
                         now: int, out: Outcome)
    requires Built(cfg, net, mask) && Healthy(cfg, t)
    requires ParseIPv4(u).Some? && |u| <= 15 && u !in t
    requires Acquires(cfg, t, t', u, single, now, out, true)
    ensures AcquireAnswer(cfg, t, t', u, single, now, out)
    ensures Healthy(cfg, t')
  {
    hide ParseIP, GrantLease, GrantTable, PoolCovered, NoneExpired, CanChoose, Attempt, AcquireAnswer, Healthy, Built;
    assert t - {u} == t;
    var ts, outs :|
      && AttemptRun(cfg, ts, outs, u, single, now, true)
      && ts[0] == t && ts[|outs|] == t' && out == LastOutcome(outs)
      && (out.Leased? || |outs| == cfg.attempts);
    assert |outs| > 0 by { BuiltTries(cfg, net, mask); }
    RoundsAgree(cfg, net, mask, ts, outs, u, single, now, |outs| - 1);
  }

  lemma BuiltTries(cfg: Config, net: Cidr, mask: PrefixLen)
    requires Built(cfg, net, mask)
    ensures 1 <= cfg.attempts
  {
  }

  lemma {:induction false} RoundsAgree(cfg: Config, net: Cidr, mask: PrefixLen, ts: seq<Table>, outs: seq<Outcome>,
                                       u: string, single: bool, now: int, i: nat)
    requires Built(cfg, net, mask) && ts != [] && Healthy(cfg, ts[0])
    requires ParseIP(u).Some? && |u| <= 15 && u !in ts[0]
    requires AttemptRun(cfg, ts, outs, u, single, now, true) && i < |outs|
    ensures AcquireAnswer(cfg, ts[0], ts[i + 1], u, single, now, outs[i])
    ensures Healthy(cfg, ts[i + 1])
  {
    hide ParseIP, GrantLease, GrantTable, CanChoose, NoneExpired, PoolCovered, HwAddrFor, Built;
    if i > 0 {
      RoundsAgree(cfg, net, mask, ts, outs, u, single, now, i - 1);
      assert ts[i] == ts[0];
    }
    forall c | CanChoose(cfg, ts[0], single, now, c) ensures c.Reclaim? ==> c.victim in ts[0] {
      ChoiceExists(cfg, ts[0], single, now, c);
    }
    forall c | CanChoose(cfg, ts[0], single, now, c)
      ensures GrantTable(ts[0], u, now, c).Some? && Healthy(cfg, GrantTable(ts[0], u, now, c).value)
    {
      ChoiceIsGranted(cfg, net, mask, ts[0], u, single, now, c);
    }
    assert Attempt(cfg, ts[i], ts[i + 1], u, single, now, outs[i], true);
  }

  lemma ChoiceExists(cfg: Config, t: Table, single: bool, now: int, c: Choice)
    requires CanChoose(cfg, t, single, now, c)
    ensures c.Reclaim? ==> c.victim in t
  {
  }

  // ---------- two hosts and one block ----------

  /** A pool of one block, the lease of it that one host may hold, and a second host that wants it. */
  ghost predicate Contended(cfg: Config, l: Lease, b: string) {
    && cfg.pool.blocks == {l.overlaySubnet} && !IsSingle(l.overlaySubnet)
    && HwAddrFor(l.overlaySubnet) == Some(l.hardwareAddr) && WellFormed(l) && FitsColumns(l)
    && l.underlayIP != b && ParseIPv4(l.underlayIP).Some? && ParseIPv4(b).Some? && |b| <= 15 && 1 <= cfg.attempts
  }

  /** Any two hosts contend for the second half of a network that is cut in two. */
  lemma HalvedNetworkIsContended(cfg: Config, net: Cidr, mask: PrefixLen, a: Addr, b: Addr)
    requires Built(cfg, net, mask) && mask == net.len + 1 && a != b
    ensures exists l: Lease :: l.underlayIP == PrintIP(a) && Contended(cfg, l, PrintIP(b))
  {
    hide PrintIP, ParseIP, PrintCidr, ParseCidr, PrintMac, ParseMac, VtepMac, EndsInSlash32, Shr, ParsePrefix,
         HwAddrFor;
    assert Shl(1, 1) == 2 && Shl(1, mask - net.len) == 2;
    BlockAt(net, mask, 1);
    var block := Cidr(net.Base() + BlockSize(mask), mask);
    assert BlockNames(net.Base(), mask, 1) == {};
    assert cfg.pool.blocks == {PrintCidr(block)};
    CidrRoundTrip(block);
    MacRoundTrip(VtepMac(block.addr));
    AddressHasTwoTexts(a);
    AddressHasTwoTexts(b);
    DottedPrefix(PrintCidr(block));
    DottedHwAddr(PrintCidr(block));
    var l := Lease(PrintIP(a), PrintCidr(block), PrintMac(VtepMac(block.addr)));
    assert Contended(cfg, l, PrintIP(b));
  }

  // ---------- frames that hold under any fault ----------

  /** Rows of other hosts are untouched or gone; gone are only expired rows of the class, and no expired row of the
      class that was renewed earlier stays. */
  ghost predicate Frame(cfg: Config, t: Table, t': Table, u: string, single: bool, now: int) {
    && (forall v :: v in t && v != u && v in t' ==> t'[v] == t[v])
    && (forall v :: v in t && v != u && v !in t' ==> ExpiredOfClass(t[v], single, cfg.expiration, now))
    && (forall v :: v in t' && v != u ==> v in t)
    && (forall v, w :: v in t && v != u && v !in t' && w in t && w != u && w in t' ==>
          (ExpiredOfClass(t[w], single, cfg.expiration, now) ==> t[v].renewed <= t[w].renewed))
  }

  /** Some other host's row is gone. */
  ghost predicate Evicted(t: Table, t': Table, u: string) {
    exists v :: v in t && v != u && v !in t'
  }

  /** Rows hold the whole class, except perhaps for a member that the host was given and never heard of. */
  ghost predicate WhollyTaken(cfg: Config, t: Table, single: bool, sound: bool) {
    || PoolCovered(cfg, t, single)
    || (!sound && exists s :: cfg.pool.Class(single) <= Taken(t, single) + {s})
  }

  lemma AttemptFrame(cfg: Config, t: Table, t': Table, u: string, single: bool, now: int, out: Outcome, sound: bool)
    requires Attempt(cfg, t, t', u, single, now, out, sound)
    ensures Frame(cfg, t, t', u, single, now)
    ensures Evicted(t, t', u) ==> PoolCovered(cfg, t, single)
    ensures sound && !out.Leased? && u !in t ==> u !in t'
  {
    hide HwAddrFor, IsSingle, PoolCovered, GrantLease, Insertable, ExpiredOfClass;
  }

  lemma AttemptKeepsUnique(cfg: Config, t: Table, t': Table, u: string, single: bool, now: int, out: Outcome,
                           sound: bool)
    requires Attempt(cfg, t, t', u, single, now, out, sound) && Unique(t)
    ensures Unique(t')
  {
    hide HwAddrFor, IsSingle, PoolCovered, GrantLease, Insertable;
    forall c | CanChoose(cfg, t, single, now, c) && GrantTable(t, u, now, c).Some?
      ensures Unique(GrantTable(t, u, now, c).value)
    {
      InsertKeepsUnique(Cleared(t, c), GrantLease(t, u, c).value, now);
    }
  }

  /** What rows hold later in a run, they held from the start, the host's own row apart. */
  lemma CoveredFromStart(cfg: Config, t: Table, t': Table, u: string, single: bool, now: int, sound: bool)
    requires Frame(cfg, t, t', u, single, now) && PoolCovered(cfg, t', single)
    requires u !in t && (sound ==> u !in t')
    ensures WhollyTaken(cfg, t, single, sound)
  {
    hide ExpiredOfClass, IsSingle;
    forall x | x in Taken(t', single) ensures x in Taken(t, single) || (u in t' && x == t'[u].subnet) {
      var v :| v in t' && IsSingle(t'[v].subnet) == single && t'[v].subnet == x;
      if v != u { assert t[v].subnet == x; }
    }
    if u in t' {
      assert cfg.pool.Class(single) <= Taken(t, single) + {t'[u].subnet};
    }
  }

  lemma FramesCompose(cfg: Config, t: Table, t1: Table, t2: Table, u: string, single: bool, now: int)
    requires Frame(cfg, t, t1, u, single, now) && Frame(cfg, t1, t2, u, single, now)
    ensures Frame(cfg, t, t2, u, single, now)
    ensures Evicted(t, t2, u) ==> Evicted(t, t1, u) || Evicted(t1, t2, u)
  {
    hide ExpiredOfClass;
  }

  lemma {:induction false} RunFrame(cfg: Config, ts: seq<Table>, outs: seq<Outcome>, u: string, single: bool, now: int,
                                    sound: bool, i: nat)
    requires AttemptRun(cfg, ts, outs, u, single, now, sound) && i <= |outs|
    ensures Frame(cfg, ts[0], ts[i], u, single, now)
    ensures u !in ts[0] && Evicted(ts[0], ts[i], u) ==> WhollyTaken(cfg, ts[0], single, sound)
    ensures u !in ts[0] && sound && i < |outs| ==> u !in ts[i]
    ensures Unique(ts[0]) ==> Unique(ts[i])
  {
    hide Attempt, Unique, Frame, Evicted, WhollyTaken, PoolCovered;
    if i == 0 {
      NothingChanges(cfg, ts[0], u, single, now);
    } else {
      RunFrame(cfg, ts, outs, u, single, now, sound, i - 1);
      AttemptFrame(cfg, ts[i - 1], ts[i], u, single, now, outs[i - 1], sound);
      FramesCompose(cfg, ts[0], ts[i - 1], ts[i], u, single, now);
      if u !in ts[0] && Evicted(ts[i - 1], ts[i], u) {
        CoveredFromStart(cfg, ts[0], ts[i - 1], u, single, now, sound);
      }
      if Unique(ts[i - 1]) {
        AttemptKeepsUnique(cfg, ts[i - 1], ts[i], u, single, now, outs[i - 1], sound);
      }
    }
  }

  lemma NothingChanges(cfg: Config, t: Table, u: string, single: bool, now: int)
    ensures Frame(cfg, t, t, u, single, now) && !Evicted(t, t, u)
    ensures Frame(cfg, t, t - {u}, u, single, now) && !Evicted(t, t - {u}, u)
  {
  }

  /** On every table and whatever faults occur, an acquire deletes rows of other hosts only when rows hold the whole
      class, only expired ones of that class, and the ones renewed earliest first. */
  lemma AcquireFrame(cfg: Config, t: Table, t': Table, u: string, single: bool, now: int, out: Outcome, sound: bool)
    requires Acquires(cfg, t, t', u, single, now, out, sound)
    ensures Frame(cfg, t, t', u, single, now)
    ensures Evicted(t, t', u) ==> WhollyTaken(cfg, t - {u}, single, sound)
    ensures Unique(t) ==> Unique(t')
  {
    hide ParseIPv4, Attempt, Frame, Evicted, WhollyTaken;
    NothingChanges(cfg, t, u, single, now);
    if Retries(cfg, t - {u}, t', u, single, now, out, sound) {
      var ts, outs :|
        && AttemptRun(cfg, ts, outs, u, single, now, sound)
        && ts[0] == t - {u} && ts[|outs|] == t' && out == LastOutcome(outs)
        && (out.Leased? || |outs| == cfg.attempts);
      RunFrame(cfg, ts, outs, u, single, now, sound, |outs|);
      FramesCompose(cfg, t, t - {u}, t', u, single, now);
    }
  }

  /** Whatever faults occur, a renewal changes nothing but the row of its own host, which it only
      adds or dates. */
  lemma RenewFrame(t: Table, t': Table, l: Lease, now: int, res: RenewResult, sound: bool)
    requires Renews(t, t', l, now, res, sound)
    ensures Keeps(t, t', l.underlayIP) && Keeps(t', t, l.underlayIP)
    ensures l.underlayIP in t ==> l.underlayIP in t' && LeaseOf(t', l.underlayIP) == LeaseOf(t, l.underlayIP)
    ensures l.underlayIP in t && t' != t ==> t' == Touch(t, l.underlayIP, now)
    ensures res == Renewed ==> l.underlayIP in t' && LeaseOf(t', l.underlayIP) == l && t'[l.underlayIP].renewed == now
  {
    hide WellFormed, Insertable;
  }

  lemma RenewKeepsUnique(t: Table, t': Table, l: Lease, now: int, res: RenewResult, sound: bool)
    requires Renews(t, t', l, now, res, sound) && Unique(t)
    ensures Unique(t')
  {
    hide WellFormed;
    if Insertable(t, l) {
      InsertKeepsUnique(t, l, now);
    }
  }

  /** A renewal is not checked against the pool: a healthy table stays healthy exactly if the renewal does not insert,
      or inserts a pool member with its derived hardware address. */
  lemma RenewKeepsHealthyIff(cfg: Config, t: Table, l: Lease, now: int)
    requires Healthy(cfg, t)
    ensures Healthy(cfg, RenewAnswer(t, l, now).0) <==>
      (WellFormed(l) && Insertable(t, l) ==> PoolLease(cfg, l.overlaySubnet, l.hardwareAddr))
  {
    hide ParseIP, ParseCidr, ParseMac, PoolLease, FitsColumns, Unique;
    var t' := RenewAnswer(t, l, now).0;
    RenewKeepsUnique(t, t', l, now, RenewAnswer(t, l, now).1, true);
    if WellFormed(l) && Insertable(t, l) {
      assert LeaseOf(t', l.underlayIP) == l;
    }
  }
}
