/** When a host is refused a lease, for every configuration of the pool and every text a host may go by. */
module Completeness {
  import opened Wrappers
  import opened Addressing
  import opened Text
  import opened IPText
  import opened CidrPool
  import opened LeaseTable
  import opened LeaseProtocol
  import opened Leasing
  import opened HardwareAddr

  // ---------- the right answer ----------

  /** Unexpired rows hold every pool member of the class. */
  ghost predicate ClassIsHeld(cfg: Config, t: Table, single: bool, now: int) {
    forall s :: s in cfg.pool.Class(single) ==>
      exists v :: v in t && t[v].subnet == s && !Expired(t[v], cfg.expiration, now)
  }

  /** What an attempt finds when there is nothing to give. */
  ghost predicate Exhausted(cfg: Config, t: Table, single: bool, now: int) {
    PoolCovered(cfg, t, single) && NoneExpired(t, single, cfg.expiration, now)
  }

  lemma ExhaustedIsHeld(cfg: Config, net: Cidr, mask: PrefixLen, t: Table, single: bool, now: int)
    requires Built(cfg, net, mask) && Healthy(cfg, t)
    ensures Exhausted(cfg, t, single, now) <==> ClassIsHeld(cfg, t, single, now)
  {
    hide IsSingle, Built, PoolLease;
    TakenOnHealthy(cfg, net, mask, t, single);
    if Exhausted(cfg, t, single, now) {
      forall s | s in cfg.pool.Class(single)
        ensures exists v :: v in t && t[v].subnet == s && !Expired(t[v], cfg.expiration, now)
      {
        assert s in Taken(t, single);
        var v :| v in t && IsSingle(t[v].subnet) == single && t[v].subnet == s;
      }
    }
    if ClassIsHeld(cfg, t, single, now) {
      forall v | v in t && IsSingle(t[v].subnet) == single ensures !Expired(t[v], cfg.expiration, now) {
        assert t[v].subnet in Taken(t, single);
      }
    }
  }

  /** The right answer: no lease exactly if the class is held, a failure exactly if it is not and the text of the
      host is too long for its column, and otherwise a new row of the class. */
  ghost predicate AnswersRightly(cfg: Config, t: Table, t': Table, u: string, single: bool, now: int, out: Outcome) {
    && (out == NoLease <==> ClassIsHeld(cfg, t, single, now))
    && (out == Failed <==> |u| > 15 && !ClassIsHeld(cfg, t, single, now))
    && (out.Leased? ==>
          && u in t' && LeaseOf(t', u) == out.lease && t'[u].renewed == now
          && out.lease.overlaySubnet in cfg.pool.Class(single))
  }

  /** Allocation is complete: a host without a row is refused exactly when unexpired rows hold every pool member of
      the class it asked for, and fails only over a text too long for its column. */
  lemma AcquireIsComplete(cfg: Config, net: Cidr, mask: PrefixLen, t: Table, t': Table, u: string, single: bool,
                          now: int, out: Outcome)
    requires Built(cfg, net, mask) && Healthy(cfg, t)
    requires ParseIPv4(u).Some? && u !in t
    requires Acquires(cfg, t, t', u, single, now, out, true)
    ensures AnswersRightly(cfg, t, t', u, single, now, out)
  {
    hide ParseIPv4, HwAddrFor, IsSingle, Acquires, Insertable, Built, Healthy, ClassIsHeld, PoolCovered, Taken,
         ExpiredOfClass;
    ExhaustedIsHeld(cfg, net, mask, t, single, now);
    if |u| > 15 {
      LongHostIsRefused(cfg, net, mask, t, t', u, single, now, out);
    } else {
      AcquireIsDecided(cfg, net, mask, t, t', u, single, now, out);
      if out.Leased? {
        var c :| CanChoose(cfg, t, single, now, c) && GrantLease(t, u, c) == Some(out.lease)
                 && GrantTable(t, u, now, c) == Some(t');
        GrantIsOfClass(cfg, net, mask, t, u, single, now, c);
      }
    }
  }

  lemma GrantIsOfClass(cfg: Config, net: Cidr, mask: PrefixLen, t: Table, u: string, single: bool, now: int, c: Choice)
    requires Built(cfg, net, mask) && Healthy(cfg, t) && CanChoose(cfg, t, single, now, c)
    ensures var s := if c.Free? then c.subnet else t[c.victim].subnet; s in cfg.pool.Class(single)
    ensures !Exhausted(cfg, t, single, now)
  {
    hide Built, PoolLease, IsSingle, Unique;
    TakenOnHealthy(cfg, net, mask, t, single);
    if c.Reclaim? { assert t[c.victim].subnet in Taken(t, single); }
  }

  // ---------- hosts whose text does not fit ----------

  /** One attempt for such a host: it changes nothing but what it evicts, and after an eviction there is a free
      member. */
  lemma LongHostAttempt(cfg: Config, net: Cidr, mask: PrefixLen, t: Table, t': Table, u: string, single: bool,
                        now: int, out: Outcome)
    requires Built(cfg, net, mask) && Healthy(cfg, t) && |u| > 15
    requires Attempt(cfg, t, t', u, single, now, out, true)
    ensures out == (if Exhausted(cfg, t, single, now) then NoLease else Failed)
    ensures Healthy(cfg, t')
    ensures t' == t || (Evicts(cfg, t, t', single, now) && !PoolCovered(cfg, t', single))
  {
    hide HwAddrFor, IsSingle, Built, PoolLease, ParseIP, Unique, Taken;
    if out == Failed {
      var c :| CanChoose(cfg, t, single, now, c) && GrantTable(t, u, now, c).None? && t' == Cleared(t, c);
      assert Healthy(cfg, t') by { DroppingKeepsUnique(t, if c.Reclaim? then c.victim else u); }
      if c.Reclaim? {
        EvictedMemberIsFree(cfg, net, mask, t, c.victim, single);
      }
    }
  }

  lemma DroppingKeepsUnique(t: Table, v: string)
    requires Unique(t)
    ensures Unique(t - {v})
  {
  }

  lemma EvictedMemberIsFree(cfg: Config, net: Cidr, mask: PrefixLen, t: Table, v: string, single: bool)
    requires Built(cfg, net, mask) && Healthy(cfg, t) && v in t && IsSingle(t[v].subnet) == single
    ensures !PoolCovered(cfg, t - {v}, single)
  {
    hide Built, PoolLease, ParseIP, IsSingle;
    TakenOnHealthy(cfg, net, mask, t, single);
    var s := t[v].subnet;
    assert s in Taken(t, single) && s !in Taken(t - {v}, single);
  }

  ghost predicate Evicts(cfg: Config, t: Table, t': Table, single: bool, now: int) {
    exists v :: PoolCovered(cfg, t, single) && OldestExpired(t, single, cfg.expiration, now, v) && t' == t - {v}
  }

  lemma {:induction false} LongHostRounds(cfg: Config, net: Cidr, mask: PrefixLen, ts: seq<Table>, outs: seq<Outcome>,
                                          u: string, single: bool, now: int, i: nat)
    requires Built(cfg, net, mask) && ts != [] && Healthy(cfg, ts[0]) && |u| > 15
    requires AttemptRun(cfg, ts, outs, u, single, now, true) && i <= |outs|
    ensures Healthy(cfg, ts[i])
    ensures ts[i] == ts[0] || (Evicts(cfg, ts[0], ts[i], single, now) && !PoolCovered(cfg, ts[i], single))
    ensures i > 0 ==> outs[i - 1] == if Exhausted(cfg, ts[0], single, now) then NoLease else Failed
  {
    hide Attempt, Healthy, Built, PoolCovered, NoneExpired, OldestExpired;
    if i > 0 {
      LongHostRounds(cfg, net, mask, ts, outs, u, single, now, i - 1);
      LongHostAttempt(cfg, net, mask, ts[i - 1], ts[i], u, single, now, outs[i - 1]);
      if ts[i - 1] != ts[0] {
        EvictionFindsExpired(cfg, ts[0], ts[i - 1], single, now);
      }
    }
  }

  lemma EvictionFindsExpired(cfg: Config, t: Table, t': Table, single: bool, now: int)
    requires Evicts(cfg, t, t', single, now)
    ensures !Exhausted(cfg, t, single, now)
  {
  }

  /** A host whose text has more than 15 characters, such as ::ffff:192.168.100.100, never gets a lease; each of its
      acquires may still cost another host an expired row, but one at most. */
  lemma LongHostIsRefused(cfg: Config, net: Cidr, mask: PrefixLen, t: Table, t': Table, u: string, single: bool,
                          now: int, out: Outcome)
    requires Built(cfg, net, mask) && Healthy(cfg, t)
    requires ParseIPv4(u).Some? && |u| > 15 && u !in t
    requires Acquires(cfg, t, t', u, single, now, out, true)
    ensures out == if ClassIsHeld(cfg, t, single, now) then NoLease else Failed
    ensures t' == t || Evicts(cfg, t, t', single, now)
  {
    hide ParseIPv4, Attempt, Healthy, Built, PoolCovered, NoneExpired, ClassIsHeld, Evicts;
    assert t - {u} == t;
    var ts, outs :|
      && AttemptRun(cfg, ts, outs, u, single, now, true)
      && ts[0] == t && ts[|outs|] == t' && out == LastOutcome(outs)
      && (out.Leased? || |outs| == cfg.attempts);
    assert |outs| > 0 by { BuiltTries(cfg, net, mask); }
    LongHostRounds(cfg, net, mask, ts, outs, u, single, now, |outs|);
    ExhaustedIsHeld(cfg, net, mask, t, single, now);
  }

  /** One host may be given two rows: while it has an active row under one text, and members of the class are left,
      another text of its address is given a row of its own exactly if it fits the column. */
  lemma HostGetsSecondRow(cfg: Config, net: Cidr, mask: PrefixLen, t: Table, t': Table, u: string, v: string,
                          single: bool, now: int, out: Outcome)
    requires Built(cfg, net, mask) && Healthy(cfg, t) && !ClassIsHeld(cfg, t, single, now)
    requires ParseIPv4(u).Some? && ParseIPv4(u) == ParseIPv4(v)
    requires v in t && !Expired(t[v], cfg.expiration, now) && u !in t
    requires Acquires(cfg, t, t', u, single, now, out, true)
    ensures v in t' && t'[v] == t[v]
    ensures u in t' && out.Leased? <==> |u| <= 15
  {
    hide ParseIPv4, Acquires, Healthy, Built, ClassIsHeld, ExpiredOfClass;
    AcquireIsComplete(cfg, net, mask, t, t', u, single, now, out);
    AcquireFrame(cfg, t, t', u, single, now, out, true);
    ActiveIsKept(t[v], single, cfg.expiration, now);
  }

  lemma ActiveIsKept(r: Row, single: bool, expiration: int, now: int)
    requires !Expired(r, expiration, now)
    ensures !ExpiredOfClass(r, single, expiration, now)
  {
  }

  /** Only a text in IPv6 notation can do that: two rows of one address do not both have dotted keys. */
  lemma TextsOfOneHost(u: string, v: string)
    requires u != v && ParseIPv4(u).Some? && ParseIPv4(u) == ParseIPv4(v)
    ensures ':' in u || ':' in v
  {
    hide ParseIPv4, PrintIP;
    IPTextIsCanonical(u);
    IPTextIsCanonical(v);
  }

  // ---------- blocks of one address ----------

  /** With blocks of one address the class query for blocks never sees them, since their text ends like that of a
      single address; and there are no single addresses. */
  lemma OneAddressBlocksAreUnseen(cfg: Config, net: Cidr, t: Table)
    requires cfg.pool == MakePool(net, 32) && net.len < 32
    ensures cfg.pool.singles == {} && cfg.pool.blocks != {}
    ensures forall s :: s in cfg.pool.blocks ==> IsSingle(s) && s !in Taken(t, false)
    ensures !PoolCovered(cfg, t, false)
  {
    hide ParseCidr, PrintCidr, EndsInSlash32, MakePool;
    PoolSizes(net, 32);
    ShlAdds(1, 0, 31 - net.len);
    forall s | s in cfg.pool.blocks ensures IsSingle(s) {
      var k := BlocksAre(net, 32, s);
      CidrRoundTrip(ParseCidr(s).value);
    }
    var s :| s in cfg.pool.blocks;
  }

  lemma {:induction false} HeldOneAddressRounds(cfg: Config, net: Cidr, ts: seq<Table>, outs: seq<Outcome>, u: string,
                                                now: int, i: nat)
    requires cfg.pool == MakePool(net, 32) && net.len < 32
    requires AttemptRun(cfg, ts, outs, u, false, now, true) && i <= |outs|
    requires forall s :: s in cfg.pool.blocks ==> exists v :: v in ts[0] && ts[0][v].subnet == s
    ensures ts[i] == ts[0] && forall j :: 0 <= j < i ==> outs[j] == Failed
  {
    hide HwAddrFor, IsSingle, PoolCovered, FitsColumns, MakePool;
    if i > 0 {
      HeldOneAddressRounds(cfg, net, ts, outs, u, now, i - 1);
      OneAddressBlocksAreUnseen(cfg, net, ts[0]);
      assert Attempt(cfg, ts[i - 1], ts[i], u, false, now, outs[i - 1], true);
    }
  }

  /** With a mask of 32, once every block is held, expired or not, a request for a block fails on the unique columns,
      reclaims nothing and is never told that no lease is left. */
  lemma OneAddressBlockRequestFails(cfg: Config, net: Cidr, t: Table, t': Table, u: string, now: int, out: Outcome)
    requires cfg.pool == MakePool(net, 32) && net.len < 32 && 1 <= cfg.attempts
    requires ParseIPv4(u).Some? && u !in t
    requires forall s :: s in cfg.pool.blocks ==> exists v :: v in t && t[v].subnet == s
    requires Acquires(cfg, t, t', u, false, now, out, true)
    ensures out == Failed && t' == t
  {
    hide ParseIPv4, Attempt, MakePool;
    assert t - {u} == t;
    var ts, outs :|
      && AttemptRun(cfg, ts, outs, u, false, now, true)
      && ts[0] == t && ts[|outs|] == t' && out == LastOutcome(outs)
      && (out.Leased? || |outs| == cfg.attempts);
    HeldOneAddressRounds(cfg, net, ts, outs, u, now, |outs|);
  }

  /** And a request for a single address, of which there are none, takes over an expired block instead. */
  lemma SingleRequestTakesBlock(cfg: Config, net: Cidr, v: string, u: string, s: string, now: int)
    requires cfg.pool == MakePool(net, 32) && net.len < 32 && 1 <= cfg.attempts
    requires ParseIP(v).Some? && ParseIPv4(u).Some? && |u| <= 15 && u != v
    requires s in cfg.pool.blocks && cfg.expiration <= now
    ensures HwAddrFor(s).Some?
    ensures var h := HwAddrFor(s).value;
      && Healthy(cfg, map[v := Row(s, h, 0)])
      && Acquires(cfg, map[v := Row(s, h, 0)], map[u := Row(s, h, now)], u, true, now, Leased(Lease(u, s, h)), true)
  {
    hide ParseIP, ParseIPv4, IsSingle, MakePool, HwAddrFor, ParseCidr, PrintCidr;
    OneAddressHwAddr(cfg, net, s);
    var h := HwAddrFor(s).value;
    var l, t, t' := Lease(u, s, h), map[v := Row(s, h, 0)], map[u := Row(s, h, now)];
    OneAddressBlocksAreUnseen(cfg, net, t);
    assert CanChoose(cfg, t, true, now, Reclaim(v));
    assert t - {v} == map[] && t - {u} == t;
    assert Insert(map[], l, now) == Some(t');
    assert Attempt(cfg, t, t', u, true, now, Leased(l), true);
    var ts, outs := [t, t'], [Leased(l)];
    assert AttemptRun(cfg, ts, outs, u, true, now, true) && ts[|outs|] == t';
    assert Retries(cfg, t, t', u, true, now, Leased(l), true);
  }

  lemma OneAddressHwAddr(cfg: Config, net: Cidr, s: string)
    requires cfg.pool == MakePool(net, 32) && s in cfg.pool.blocks
    ensures HwAddrFor(s).Some? && |HwAddrFor(s).value| == 17 && |s| <= 18
  {
    hide ParseCidr, PrintCidr, MakePool, HwAddrFor, PrintMac, VtepMac, EndsInSlash32;
    MemberParses(net, 32, s);
    DottedHwAddr(s);
    MacRoundTrip(VtepMac(ParseCidr(s).value.addr));
  }

  /** Every acquire of a host without a row is answered rightly, on every healthy table. */
  ghost predicate Complete(cfg: Config) {
    forall t, t', u, single, now, out ::
      Healthy(cfg, t) && ParseIPv4(u).Some? && u !in t && Acquires(cfg, t, t', u, single, now, out, true) ==>
        AnswersRightly(cfg, t, t', u, single, now, out)
  }

  lemma EmptyPoolAnswers(cfg: Config, t: Table, t': Table, u: string, single: bool, now: int, out: Outcome)
    requires cfg.pool.blocks == {} && cfg.pool.singles == {} && 1 <= cfg.attempts
    requires Healthy(cfg, t) && ParseIPv4(u).Some? && Acquires(cfg, t, t', u, single, now, out, true)
    ensures AnswersRightly(cfg, t, t', u, single, now, out)
  {
    hide ParseIPv4, ParseIP, HwAddrFor, IsSingle;
    assert forall v :: v in t ==> PoolLease(cfg, t[v].subnet, t[v].hwaddr);
    assert t == map[];
    var ts, outs :|
      && AttemptRun(cfg, ts, outs, u, single, now, true)
      && ts[0] == map[] && ts[|outs|] == t' && out == LastOutcome(outs)
      && (out.Leased? || |outs| == cfg.attempts);
    EmptyPoolRounds(cfg, ts, outs, u, single, now, |outs|);
  }

  lemma {:induction false} EmptyPoolRounds(cfg: Config, ts: seq<Table>, outs: seq<Outcome>, u: string, single: bool,
                                           now: int, i: nat)
    requires cfg.pool.blocks == {} && cfg.pool.singles == {}
    requires AttemptRun(cfg, ts, outs, u, single, now, true) && ts[0] == map[] && i <= |outs|
    ensures ts[i] == map[] && forall j :: 0 <= j < i ==> outs[j] == NoLease
  {
    hide HwAddrFor, IsSingle;
    if i > 0 {
      EmptyPoolRounds(cfg, ts, outs, u, single, now, i - 1);
      assert Attempt(cfg, ts[i - 1], ts[i], u, single, now, outs[i - 1], true);
    }
  }

  /** Allocation is complete exactly when blocks are longer than one address or the network is a single address. */
  lemma CompleteIff(cfg: Config, net: Cidr, mask: PrefixLen)
    requires net.len <= mask && cfg.pool == MakePool(net, mask) && 1 <= cfg.attempts
    ensures Complete(cfg) <==> mask < 32 || net.len == 32
  {
    hide ParseIPv4, Healthy, Acquires, AnswersRightly, MakePool;
    if mask < 32 {
      forall t, t', u, single, now, out |
        Healthy(cfg, t) && ParseIPv4(u).Some? && u !in t && Acquires(cfg, t, t', u, single, now, out, true)
        ensures AnswersRightly(cfg, t, t', u, single, now, out)
      {
        AcquireIsComplete(cfg, net, mask, t, t', u, single, now, out);
      }
    } else if net.len == 32 {
      SingleAddressPool(net);
      forall t, t', u, single, now, out |
        Healthy(cfg, t) && ParseIPv4(u).Some? && u !in t && Acquires(cfg, t, t', u, single, now, out, true)
        ensures AnswersRightly(cfg, t, t', u, single, now, out)
      {
        EmptyPoolAnswers(cfg, t, t', u, single, now, out);
      }
    } else {
      OneAddressBlocksAreIncomplete(cfg, net);
    }
  }

  lemma OneAddressBlocksAreIncomplete(cfg: Config, net: Cidr)
    requires cfg.pool == MakePool(net, 32) && net.len < 32 && 1 <= cfg.attempts
    ensures !Complete(cfg)
  {
    hide ParseIPv4, Healthy, Acquires, AnswersRightly, MakePool, HwAddrFor, PrintIP, ParseIP, IsSingle, PoolCovered;
    OneAddressBlocksAreUnseen(cfg, net, map[]);
    var s :| s in cfg.pool.blocks;
    var u, v, now := PrintIP(0), PrintIP(1), cfg.expiration;
    TwoHosts();
    SingleRequestTakesBlock(cfg, net, v, u, s, now);
    var h := HwAddrFor(s).value;
    var t, t' := map[v := Row(s, h, 0)], map[u := Row(s, h, now)];
    GrantOutsideClass(cfg, t, t', u, s, h, now);
  }

  lemma TwoHosts()
    ensures ParseIPv4(PrintIP(0)) == Some(0) && ParseIP(PrintIP(1)).Some? && PrintIP(0) != PrintIP(1)
            && |PrintIP(0)| <= 15
  {
    hide ParseIP, PrintIP;
    AddressHasTwoTexts(0);
    AddressHasTwoTexts(1);
  }

  lemma GrantOutsideClass(cfg: Config, t: Table, t': Table, u: string, s: string, h: string, now: int)
    requires cfg.pool.singles == {}
    ensures !AnswersRightly(cfg, t, t', u, true, now, Leased(Lease(u, s, h)))
  {
  }

  lemma SingleAddressPool(net: Cidr)
    requires net.len == 32
    ensures MakePool(net, 32) == Pool({}, {})
  {
    hide PrintCidr;
  }
}
