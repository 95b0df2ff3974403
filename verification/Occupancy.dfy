/** Healthy tables in which hosts hold every block, for every pool. */
module Occupancy {
  import opened Addressing
  import opened Text
  import opened IPText
  import opened HardwareAddr
  import opened CidrPool
  import opened LeaseTable
  import opened LeaseProtocol
  import opened Leasing

  /** Host k holds block k, for every k below n. */
  function Occupied(net: Cidr, mask: PrefixLen, n: nat): Table
    requires net.len <= mask && n <= BlockCount(net.len, mask)
  {
    if n <= 1 then map[] else Occupied(net, mask, n - 1)[Occupant(net, mask, n - 1) := OccupiedRow(net, mask, n - 1)]
  }

  function Occupant(net: Cidr, mask: PrefixLen, k: nat): string
    requires net.len <= mask && k < BlockCount(net.len, mask)
  {
    BlockAt(net, mask, k);
    ShlAdds(k, 0, 32 - mask);
    PrintIP(k)
  }

  function OccupiedRow(net: Cidr, mask: PrefixLen, k: nat): Row {
    Row(BlockText(net.Base(), mask, k), PrintMac(VtepMac(IPAdd(net.Base(), Shl(k, 32 - mask)))), 0)
  }

  lemma OccupantsDiffer(net: Cidr, mask: PrefixLen, k: nat, l: nat)
    requires net.len <= mask && k < l < BlockCount(net.len, mask)
    ensures Occupant(net, mask, k) != Occupant(net, mask, l)
    ensures OccupiedRow(net, mask, k).subnet != OccupiedRow(net, mask, l).subnet
    ensures OccupiedRow(net, mask, k).hwaddr != OccupiedRow(net, mask, l).hwaddr
  {
    hide PrintIP, ParseIP, PrintCidr, PrintMac, VtepMac, Shl, Shr;
    BlockAt(net, mask, k);
    BlockAt(net, mask, l);
    ShlAdds(k, 0, 32 - mask);
    ShlAdds(l, 0, 32 - mask);
    ShlMonotone(k, l, 32 - mask);
    BlockTextsDiffer(net, mask, k, l);
    AddressHasTwoTexts(k);
    AddressHasTwoTexts(l);
    if OccupiedRow(net, mask, k).hwaddr == OccupiedRow(net, mask, l).hwaddr {
      VtepMacInjective(IPAdd(net.Base(), Shl(k, 32 - mask)), IPAdd(net.Base(), Shl(l, 32 - mask)));
    }
  }

  lemma OccupiedLease(cfg: Config, net: Cidr, mask: PrefixLen, k: nat)
    requires net.len <= mask && cfg.pool == MakePool(net, mask) && 1 <= k < BlockCount(net.len, mask)
    ensures ParseIP(Occupant(net, mask, k)).Some?
    ensures PoolLease(cfg, OccupiedRow(net, mask, k).subnet, OccupiedRow(net, mask, k).hwaddr)
  {
    hide PrintIP, ParseIP, PrintCidr, ParseCidr, PrintMac, VtepMac, HwAddrFor, Shl, Shr;
    BlockAt(net, mask, k);
    ShlAdds(k, 0, 32 - mask);
    AddressHasTwoTexts(k);
    BlockNamesAre(net.Base(), mask, BlockCount(net.len, mask), BlockText(net.Base(), mask, k));
    CidrRoundTrip(Cidr(IPAdd(net.Base(), Shl(k, 32 - mask)), mask));
    DottedHwAddr(BlockText(net.Base(), mask, k));
  }

  lemma HealthyGrows(cfg: Config, t: Table, u: string, r: Row)
    requires Healthy(cfg, t) && ParseIP(u).Some? && PoolLease(cfg, r.subnet, r.hwaddr)
    requires forall v :: v in t ==> v != u && t[v].subnet != r.subnet && t[v].hwaddr != r.hwaddr
    ensures Healthy(cfg, t[u := r])
  {
    hide ParseIP, PoolLease;
  }

  lemma NothingIsHealthy(cfg: Config)
    ensures Healthy(cfg, map[])
  {
  }

  /** So there are healthy tables that hold every block. */
  lemma {:induction false} OccupiedIsHealthy(cfg: Config, net: Cidr, mask: PrefixLen, n: nat)
    requires net.len <= mask && cfg.pool == MakePool(net, mask) && n <= BlockCount(net.len, mask)
    ensures Healthy(cfg, Occupied(net, mask, n))
    ensures forall u :: u in Occupied(net, mask, n) ==> exists k: nat :: IsOccupant(net, mask, n, k, u)
    ensures forall s :: s in BlockNames(net.Base(), mask, n) ==>
      exists v :: v in Occupied(net, mask, n) && Occupied(net, mask, n)[v].subnet == s
  {
    hide ParseIP, PoolLease, MakePool, Occupant, OccupiedRow, BlockText, BlockCount, Healthy;
    if n <= 1 {
      NothingIsHealthy(cfg);
    } else {
      OccupiedIsHealthy(cfg, net, mask, n - 1);
      var t, u, r := Occupied(net, mask, n - 1), Occupant(net, mask, n - 1), OccupiedRow(net, mask, n - 1);
      assert r.subnet == BlockText(net.Base(), mask, n - 1) by { OccupiedSubnet(net, mask, n - 1); }
      OccupiedLease(cfg, net, mask, n - 1);
      forall v | v in t ensures v != u && t[v].subnet != r.subnet && t[v].hwaddr != r.hwaddr {
        var k: nat :| IsOccupant(net, mask, n - 1, k, v);
        OccupantsDiffer(net, mask, k, n - 1);
      }
      HealthyGrows(cfg, t, u, r);
      forall v | v in Occupied(net, mask, n) ensures exists k: nat :: IsOccupant(net, mask, n, k, v) {
        if v in t {
          var k: nat :| IsOccupant(net, mask, n - 1, k, v);
          assert IsOccupant(net, mask, n, k, v);
        } else {
          assert IsOccupant(net, mask, n, n - 1, v);
        }
      }
      forall s | s in BlockNames(net.Base(), mask, n)
        ensures exists v :: v in Occupied(net, mask, n) && Occupied(net, mask, n)[v].subnet == s
      {
        if s in BlockNames(net.Base(), mask, n - 1) {
          var v :| v in t && t[v].subnet == s;
          assert Occupied(net, mask, n)[v].subnet == s;
        } else {
          assert Occupied(net, mask, n)[u].subnet == s;
        }
      }
    }
  }

  ghost predicate IsOccupant(net: Cidr, mask: PrefixLen, n: nat, k: nat, u: string)
    requires net.len <= mask && n <= BlockCount(net.len, mask)
  {
    && 1 <= k < n && u == Occupant(net, mask, k)
    && u in Occupied(net, mask, n) && Occupied(net, mask, n)[u] == OccupiedRow(net, mask, k)
  }

  lemma OccupiedSubnet(net: Cidr, mask: PrefixLen, k: nat)
    ensures OccupiedRow(net, mask, k).subnet == BlockText(net.Base(), mask, k)
  {
  }
}
