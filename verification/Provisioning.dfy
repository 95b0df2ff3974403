/** What a start of the daemon asks of the controller and which device it leaves, in terms of its configuration. */
module Provisioning {
  import opened Wrappers
  import opened Addressing
  import opened Text
  import opened IPText
  import opened LeaseTable
  import opened LeaseProtocol
  import opened Leasing
  import opened Completeness
  import opened CidrPool
  import opened Vtep
  import opened Startup

  // ---------- which lease is asked for ----------

  /** The two worlds answer alike, except perhaps to acquire requests for the class that is not configured. */
  ghost predicate AnswerAlike(cc: ClientConfig, w1: World, w2: World) {
    && w1.containers == w2.containers && w1.renew == w2.renew && w1.os == w2.os
    && forall n :: w1.acquire(n, cc.singleIPOnly) == w2.acquire(n, cc.singleIPOnly)
  }

  /** A start only ever asks for the class of lease that is configured. */
  lemma OnlyConfiguredClassMatters(cc: ClientConfig, w1: World, w2: World, mtu: int, links: map<string, Link>)
    requires AnswerAlike(cc, w1, w2)
    ensures Starts(cc, w1, mtu, links) == Starts(cc, w2, mtu, links)
  {
    hide ParseCidr, CreateConfig, LinkFor, StateOf, LeaseFromState;
  }

  function LeaseIn(out: Outcome): Option<Lease> {
    match out
    case Leased(l) => Some(l)
    case _ => None
  }

  /** On the first start of a host without a row, the lease the daemon goes on with is a pool member of the configured
      class, one address or a block, and the table holds it under the host's address. */
  lemma FirstStartTakesClass(cfg: Config, net: Cidr, mask: PrefixLen, t: Table, now: int, cc: ClientConfig, w: World,
                             answers: bool -> (Table, Outcome), mtu: int, links: map<string, Link>, l: Lease)
    requires Built(cfg, net, mask) && Healthy(cfg, t) && ParseIPv4(cc.underlayIP).Some? && cc.underlayIP !in t
    requires forall single ::
      && Acquires(cfg, t, answers(single).0, cc.underlayIP, single, now, answers(single).1, true)
      && w.acquire(0, single) == LeaseIn(answers(single).1)
    requires StateOf(links, cc.vtepName).None? && Starts(cc, w, mtu, links).lease == Some(l)
    ensures l.underlayIP == cc.underlayIP && l.overlaySubnet in cfg.pool.Class(cc.singleIPOnly)
    ensures ParseCidr(l.overlaySubnet).Some? && (ParseCidr(l.overlaySubnet).value.len == 32 <==> cc.singleIPOnly)
    ensures var t' := answers(cc.singleIPOnly).0;
      cc.underlayIP in t' && t'[cc.underlayIP] == Row(l.overlaySubnet, l.hardwareAddr, now)
  {
    hide ParseCidr, ParseIPv4, CreateConfig, LinkFor, Built, Healthy, Acquires, MakePool, IsSingle, EndsInSlash32;
    var single := cc.singleIPOnly;
    var t', out := answers(single).0, answers(single).1;
    AcquireIsComplete(cfg, net, mask, t, t', cc.underlayIP, single, now, out);
    assert Acquired(cc, w, mtu, 0, links).lease == Some(l);
    MemberOfClass(cfg, net, mask, l.overlaySubnet, single);
  }

  lemma MemberOfClass(cfg: Config, net: Cidr, mask: PrefixLen, s: string, single: bool)
    requires Built(cfg, net, mask) && s in cfg.pool.Class(single)
    ensures ParseCidr(s).Some? && (ParseCidr(s).value.len == 32 <==> single)
  {
    hide ParseCidr, MakePool, EndsInSlash32;
    MemberParses(net, mask, s);
    CidrRoundTrip(ParseCidr(s).value);
  }

  // ---------- which device is left ----------

  /** The interface the tunnel runs over: the named one, or one that has the underlay address. */
  ghost predicate RunsOver(os: Interfaces, cc: ClientConfig, index: int, underlay: IP) {
    if cc.vxlanInterfaceName != "" then
      cc.vxlanInterfaceName in os.byName && os.byName[cc.vxlanInterfaceName].index == index
    else
      os.all.Some? && exists i :: i in os.all.value && i.index == index && HasAddress(i, underlay)
  }

  /** The device as the configuration and the lease describe it: up, with the configured network identifier and port, on
      the underlay address, and with the address of the lease and the prefix length of the overlay network. */
  ghost predicate ConfiguredDevice(os: Interfaces, cc: ClientConfig, l: Lease, mtu: int, d: Link) {
    && d.up && d.mtu == mtu && d.vni == cc.vni && d.port == cc.vtepPort && 1 <= d.port
    && ParseIP(cc.underlayIP) == Some(d.src) && RunsOver(os, cc, d.device, d.src)
    && ParseMac(l.hardwareAddr) == Some(d.mac)
    && ParseCidr(l.overlaySubnet).Some? && ParseCidr(cc.overlayNetwork).Some?
    && d.addrs == [Cidr(ParseCidr(l.overlaySubnet).value.addr, ParseCidr(cc.overlayNetwork).value.len)]
    && ParseCidr(cc.overlayNetwork).value.len < cc.subnetPrefixLength
  }

  lemma DeviceIsConfigured(os: Interfaces, cc: ClientConfig, l: Lease, mtu: int)
    requires CreateConfig(os, cc, l).Some?
    ensures ConfiguredDevice(os, cc, l, mtu, LinkFor(CreateConfig(os, cc, l).value, mtu))
  {
    hide ParseCidr, ParseMac, ParseIP, HasAddress, Located;
    if os.all.Some? {
      LocatedHasAddress(os.all.value, ParseIP(cc.underlayIP).value);
    }
  }

  /** The device found at the start is kept, with the lease it stands for, which lies in the overlay network. */
  ghost predicate KeepsDevice(cc: ClientConfig, w: World, links: map<string, Link>, s: Start) {
    && s.links == links && StateOf(links, cc.vtepName).Some?
    && s.lease == Some(LeaseFromState(cc, StateOf(links, cc.vtepName).value))
    && w.renew(s.lease.value) == Renewed
    && ParseCidr(cc.overlayNetwork).Some? && ParseCidr(s.lease.value.overlaySubnet).Some?
    && ParseCidr(cc.overlayNetwork).value.Contains(ParseCidr(s.lease.value.overlaySubnet).value.Base())
  }

  /** A device is made for a lease that was just acquired; other devices are left alone. */
  ghost predicate MakesDevice(cc: ClientConfig, w: World, mtu: int, links: map<string, Link>, s: Start) {
    && s.lease.Some? && cc.healthCheckPort != 0
    && (w.acquire(0, cc.singleIPOnly) == s.lease || w.acquire(1, cc.singleIPOnly) == s.lease)
    && s.links - {cc.vtepName} == links - {cc.vtepName}
    && cc.vtepName in s.links && ConfiguredDevice(w.os, cc, s.lease.value, mtu, s.links[cc.vtepName])
  }

  lemma AcquiredMakesDevice(cc: ClientConfig, w: World, mtu: int, n: nat, links: map<string, Link>)
    requires n <= 1 && Acquired(cc, w, mtu, n, links).lease.Some?
    ensures MakesDevice(cc, w, mtu, links, Acquired(cc, w, mtu, n, links)) && cc.vtepName !in links
  {
    hide ConfiguredDevice, CreateConfig, LinkFor;
    DeviceIsConfigured(w.os, cc, w.acquire(n, cc.singleIPOnly).value, mtu);
    assert CreateConfig(w.os, cc, w.acquire(n, cc.singleIPOnly).value).Some?;
  }

  lemma ReplacedMakesDevice(cc: ClientConfig, w: World, mtu: int, n: nat, links: map<string, Link>)
    requires n <= 1 && Replaced(cc, w, mtu, n, n, links).lease.Some?
    ensures MakesDevice(cc, w, mtu, links, Replaced(cc, w, mtu, n, n, links)) && w.containers(n) == Some(0)
  {
    hide Acquired, ConfiguredDevice;
    AcquiredMakesDevice(cc, w, mtu, n, links - {cc.vtepName});
  }

  /** Every start that goes on either keeps the device it found, whose lease was renewed, or leaves a device that is
      configured for a lease of the configured class that it just acquired. */
  lemma StartLeavesDevice(cc: ClientConfig, w: World, mtu: int, links: map<string, Link>)
    requires Starts(cc, w, mtu, links).lease.Some?
    ensures var s := Starts(cc, w, mtu, links); KeepsDevice(cc, w, links, s) || MakesDevice(cc, w, mtu, links, s)
  {
    hide ParseCidr, Acquired, Replaced, ConfiguredDevice, LeaseFromState, StateOf, Shl, Shr;
    match StateOf(links, cc.vtepName)
    case None => AcquiredMakesDevice(cc, w, mtu, 0, links);
    case Some(state) =>
      var l := LeaseFromState(cc, state);
      if ParseCidr(cc.overlayNetwork).value.Contains(ParseCidr(l.overlaySubnet).value.Base()) {
        if w.renew(l) != Renewed {
          ReplacedMakesDevice(cc, w, mtu, 0, links);
        }
      } else {
        ReplacedMakesDevice(cc, w, mtu, 0, links);
        var s := Replaced(cc, w, mtu, 0, 0, links);
        if w.renew(s.lease.value) != Renewed {
          ReplacedMakesDevice(cc, w, mtu, 1, s.links);
        }
      }
  }

  // ---------- when a start goes on ----------

  /** The interface for the tunnel is found. */
  predicate HasUnderlay(os: Interfaces, cc: ClientConfig) {
    if cc.vxlanInterfaceName != "" then cc.vxlanInterfaceName in os.byName
    else ParseIP(cc.underlayIP).Some? && os.all.Some? && Located(os.all.value, ParseIP(cc.underlayIP).value).Some?
  }

  /** A first start goes on exactly if the configuration is complete and consistent, the interface is found, no device
      has the name yet, and a lease is granted that can be read. */
  lemma FirstStartGoesOnIff(cc: ClientConfig, w: World, mtu: int, links: map<string, Link>)
    requires StateOf(links, cc.vtepName).None?
    ensures Starts(cc, w, mtu, links).lease.Some? <==>
      && cc.vtepName != "" && cc.vtepName !in links && 1 <= cc.vtepPort && 0 < cc.healthCheckPort
      && ParseIP(cc.underlayIP).Some? && HasUnderlay(w.os, cc)
      && ParseCidr(cc.overlayNetwork).Some? && ParseCidr(cc.overlayNetwork).value.len < cc.subnetPrefixLength
      && w.acquire(0, cc.singleIPOnly).Some?
      && ParseCidr(w.acquire(0, cc.singleIPOnly).value.overlaySubnet).Some?
      && ParseMac(w.acquire(0, cc.singleIPOnly).value.hardwareAddr).Some?
  {
    hide ParseCidr, ParseMac, ParseIP, Located;
  }

  /** A device whose lease is refused, or lies outside the overlay network, is as good as none while there are no
      containers: the start comes to what a first start without it comes to, if the new lease is then renewed where
      that is asked for. */
  lemma LostLeaseIsFirstStart(cc: ClientConfig, w: World, mtu: int, links: map<string, Link>, overlay: Cidr, dest: Cidr)
    requires ParseCidr(cc.overlayNetwork) == Some(overlay) && StateOf(links, cc.vtepName).Some?
    requires w.containers(0) == Some(0)
    requires var l := LeaseFromState(cc, StateOf(links, cc.vtepName).value);
      && ParseCidr(l.overlaySubnet) == Some(dest)
      && (overlay.Contains(dest.Base()) ==> w.renew(l) != Renewed)
    requires !overlay.Contains(dest.Base()) ==>
      forall l :: w.acquire(0, cc.singleIPOnly) == Some(l) ==> w.renew(l) == Renewed
    ensures Starts(cc, w, mtu, links) == Starts(cc, w, mtu, links - {cc.vtepName})
  {
    hide ParseCidr, CreateConfig, LinkFor, LeaseFromState, Shl, Shr;
    assert StateOf(links - {cc.vtepName}, cc.vtepName).None?;
  }

  /** A new lease that replaced one outside the overlay network and is refused at once is replaced once more, if there
      are still no containers: the start comes to a first start that is given the second answer. */
  lemma RefusedReplacementIsReplaced(cc: ClientConfig, w: World, again: World, mtu: int, links: map<string, Link>,
                                     overlay: Cidr, dest: Cidr, l: Lease)
    requires ParseCidr(cc.overlayNetwork) == Some(overlay) && StateOf(links, cc.vtepName).Some?
    requires ParseCidr(LeaseFromState(cc, StateOf(links, cc.vtepName).value).overlaySubnet) == Some(dest)
    requires !overlay.Contains(dest.Base()) && w.containers(0) == Some(0)
    requires Starts(cc, w, mtu, links - {cc.vtepName}).lease == Some(l) && w.renew(l) != Renewed
    requires again.os == w.os && again.acquire(0, cc.singleIPOnly) == w.acquire(1, cc.singleIPOnly)
    ensures w.containers(1) == Some(0) ==>
      Starts(cc, w, mtu, links) == Starts(cc, again, mtu, links - {cc.vtepName})
    ensures w.containers(1) != Some(0) ==> Starts(cc, w, mtu, links).lease.None?
  {
    hide ParseCidr, CreateConfig, LinkFor, LeaseFromState, Shl, Shr;
    var bare := links - {cc.vtepName};
    assert StateOf(bare, cc.vtepName).None?;
    var s := Starts(cc, w, mtu, bare);
    assert s == Acquired(cc, w, mtu, 0, bare) && cc.vtepName in s.links;
    assert s.links - {cc.vtepName} == bare;
  }
}
