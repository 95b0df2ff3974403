/** The daemon's startup (cmd/silk-daemon/main.go): keep, renew or replace the local lease, then hand over to the
    poller. */
module Startup {
  import opened Wrappers
  import opened Addressing
  import opened Text
  import opened IPText
  import opened LeaseTable
  import opened LeaseProtocol
  import opened Vtep

  /** What the outside answers: `acquire` to the n-th acquire request, made for one address or for a block,
      `containers` to the n-th reading of the datastore, `renew` to the renewal of a lease; `None` is an error. */
  datatype World = World(acquire: (nat, bool) -> Option<Lease>, containers: nat -> Option<nat>,
                         renew: Lease -> RenewResult, os: Interfaces)

  /** What the daemon runs with once it polls: the planner's lease, the subnet and MTU it serves, and the converger's
      subnets. */
  datatype Daemon = Daemon(lease: Lease, servedSubnet: string, mtu: int, overlay: Cidr, localSubnet: Cidr)

  datatype Result = Polls(daemon: Daemon) | Exits

  /** The device carries the address and the hardware address of the lease. */
  ghost predicate DeviceMatches(links: map<string, Link>, name: string, l: Lease) {
    && name in links && links[name].addrs != []
    && ParseCidr(l.overlaySubnet).Some? && links[name].addrs[0].addr == ParseCidr(l.overlaySubnet).value.addr
    && ParseMac(l.hardwareAddr) == Some(links[name].mac)
  }

  // ---------- what startup comes to when the kernel fails no call ----------

  /** The lease to go on with, or none if the daemon gives up, and the devices it leaves. */
  datatype Start = Start(lease: Option<Lease>, links: map<string, Link>)

  /** A new lease and a device for it. */
  function Acquired(cfg: ClientConfig, w: World, mtu: int, acquires: nat, links: map<string, Link>): Start {
    match w.acquire(acquires, cfg.singleIPOnly)
    case None => Start(None, links)
    case Some(l) =>
      match CreateConfig(w.os, cfg, l)
      case None => Start(None, links)
      case Some(vc) =>
        if cfg.healthCheckPort == 0 || cfg.vtepName in links then Start(None, links)
        else Start(Some(l), links[cfg.vtepName := LinkFor(vc, mtu)])
  }

  /** A lease that cannot be kept is replaced, unless there are containers. */
  function Replaced(cfg: ClientConfig, w: World, mtu: int, acquires: nat, reading: nat,
                    links: map<string, Link>): Start {
    if w.containers(reading) != Some(0) || cfg.vtepName !in links then Start(None, links)
    else Acquired(cfg, w, mtu, acquires, links - {cfg.vtepName})
  }

  /** A lease from before is kept if it is inside the overlay network and its renewal succeeds. */
  function Kept(cfg: ClientConfig, w: World, mtu: int, overlay: Cidr, l: Lease, links: map<string, Link>): Start {
    match ParseCidr(l.overlaySubnet)
    case None => Start(None, links)
    case Some(local) =>
      var inside := overlay.Contains(local.Base());
      var s := if inside then Start(Some(l), links) else Replaced(cfg, w, mtu, 0, 0, links);
      if s.lease.None? || w.renew(s.lease.value) == Renewed then s
      else Replaced(cfg, w, mtu, if inside then 0 else 1, if inside then 0 else 1, s.links)
  }

  function Starts(cfg: ClientConfig, w: World, mtu: int, links: map<string, Link>): Start {
    match ParseCidr(cfg.overlayNetwork)
    case None => Start(None, links)
    case Some(overlay) =>
      match StateOf(links, cfg.vtepName)
      case None => Acquired(cfg, w, mtu, 0, links)
      case Some(state) => Kept(cfg, w, mtu, overlay, LeaseFromState(cfg, state), links)
  }

  // ---------- the program ----------

  class SilkDaemon {
    const cfg: ClientConfig
    const factory: Factory
    const world: World
    var acquires: nat
    var readings: nat
    /** What the datastore reported just before each deletion of the device. */
    ghost var evidence: seq<Option<nat>>

    constructor (cfg: ClientConfig, factory: Factory, world: World)
      ensures this.cfg == cfg && this.factory == factory && this.world == world
      ensures acquires == readings == 0 && evidence == []
    {
      this.cfg := cfg;
      this.factory := factory;
      this.world := world;
      acquires, readings, evidence := 0, 0, [];
    }

    method AcquireLease() returns (lease: Option<Lease>)
      modifies this`acquires, factory
      ensures lease.Some? ==> DeviceMatches(factory.links, cfg.vtepName, lease.value)
      ensures lease.Some? ==> cfg.vtepName !in old(factory.links)
      ensures factory.links - {cfg.vtepName} == old(factory.links) - {cfg.vtepName}
      ensures cfg.vtepName in old(factory.links) ==> factory.links == old(factory.links)
      ensures acquires == old(acquires) + 1
      ensures factory.Reliable() ==>
        Start(lease, factory.links) == Acquired(cfg, world, factory.mtu, old(acquires), old(factory.links))
    {
      hide ParseCidr, ParseMac, ParseIP, UnderlayDevice;
      var answer := world.acquire(acquires, cfg.singleIPOnly);
      acquires := acquires + 1;
      if answer.None? || cfg.healthCheckPort == 0 {
        return None;
      }
      var vtepConf := CreateConfig(world.os, cfg, answer.value);
      if vtepConf.None? {
        return None;
      }
      var created := factory.CreateVTEP(vtepConf.value);
      if !created {
        return None;
      }
      return answer;
    }

    /** Only called after the datastore reported no containers. */
    method DeleteAndAcquire(ghost reported: Option<nat>) returns (lease: Option<Lease>)
      modifies this`acquires, this`evidence, factory
      ensures lease.Some? ==> DeviceMatches(factory.links, cfg.vtepName, lease.value)
      ensures evidence == old(evidence) || evidence == old(evidence) + [reported]
      ensures evidence == old(evidence) ==> factory.links == old(factory.links) && lease.None?
      ensures factory.links - {cfg.vtepName} == old(factory.links) - {cfg.vtepName}
      ensures lease.Some? ==> acquires == old(acquires) + 1
      ensures factory.Reliable() && cfg.vtepName !in old(factory.links) ==>
        lease.None? && factory.links == old(factory.links)
      ensures factory.Reliable() && cfg.vtepName in old(factory.links) ==>
        Start(lease, factory.links) ==
        Acquired(cfg, world, factory.mtu, old(acquires), old(factory.links) - {cfg.vtepName})
    {
      hide Acquired;
      var deleted := factory.DeleteVTEP(cfg.vtepName);
      if !deleted {
        return None;
      }
      evidence := evidence + [reported];
      lease := AcquireLease();
    }

    /** Reads the datastore and, if it reports no containers, replaces the device and the lease. */
    method ReplaceIfEmpty() returns (lease: Option<Lease>)
      modifies this, factory
      ensures lease.Some? ==> DeviceMatches(factory.links, cfg.vtepName, lease.value)
      ensures evidence == old(evidence) || evidence == old(evidence) + [Some(0)]
      ensures evidence == old(evidence) ==> factory.links == old(factory.links)
      ensures factory.links - {cfg.vtepName} == old(factory.links) - {cfg.vtepName}
      ensures readings == old(readings) + 1
      ensures lease.Some? ==> acquires == old(acquires) + 1
      ensures evidence != old(evidence) || lease.Some? ==> world.containers(old(readings)) == Some(0)
      ensures factory.Reliable() ==>
        Start(lease, factory.links) ==
        Replaced(cfg, world, factory.mtu, old(acquires), old(readings), old(factory.links))
    {
      hide Acquired, DeviceMatches;
      var metadata := world.containers(readings);
      readings := readings + 1;
      if metadata.None? || metadata.value != 0 {
        return None;
      }
      lease := DeleteAndAcquire(metadata);
    }

    method DiscoverLocalLease() returns (lease: Option<Lease>)
      modifies factory`calls
      ensures lease.Some? ==>
        StateOf(factory.links, cfg.vtepName).Some?
          && lease == Some(LeaseFromState(cfg, StateOf(factory.links, cfg.vtepName).value))
      ensures factory.Reliable() && StateOf(factory.links, cfg.vtepName).Some? ==> lease.Some?
    {
      var state := factory.GetVTEPState(cfg.vtepName);
      if state.None? {
        return None;
      }
      return Some(LeaseFromState(cfg, state.value));
    }

    /** `mainWithError` up to the point where the poller is started. */
    method Run() returns (r: Result)
      requires evidence == [] && acquires == readings == 0
      modifies this, factory
      ensures forall i :: 0 <= i < |evidence| ==> evidence[i] == Some(0)
      ensures (forall n :: world.containers(n) != Some(0)) && cfg.vtepName in old(factory.links) ==>
        factory.links == old(factory.links)
      ensures factory.links - {cfg.vtepName} == old(factory.links) - {cfg.vtepName}
      ensures r.Polls? ==>
        && DeviceMatches(factory.links, cfg.vtepName, r.daemon.lease)
        && r.daemon.servedSubnet == r.daemon.lease.overlaySubnet
        && r.daemon.mtu == factory.links[cfg.vtepName].mtu
        && r.daemon.localSubnet == ParseCidr(r.daemon.lease.overlaySubnet).value.Network()
        && ParseCidr(cfg.overlayNetwork) == Some(r.daemon.overlay)
      ensures factory.Reliable() ==>
        Start(if r.Polls? then Some(r.daemon.lease) else None, factory.links) ==
        Starts(cfg, world, factory.mtu, old(factory.links))
    {
      hide ParseCidr, ParseMac, Shl, Shr, LeaseFromState, Acquired, Replaced;
      var overlay := ParseCidr(cfg.overlayNetwork);
      if overlay.None? {
        return Exits;
      }
      var lease := DiscoverLocalLease();
      if lease.None? {
        lease := AcquireLease();
        if lease.None? {
          return Exits;
        }
      } else {
        var localSubnet := ParseCidr(lease.value.overlaySubnet);
        if localSubnet.None? {
          return Exits;
        }
        DiscoveredMatches(cfg, factory.links);
        if !overlay.value.Contains(localSubnet.value.Base()) {
          lease := ReplaceIfEmpty();
          if lease.None? {
            return Exits;
          }
        }
        if world.renew(lease.value) != Renewed {
          lease := ReplaceIfEmpty();
          if lease.None? {
            return Exits;
          }
        }
      }
      var state := factory.GetVTEPState(cfg.vtepName);
      if state.None? {
        return Exits;
      }
      var found := factory.Call();
      if !found {
        return Exits;
      }
      var local := ParseCidr(lease.value.overlaySubnet);
      return Polls(Daemon(lease.value, lease.value.overlaySubnet, state.value.mtu, overlay.value,
        local.value.Network()));
    }
  }

  /** A lease read back from the device matches the device. */
  lemma DiscoveredMatches(cfg: ClientConfig, links: map<string, Link>)
    requires StateOf(links, cfg.vtepName).Some?
    requires ParseCidr(LeaseFromState(cfg, StateOf(links, cfg.vtepName).value).overlaySubnet).Some?
    ensures DeviceMatches(links, cfg.vtepName, LeaseFromState(cfg, StateOf(links, cfg.vtepName).value))
  {
    hide ParseCidr, ParseMac, PrintCidr, PrintMac;
    var s := StateOf(links, cfg.vtepName).value;
    SubnetTextIs(s.ip, cfg.subnetPrefixLength, Cidr(s.ip, 0));
    MacRoundTrip(s.mac);
  }

  /** Restarting while containers run never touches the device, and it goes on with the lease that the first start
      acquired exactly if that lease has the configured prefix length, lies in the overlay network and is renewed. */
  lemma RestartWithContainers(cfg: ClientConfig, w: World, again: World, mtu: int, links: map<string, Link>,
                              overlay: Cidr, dest: Cidr, m: Mac)
    requires cfg.vtepName !in links && ParseCidr(cfg.overlayNetwork) == Some(overlay)
    requires Starts(cfg, w, mtu, links).lease == Some(Lease(cfg.underlayIP, PrintCidr(dest), PrintMac(m)))
    requires forall n :: again.containers(n) != Some(0)
    ensures var l, now := Lease(cfg.underlayIP, PrintCidr(dest), PrintMac(m)), Starts(cfg, w, mtu, links).links;
      && Starts(cfg, again, mtu, now).links == now
      && (Starts(cfg, again, mtu, now).lease == Some(l) <==>
            dest.len == cfg.subnetPrefixLength && overlay.Contains(dest.Base()) && again.renew(l) == Renewed)
  {
    hide ParseCidr, PrintCidr, ParseMac, PrintMac, ParseIP, UnderlayDevice, LeaseFromState, SubnetText;
    var l := Lease(cfg.underlayIP, PrintCidr(dest), PrintMac(m));
    var vc := CreateConfig(w.os, cfg, l).value;
    VtepRoundTrip(w.os, cfg, dest, m, vc, links, mtu);
    CidrRoundTrip(dest);
  }
}
