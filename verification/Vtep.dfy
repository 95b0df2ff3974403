/** The VTEP device: its configuration (daemon/vtep/config_creator.go), its creation, deletion and inspection
    (daemon/vtep/factory.go), and the lease that is read back from it (cmd/silk-daemon/main.go). */
module Vtep {
  import opened Wrappers
  import opened Addressing
  import opened Text
  import opened IPText
  import opened LeaseTable

  /** The part of the client configuration that startup uses. */
  datatype ClientConfig = ClientConfig(
    vtepName: string, vtepPort: int, vni: int, underlayIP: string, vxlanInterfaceName: string,
    overlayNetwork: string, subnetPrefixLength: int, healthCheckPort: nat, singleIPOnly: bool)

  /** A network interface; `None` when its addresses cannot be read. */
  datatype Interface = Interface(index: int, name: string, addrs: Option<seq<string>>)

  /** What the operating system answers about interfaces; `None` stands for its errors. */
  datatype Interfaces = Interfaces(all: Option<seq<Interface>>, byName: map<string, Interface>)

  datatype VtepConfig = VtepConfig(
    name: string, device: int, underlayIP: IP, overlayIP: Addr, hardwareAddr: Mac,
    vni: int, overlayPrefixLength: PrefixLen, port: int)

  // ---------- finding the underlay interface ----------

  datatype Scan = Hit | Miss | Broken

  /** Looks through address texts up to the first match or the first text that does not parse. */
  function ScanAddrs(addrs: seq<string>, toFind: IP): Scan {
    if addrs == [] then Miss
    else match ParsePrefix(addrs[0])
      case None => Broken
      case Some(c) => if c.0 == toFind then Hit else ScanAddrs(addrs[1..], toFind)
  }

  function Located(ifaces: seq<Interface>, toFind: IP): Option<Interface> {
    if ifaces == [] || ifaces[0].addrs.None? then None
    else match ScanAddrs(ifaces[0].addrs.value, toFind)
      case Hit => Some(ifaces[0])
      case Broken => None
      case Miss => Located(ifaces[1..], toFind)
  }

  predicate HasAddress(i: Interface, a: IP) {
    i.addrs.Some? && exists x :: x in i.addrs.value && ParsePrefix(x).Some? && ParsePrefix(x).value.0 == a
  }

  method LocateInterface(os: Interfaces, toFind: IP) returns (found: Option<Interface>)
    ensures os.all.None? ==> found.None?
    ensures os.all.Some? ==> found == Located(os.all.value, toFind)
  {
    hide ParsePrefix;
    if os.all.None? {
      return None;
    }
    var ifaces := os.all.value;
    var i := 0;
    while i < |ifaces|
      invariant 0 <= i <= |ifaces|
      invariant Located(ifaces, toFind) == Located(ifaces[i..], toFind)
    {
      assert ifaces[i..][1..] == ifaces[i + 1..];
      if ifaces[i].addrs.None? {
        return None;
      }
      var addrs := ifaces[i].addrs.value;
      var j := 0;
      while j < |addrs|
        invariant 0 <= j <= |addrs|
        invariant ScanAddrs(addrs, toFind) == ScanAddrs(addrs[j..], toFind)
      {
        assert addrs[j..][1..] == addrs[j + 1..];
        match ParsePrefix(addrs[j])
        case None => return None;
        case Some(c) =>
          if c.0 == toFind {
            return Some(ifaces[i]);
          }
        j := j + 1;
      }
      i := i + 1;
    }
    return None;
  }

  lemma {:induction false} ScanFinds(addrs: seq<string>, a: IP)
    ensures ScanAddrs(addrs, a) == Hit ==> exists x :: x in addrs && ParsePrefix(x).Some? && ParsePrefix(x).value.0 == a
    ensures ScanAddrs(addrs, a) == Miss ==> forall x :: x in addrs ==>
      ParsePrefix(x).Some? && ParsePrefix(x).value.0 != a
    ensures ScanAddrs(addrs, a) == Broken ==> exists x :: x in addrs && ParsePrefix(x).None?
  {
    hide ParsePrefix;
    if addrs != [] {
      ScanFinds(addrs[1..], a);
      assert addrs == [addrs[0]] + addrs[1..];
    }
  }

  /** An interface that is found has the address; when every address is readable, none is found exactly if no
      interface has it. */
  lemma {:induction false} LocatedHasAddress(ifaces: seq<Interface>, a: IP)
    ensures Located(ifaces, a).Some? ==> Located(ifaces, a).value in ifaces && HasAddress(Located(ifaces, a).value, a)
    ensures (forall i :: i in ifaces ==> i.addrs.Some? && forall x :: x in i.addrs.value ==> ParsePrefix(x).Some?) ==>
      (Located(ifaces, a).None? <==> forall i :: i in ifaces ==> !HasAddress(i, a))
  {
    hide ParsePrefix;
    if ifaces != [] {
      assert ifaces == [ifaces[0]] + ifaces[1..];
      LocatedHasAddress(ifaces[1..], a);
      if ifaces[0].addrs.Some? {
        ScanFinds(ifaces[0].addrs.value, a);
      }
    }
  }

  /** The texts before the j-th are prefixes with other addresses, and the j-th has the address. */
  predicate FoundAt(addrs: seq<string>, a: IP, j: nat) {
    && j < |addrs| && ParsePrefix(addrs[j]).Some? && ParsePrefix(addrs[j]).value.0 == a
    && forall x :: x in addrs[..j] ==> ParsePrefix(x).Some? && ParsePrefix(x).value.0 != a
  }

  /** All addresses of the interface can be read, and none is the one looked for. */
  predicate Passed(i: Interface, a: IP) {
    i.addrs.Some? && forall x :: x in i.addrs.value ==> ParsePrefix(x).Some? && ParsePrefix(x).value.0 != a
  }

  lemma FoundAtShifts(addrs: seq<string>, a: IP, j: nat)
    requires addrs != []
    ensures FoundAt(addrs, a, j + 1) <==>
      ParsePrefix(addrs[0]).Some? && ParsePrefix(addrs[0]).value.0 != a && FoundAt(addrs[1..], a, j)
  {
    hide ParsePrefix;
    if j + 1 < |addrs| {
      assert addrs[..j + 1] == [addrs[0]] + addrs[1..][..j];
    }
  }

  lemma FoundFirst(addrs: seq<string>, a: IP)
    requires addrs != []
    ensures FoundAt(addrs, a, 0) <==> ParsePrefix(addrs[0]).Some? && ParsePrefix(addrs[0]).value.0 == a
  {
    hide ParsePrefix;
  }

  lemma {:induction false} ScanIff(addrs: seq<string>, a: IP)
    ensures ScanAddrs(addrs, a) == Hit <==> exists j: nat :: FoundAt(addrs, a, j)
    ensures ScanAddrs(addrs, a) == Miss <==> forall x :: x in addrs ==>
      ParsePrefix(x).Some? && ParsePrefix(x).value.0 != a
  {
    hide ParsePrefix;
    if addrs != [] {
      var rest := addrs[1..];
      assert addrs == [addrs[0]] + rest;
      ScanIff(rest, a);
      hide FoundAt;
      FoundFirst(addrs, a);
      if j: nat :| FoundAt(rest, a, j) {
        FoundAtShifts(addrs, a, j);
      }
      if j: nat :| FoundAt(addrs, a, j) {
        if j > 0 {
          FoundAtShifts(addrs, a, j - 1);
        }
      }
    }
  }

  /** The n-th interface has the address, and everything that comes before can be read and is something else. */
  ghost predicate LocatedAt(ifaces: seq<Interface>, a: IP, n: nat): (b: bool)
    ensures b ==> n < |ifaces|
  {
    && n < |ifaces| && ifaces[n].addrs.Some? && (exists j: nat :: FoundAt(ifaces[n].addrs.value, a, j))
    && forall p :: p in ifaces[..n] ==> Passed(p, a)
  }

  lemma LocatedAtShifts(ifaces: seq<Interface>, a: IP, n: nat)
    requires ifaces != []
    ensures LocatedAt(ifaces, a, n + 1) <==> Passed(ifaces[0], a) && LocatedAt(ifaces[1..], a, n)
  {
    hide FoundAt, Passed;
    if n + 1 < |ifaces| {
      assert ifaces[n + 1] == ifaces[1..][n];
      assert ifaces[..n + 1] == [ifaces[0]] + ifaces[1..][..n];
    }
  }

  lemma LocatedFirst(ifaces: seq<Interface>, a: IP)
    requires ifaces != []
    ensures LocatedAt(ifaces, a, 0) <==> ifaces[0].addrs.Some? && ScanAddrs(ifaces[0].addrs.value, a) == Hit
    ensures Passed(ifaces[0], a) <==> ifaces[0].addrs.Some? && ScanAddrs(ifaces[0].addrs.value, a) == Miss
  {
    hide FoundAt, ScanAddrs, ParsePrefix;
    if ifaces[0].addrs.Some? {
      ScanIff(ifaces[0].addrs.value, a);
    }
  }

  /** An interface is found exactly if it has the address and everything that comes before can be read and is
      something else: one address that cannot be read hides all that follow. */
  lemma {:induction false} LocatedIff(ifaces: seq<Interface>, a: IP, i: Interface)
    ensures Located(ifaces, a) == Some(i) <==> exists n: nat :: LocatedAt(ifaces, a, n) && ifaces[n] == i
  {
    hide LocatedAt, Passed, ScanAddrs;
    if ifaces == [] {
      forall n: nat ensures !LocatedAt(ifaces, a, n) { NothingToLocate(a, n); }
    } else {
      var rest := ifaces[1..];
      LocatedIff(rest, a, i);
      LocatedFirst(ifaces, a);
      forall n: nat ensures LocatedAt(ifaces, a, n + 1) <==> Passed(ifaces[0], a) && LocatedAt(rest, a, n) {
        LocatedAtShifts(ifaces, a, n);
      }
      if n: nat :| LocatedAt(rest, a, n) && rest[n] == i {
        assert Passed(ifaces[0], a) ==> LocatedAt(ifaces, a, n + 1) && ifaces[n + 1] == i;
      }
      if n: nat :| LocatedAt(ifaces, a, n) && ifaces[n] == i {
        if n > 0 {
          var m := n - 1;
          assert LocatedAt(ifaces, a, m + 1);
          assert LocatedAt(rest, a, m) && rest[m] == i;
        }
      }
    }
  }

  lemma NothingToLocate(a: IP, n: nat)
    ensures !LocatedAt([], a, n)
  {
  }

  // ---------- the configuration ----------

  function UnderlayDevice(os: Interfaces, cfg: ClientConfig, underlay: IP): Option<Interface> {
    if cfg.vxlanInterfaceName != "" then
      if cfg.vxlanInterfaceName in os.byName then Some(os.byName[cfg.vxlanInterfaceName]) else None
    else if os.all.Some? then Located(os.all.value, underlay)
    else None
  }

  /** `ConfigCreator.Create`; `None` stands for its errors. */
  function CreateConfig(os: Interfaces, cfg: ClientConfig, l: Lease): Option<VtepConfig> {
    if cfg.vtepName == "" || cfg.vtepPort < 1 || ParseIP(cfg.underlayIP).None? then None
    else match UnderlayDevice(os, cfg, ParseIP(cfg.underlayIP).value)
      case None => None
      case Some(device) =>
        match (ParseCidr(l.overlaySubnet), ParseMac(l.hardwareAddr), ParseCidr(cfg.overlayNetwork))
        case (Some(overlay), Some(mac), Some(net)) =>
          if net.len >= cfg.subnetPrefixLength then None
          else Some(VtepConfig(cfg.vtepName, device.index, ParseIP(cfg.underlayIP).value, overlay.addr, mac, cfg.vni,
            net.len, cfg.vtepPort))
        case _ => None
  }

  // ---------- the device ----------

  datatype Link = Link(mac: Mac, addrs: seq<Cidr>, up: bool, mtu: int, device: int, src: IP, vni: int, port: int)

  /** A device created from a configuration. */
  function LinkFor(vc: VtepConfig, mtu: int): Link {
    Link(vc.hardwareAddr, [Cidr(vc.overlayIP, vc.overlayPrefixLength)], true, mtu, vc.device, vc.underlayIP, vc.vni,
      vc.port)
  }

  datatype VtepState = VtepState(mac: Mac, ip: Addr, mtu: int)

  function StateOf(links: map<string, Link>, name: string): Option<VtepState> {
    if name in links && links[name].addrs != [] then
      var l := links[name];
      Some(VtepState(l.mac, l.addrs[0].addr, l.mtu))
    else None
  }

  /** The factory over the kernel's devices; `faults` decides which kernel calls fail. */
  class Factory {
    var links: map<string, Link>
    var calls: nat
    const mtu: int
    const faults: nat -> bool

    constructor (links: map<string, Link>, mtu: int, faults: nat -> bool)
      ensures this.links == links && this.mtu == mtu && this.faults == faults
    {
      this.links := links;
      this.mtu := mtu;
      this.faults := faults;
      calls := 0;
    }

    ghost predicate Reliable() {
      forall n :: !faults(n)
    }

    /** One kernel call: fails or may go ahead. */
    method Call() returns (ok: bool)
      modifies this`calls
      ensures Reliable() ==> ok
    {
      ok := !faults(calls);
      calls := calls + 1;
    }

    method CreateVTEP(vc: VtepConfig) returns (ok: bool)
      modifies this
      ensures ok ==> vc.name !in old(links) && links == old(links)[vc.name := LinkFor(vc, mtu)]
      ensures vc.name in old(links) ==> links == old(links)
      ensures links - {vc.name} == old(links) - {vc.name}
      ensures !ok && vc.name in links && vc.name !in old(links) ==> links[vc.name].addrs == []
      ensures Reliable() && vc.name !in old(links) ==> ok
    {
      var added := Call();
      if !added || vc.name in links {
        return false;
      }
      links := links[vc.name := Link(vc.hardwareAddr, [], false, mtu, vc.device, vc.underlayIP, vc.vni, vc.port)];
      var up := Call();
      if !up {
        return false;
      }
      links := links[vc.name := links[vc.name].(up := true)];
      var addressed := Call();
      if !addressed {
        return false;
      }
      var address := Cidr(vc.overlayIP, vc.overlayPrefixLength);
      assert links[vc.name].addrs + [address] == [address];
      links := links[vc.name := links[vc.name].(addrs := links[vc.name].addrs + [address])];
      return true;
    }

    method DeleteVTEP(name: string) returns (ok: bool)
      modifies this
      ensures ok ==> name in old(links) && links == old(links) - {name}
      ensures !ok ==> links == old(links)
      ensures Reliable() && name in old(links) ==> ok
    {
      var found := Call();
      if !found || name !in links {
        return false;
      }
      var deleted := Call();
      if !deleted {
        return false;
      }
      links := links - {name};
      return true;
    }

    method GetVTEPState(name: string) returns (state: Option<VtepState>)
      modifies this`calls
      ensures state.Some? || Reliable() ==> state == StateOf(links, name)
    {
      var found := Call();
      if !found || name !in links {
        return None;
      }
      var listed := Call();
      if !listed || links[name].addrs == [] {
        return None;
      }
      return Some(VtepState(links[name].mac, links[name].addrs[0].addr, links[name].mtu));
    }
  }

  // ---------- the lease read back from the device ----------

  /** `net.IPNet.String` with a mask of the given length, which does not exist beyond 32. */
  function SubnetText(ip: Addr, len: int): string {
    if 0 <= len <= 32 then PrintCidr(Cidr(ip, len)) else "<nil>"
  }

  function LeaseFromState(cfg: ClientConfig, s: VtepState): Lease {
    Lease(cfg.underlayIP, SubnetText(s.ip, cfg.subnetPrefixLength), PrintMac(s.mac))
  }

  lemma SubnetTextIs(ip: Addr, len: int, dest: Cidr)
    ensures SubnetText(ip, len) == PrintCidr(dest) <==> dest.addr == ip && dest.len == len
    ensures ParseCidr(SubnetText(ip, len)).Some? <==> 0 <= len <= 32
    ensures 0 <= len <= 32 ==> ParseCidr(SubnetText(ip, len)) == Some(Cidr(ip, len))
  {
    CidrRoundTrip(dest);
    if 0 <= len <= 32 {
      CidrRoundTrip(Cidr(ip, len));
    } else {
      assert '/' !in "<nil>";
      SplitField("<nil>", [], '/');
    }
  }

  /** A lease in its printed form survives the device exactly when its prefix length is the configured one: configuring,
      creating and inspecting the device and rebuilding the lease gives the same lease back in that case only. */
  lemma VtepRoundTrip(os: Interfaces, cfg: ClientConfig, dest: Cidr, m: Mac, vc: VtepConfig, links: map<string, Link>,
                      mtu: int)
    requires CreateConfig(os, cfg, Lease(cfg.underlayIP, PrintCidr(dest), PrintMac(m))) == Some(vc)
    ensures StateOf(links[vc.name := LinkFor(vc, mtu)], cfg.vtepName) == Some(VtepState(m, dest.addr, mtu))
    ensures LeaseFromState(cfg, VtepState(m, dest.addr, mtu)) == Lease(cfg.underlayIP, PrintCidr(dest),
      PrintMac(m)) <==>
      dest.len == cfg.subnetPrefixLength
  {
    hide ParseIP, PrintCidr, ParseCidr, ParseMac, PrintMac, UnderlayDevice;
    CidrRoundTrip(dest);
    MacRoundTrip(m);
    SubnetTextIs(dest.addr, cfg.subnetPrefixLength, dest);
  }
}
