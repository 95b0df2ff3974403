/** Hardware addresses derived from IPv4 addresses (lib/hwaddr). */
module HardwareAddr {
  import opened Addressing
  import opened Text
  import opened IPText

  datatype HwAddrResult = Generated(hwaddr: seq<Byte>) | NotIPv4 | BadPrefixLength(n: nat)

  /** `ip.To4() != nil` for the 4-byte and the 16-byte encodings. */
  predicate IsIPv4(ip: seq<Byte>) {
    || |ip| == 4
    || (|ip| == 16 && ip[..10] == [0, 0, 0, 0, 0, 0, 0, 0, 0, 0] && ip[10] == 255 && ip[11] == 255)
  }

  function GenerateHardwareAddr4(ip: seq<Byte>, prefix: seq<Byte>): HwAddrResult {
    if !IsIPv4(ip) then NotIPv4
    else if |prefix| != 2 then BadPrefixLength(|prefix|)
    else Generated(prefix + ip[|ip| - 4..])
  }

  /** The 16-byte encoding that `net.ParseCIDR` returns for an IPv4 address. */
  function To16(a: Addr): seq<Byte> {
    [0, 0, 0, 0, 0, 0, 0, 0, 0, 0, 255, 255] + Octets(a)
  }

  /** The address a VTEP gets: ee:ee followed by the four bytes of its overlay address. */
  function VtepMac(a: Addr): (m: Mac)
    ensures |m| == 6
  {
    [0xee, 0xee] + Octets(a)
  }

  /** `GenerateForVTEP`, for any address that `net.ParseCIDR` may return. */
  function GenerateForVTEP(ip: IP): HwAddrResult {
    match ip
    case V4(a) => GenerateHardwareAddr4(To16(a), [0xee, 0xee])
    case V6(_) => NotIPv4
  }

  /** An address is generated exactly from an IPv4 address and a prefix of two bytes, and it is the prefix followed by
      the last four bytes of the address. */
  lemma GeneratedBytes(ip: seq<Byte>, prefix: seq<Byte>)
    ensures GenerateHardwareAddr4(ip, prefix).Generated? <==> IsIPv4(ip) && |prefix| == 2
    ensures GenerateHardwareAddr4(ip, prefix).Generated? ==>
      var h := GenerateHardwareAddr4(ip, prefix).hwaddr;
      |h| == 6 && h[..2] == prefix && h[2..] == ip[|ip| - 4..]
  {
  }

  /** Both encodings of an address generate the same hardware address, and nothing else about the
      input is looked at. */
  lemma VtepAddressIsGenerated(a: Addr)
    ensures VtepMac(a) == [0xee, 0xee] + Octets(a)
    ensures GenerateForVTEP(V4(a)) == Generated([0xee, 0xee] + Octets(a))
    ensures GenerateHardwareAddr4(Octets(a), [0xee, 0xee]) == Generated([0xee, 0xee] + Octets(a))
  {
    assert To16(a)[..10] == [0, 0, 0, 0, 0, 0, 0, 0, 0, 0];
    assert To16(a)[12..] == Octets(a);
    assert Octets(a)[0..] == Octets(a);
  }

  /** The printed hardware address identifies the overlay address. */
  lemma VtepMacInjective(a: Addr, b: Addr)
    requires PrintMac(VtepMac(a)) == PrintMac(VtepMac(b))
    ensures a == b
  {
    MacRoundTrip(VtepMac(a));
    MacRoundTrip(VtepMac(b));
    assert VtepMac(a)[2..] == Octets(a) && VtepMac(b)[2..] == Octets(b);
    OctetsOfAddress(a);
    OctetsOfAddress(b);
  }
}
