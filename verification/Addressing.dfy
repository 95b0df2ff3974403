/** IPv4 addresses and prefixes.  An address is the natural number its four bytes spell;
    a prefix keeps the address it was written with, as `net.ParseCIDR` does. */
module Addressing {

  const ADDRESSES: nat := 0x1_0000_0000

  type Addr = a: nat | a < 0x1_0000_0000
  type PrefixLen = n: nat | n <= 32

  // ---------- shifts ----------

  /** x << n */
  function Shl(x: nat, n: nat): nat {
    if n == 0 then x else 2 * Shl(x, n - 1)
  }

  /** x >> n */
  function Shr(x: nat, n: nat): nat {
    if n == 0 then x else Shr(x, n - 1) / 2
  }

  lemma {:induction false} ShlAdds(x: nat, y: nat, n: nat)
    ensures Shl(x + y, n) == Shl(x, n) + Shl(y, n)
    ensures 0 < x ==> 0 < Shl(x, n)
    ensures x <= Shl(x, n)
  {
    if n > 0 { ShlAdds(x, y, n - 1); }
  }

  lemma ShlMonotone(x: nat, y: nat, n: nat)
    ensures x < y <==> Shl(x, n) < Shl(y, n)
    ensures x < y ==> Shl(x, n) + Shl(1, n) <= Shl(y, n)
  {
    if x < y {
      ShlAdds(x, 1, n);
      ShlAdds(x + 1, y - x - 1, n);
      ShlAdds(1, 0, n);
    } else {
      ShlAdds(y, x - y, n);
    }
  }

  lemma {:induction false} ShlShl(x: nat, m: nat, n: nat)
    ensures Shl(Shl(x, m), n) == Shl(x, m + n)
  {
    if n > 0 { ShlShl(x, m, n - 1); }
  }

  lemma {:induction false} ShrShr(x: nat, m: nat, n: nat)
    ensures Shr(Shr(x, m), n) == Shr(x, m + n)
  {
    if n > 0 { ShrShr(x, m, n - 1); }
  }

  lemma {:induction false} ShrFloors(x: nat, n: nat)
    ensures Shl(Shr(x, n), n) <= x < Shl(Shr(x, n), n) + Shl(1, n)
  {
    if n > 0 {
      ShrFloors(x, n - 1);
      var q := Shr(x, n);
      var r := Shr(x, n - 1) - 2 * q;
      ShlAdds(2 * q, r, n - 1);
      ShlAdds(q, q, n - 1);
    }
  }

  /** Shifting right finds the block of size 2^n that an address falls in. */
  lemma ShrIs(x: nat, n: nat, q: nat)
    ensures Shr(x, n) == q <==> Shl(q, n) <= x < Shl(q, n) + Shl(1, n)
  {
    ShrFloors(x, n);
    ShlMonotone(Shr(x, n), q, n);
    ShlMonotone(q, Shr(x, n), n);
  }

  lemma ShrShl(q: nat, n: nat)
    ensures Shr(Shl(q, n), n) == q
  {
    ShlAdds(1, 0, n);
    ShrIs(Shl(q, n), n, q);
  }

  lemma AddressSpace()
    ensures Shl(1, 32) == ADDRESSES
  {
    ShlShl(1, 16, 16);
    ShlShl(1, 8, 8);
    assert Shl(1, 8) == 256;
    ShlShl(256, 8, 8);
    assert Shl(256, 8) == 0x1_0000;
    assert Shl(0x1_0000, 16) == ADDRESSES by {
      ShlShl(0x1_0000, 8, 8);
      assert Shl(0x1_0000, 8) == 0x100_0000;
      assert Shl(0x100_0000, 8) == ADDRESSES;
    }
  }

  // ---------- prefixes ----------

  /** The number of addresses a prefix of the given length covers. */
  function BlockSize(len: PrefixLen): nat {
    Shl(1, 32 - len)
  }

  datatype Cidr = Cidr(addr: Addr, len: PrefixLen) {

    /** The network number: the address without its host bits. */
    function Number(): nat {
      Shr(addr, 32 - len)
    }

    /** The network address: the host bits cleared. */
    function Base(): (b: Addr)
      ensures b <= addr
    {
      ShrFloors(addr, 32 - len);
      Shl(Number(), 32 - len)
    }

    function Network(): Cidr {
      Cidr(Base(), len)
    }

    predicate Contains(a: Addr) {
      Shr(a, 32 - len) == Number()
    }
  }

  ghost predicate Disjoint(p: Cidr, q: Cidr) {
    forall a: Addr :: !(p.Contains(a) && q.Contains(a))
  }

  /** A prefix covers exactly the `BlockSize` addresses from its base, and none of them passes
      the last IPv4 address. */
  lemma ContainsIsRange(p: Cidr, a: Addr)
    ensures p.Contains(a) <==> p.Base() <= a < p.Base() + BlockSize(p.len)
    ensures p.Base() + BlockSize(p.len) <= ADDRESSES
  {
    ShrIs(a, 32 - p.len, p.Number());
    AddressSpace();
    ShlShl(1, p.len, 32 - p.len);
    ShlMonotone(p.Number(), Shl(1, p.len), 32 - p.len);
  }

  lemma NetworkKeepsRange(p: Cidr)
    ensures p.Network().Number() == p.Number() && p.Network().Base() == p.Base()
    ensures p.Contains(p.addr) && p.Contains(p.Base())
  {
    ShrShl(p.Number(), 32 - p.len);
  }

  lemma HostPrefix(a: Addr)
    ensures Cidr(a, 32).Base() == a
    ensures forall b: Addr :: Cidr(a, 32).Contains(b) <==> a == b
  {
  }
}
