/** The controller's pool of subnets (controller/leaser/cidrpool.go): the first block of the
    network is handed out as single addresses, every later block as a whole. */
module CidrPool {
  import opened Wrappers
  import opened Addressing
  import opened Text

  datatype Pool = Pool(blocks: set<string>, singles: set<string>) {

    predicate IsMember(subnet: string) {
      subnet in blocks || subnet in singles
    }

    function Class(single: bool): set<string> {
      if single then singles else blocks
    }
  }

  /** `netaddr.IPAdd`: 32-bit arithmetic that wraps. */
  function IPAdd(a: Addr, offset: nat): Addr {
    (a + offset) % ADDRESSES
  }

  function BlockText(start: Addr, mask: PrefixLen, k: nat): string {
    PrintCidr(Cidr(IPAdd(start, Shl(k, 32 - mask)), mask))
  }

  function SingleText(start: Addr, i: nat): string {
    PrintCidr(Cidr(IPAdd(start, i), 32))
  }

  /** The blocks numbered 1 to n - 1. */
  function BlockNames(start: Addr, mask: PrefixLen, n: nat): set<string> {
    if n <= 1 then {} else BlockNames(start, mask, n - 1) + {BlockText(start, mask, n - 1)}
  }

  /** The single addresses numbered 1 to n - 1. */
  function SingleNames(start: Addr, n: nat): set<string> {
    if n <= 1 then {} else SingleNames(start, n - 1) + {SingleText(start, n - 1)}
  }

  /** How many blocks the network holds, the one cut into single addresses included. */
  function BlockCount(netLen: PrefixLen, mask: PrefixLen): nat {
    if netLen <= mask then Shl(1, mask - netLen) else 1
  }

  function MakePool(net: Cidr, mask: PrefixLen): Pool {
    Pool(BlockNames(net.Base(), mask, BlockCount(net.len, mask)), SingleNames(net.Base(), BlockSize(mask)))
  }

  // ---------- generation ----------

  lemma RangeIsBlocks(netLen: PrefixLen, mask: PrefixLen)
    ensures 1 <= BlockCount(netLen, mask)
    ensures netLen <= mask ==> BlockSize(netLen) == Shl(BlockCount(netLen, mask), 32 - mask)
    ensures mask < netLen ==> BlockSize(netLen) < BlockSize(mask)
  {
    if netLen <= mask {
      ShlAdds(1, 0, mask - netLen);
      ShlShl(1, mask - netLen, 32 - mask);
    } else {
      ShlAdds(1, 0, netLen - mask - 1);
      ShlShl(1, netLen - mask, 32 - netLen);
      ShlMonotone(1, Shl(1, netLen - mask), 32 - netLen);
    }
  }

  method GenerateBlockPool(ipStart: Addr, cidrMask: PrefixLen, cidrMaskBlock: PrefixLen) returns (pool: set<string>)
    ensures pool == BlockNames(ipStart, cidrMaskBlock, BlockCount(cidrMask, cidrMaskBlock))
  {
    hide PrintCidr, Shl;
    pool := {};
    var fullRange: int := Shl(1, 32 - cidrMask);
    var blockSize := Shl(1, 32 - cidrMaskBlock);
    var i := blockSize;
    ghost var k, n := 1, BlockCount(cidrMask, cidrMaskBlock);
    RangeIsBlocks(cidrMask, cidrMaskBlock);
    ShlAdds(1, 0, 32 - cidrMaskBlock);
    while i < fullRange
      invariant i == Shl(k, 32 - cidrMaskBlock) && 1 <= k <= n
      invariant pool == BlockNames(ipStart, cidrMaskBlock, k)
      decreases fullRange - i
    {
      ShlMonotone(k, n, 32 - cidrMaskBlock);
      ShlAdds(k, 1, 32 - cidrMaskBlock);
      pool := pool + {PrintCidr(Cidr(IPAdd(ipStart, i), cidrMaskBlock))};
      i, k := i + blockSize, k + 1;
    }
    ShlMonotone(k, n, 32 - cidrMaskBlock);
  }

  method GenerateSingleIPPool(ipStart: Addr, cidrMaskBlock: PrefixLen) returns (pool: set<string>)
    ensures pool == SingleNames(ipStart, BlockSize(cidrMaskBlock))
  {
    hide PrintCidr;
    pool := {};
    var blockSize := Shl(1, 32 - cidrMaskBlock);
    var i := 1;
    ShlAdds(1, 0, 32 - cidrMaskBlock);
    while i < blockSize
      invariant 1 <= i <= blockSize
      invariant pool == SingleNames(ipStart, i)
    {
      pool := pool + {PrintCidr(Cidr(IPAdd(ipStart, i), 32))};
      i := i + 1;
    }
  }

  /** The pool of a network given as text; `None` is the panic on text that is not a prefix. */
  method NewCIDRPool(subnetRange: string, subnetMask: PrefixLen) returns (pool: Option<Pool>)
    ensures pool.None? <==> ParseCidr(subnetRange).None?
    ensures pool.Some? ==> pool.value == MakePool(ParseCidr(subnetRange).value, subnetMask)
    ensures pool.Some? ==> "" !in pool.value.blocks && "" !in pool.value.singles
  {
    hide ParseCidr;
    match ParseCidr(subnetRange)
    case None =>
      pool := None;
    case Some(net) =>
      var blocks := GenerateBlockPool(net.Base(), net.len, subnetMask);
      var singles := GenerateSingleIPPool(net.Base(), subnetMask);
      pool := Some(Pool(blocks, singles));
      NamesAreNotEmpty(net, subnetMask);
  }

  // ---------- what the pool contains ----------

  lemma {:induction false} BlockNamesAre(start: Addr, mask: PrefixLen, n: nat, s: string)
    ensures s in BlockNames(start, mask, n) <==> exists k :: 1 <= k < n && s == BlockText(start, mask, k)
  {
    hide PrintCidr, ParseCidr;
    if n > 1 { BlockNamesAre(start, mask, n - 1, s); }
  }

  lemma {:induction false} SingleNamesAre(start: Addr, n: nat, s: string)
    ensures s in SingleNames(start, n) <==> exists i :: 1 <= i < n && s == SingleText(start, i)
  {
    hide PrintCidr, ParseCidr;
    if n > 1 { SingleNamesAre(start, n - 1, s); }
  }

  /** No subnet is written as the empty text, which stands for "none available". */
  lemma NamesAreNotEmpty(net: Cidr, mask: PrefixLen)
    ensures "" !in MakePool(net, mask).blocks && "" !in MakePool(net, mask).singles
  {
    hide PrintCidr, ParseCidr;
    BlockNamesAre(net.Base(), mask, BlockCount(net.len, mask), "");
    SingleNamesAre(net.Base(), BlockSize(mask), "");
    forall c: Cidr ensures PrintCidr(c) != "" {
      CidrRoundTrip(c);
    }
  }

  /** The number, counted in blocks from address 0, of the network's first block. */
  function FirstBlock(net: Cidr, mask: PrefixLen): nat
    requires net.len <= mask
  {
    Shl(net.Number(), mask - net.len)
  }

  /** Block k of a network lies inside the address space, starts at a multiple of its size, and is
      block `FirstBlock + k` of the whole address space. */
  lemma BlockAt(net: Cidr, mask: PrefixLen, k: nat)
    requires net.len <= mask && k < BlockCount(net.len, mask)
    ensures net.Base() + Shl(k, 32 - mask) == Shl(FirstBlock(net, mask) + k, 32 - mask)
    ensures net.Base() + Shl(k, 32 - mask) + BlockSize(mask) <= net.Base() + BlockSize(net.len) <= ADDRESSES
    ensures 1 <= BlockSize(mask)
    ensures IPAdd(net.Base(), Shl(k, 32 - mask)) == net.Base() + Shl(k, 32 - mask)
    ensures Cidr(net.Base() + Shl(k, 32 - mask), mask).Number() == FirstBlock(net, mask) + k
  {
    hide Shl, Shr;
    ShlShl(net.Number(), mask - net.len, 32 - mask);
    ShlAdds(FirstBlock(net, mask), k, 32 - mask);
    RangeIsBlocks(net.len, mask);
    ShlMonotone(k, BlockCount(net.len, mask), 32 - mask);
    ShlAdds(1, 0, 32 - mask);
    ContainsIsRange(net, net.addr);
    ShrShl(FirstBlock(net, mask) + k, 32 - mask);
  }

  /** Address i of a network's first block. */
  lemma SingleAt(net: Cidr, mask: PrefixLen, i: nat)
    requires net.len <= mask && i < BlockSize(mask)
    ensures net.Base() + i < net.Base() + BlockSize(net.len) <= ADDRESSES
    ensures IPAdd(net.Base(), i) == net.Base() + i
    ensures Shr(net.Base() + i, 32 - mask) == FirstBlock(net, mask)
  {
    hide Shr;
    RangeIsBlocks(net.len, mask);
    BlockAt(net, mask, 0);
    ShlAdds(0, 0, 32 - mask);
    ShrIs(net.Base() + i, 32 - mask, FirstBlock(net, mask));
  }

  lemma BlocksAre(net: Cidr, mask: PrefixLen, s: string) returns (k: nat)
    requires net.len <= mask && s in MakePool(net, mask).blocks
    ensures 1 <= k < BlockCount(net.len, mask)
    ensures ParseCidr(s).Some? && s == PrintCidr(ParseCidr(s).value)
    ensures ParseCidr(s).value.len == mask && ParseCidr(s).value.addr == net.Base() + Shl(k, 32 - mask)
  {
    hide PrintCidr, ParseCidr;
    BlockNamesAre(net.Base(), mask, BlockCount(net.len, mask), s);
    k :| 1 <= k < BlockCount(net.len, mask) && s == BlockText(net.Base(), mask, k);
    BlockAt(net, mask, k);
    CidrRoundTrip(Cidr(net.Base() + Shl(k, 32 - mask), mask));
  }

  lemma SinglesAre(net: Cidr, mask: PrefixLen, s: string) returns (i: nat)
    requires net.len <= mask && s in MakePool(net, mask).singles
    ensures 1 <= i < BlockSize(mask)
    ensures ParseCidr(s).Some? && s == PrintCidr(ParseCidr(s).value)
    ensures ParseCidr(s).value.len == 32 && ParseCidr(s).value.addr == net.Base() + i
  {
    hide PrintCidr, ParseCidr;
    SingleNamesAre(net.Base(), BlockSize(mask), s);
    i :| 1 <= i < BlockSize(mask) && s == SingleText(net.Base(), i);
    SingleAt(net, mask, i);
    CidrRoundTrip(Cidr(net.Base() + i, 32));
  }

  // ---------- tiling ----------

  /** The parts the network is cut into: its first address, which is never leased, and the pool. */
  ghost predicate IsPiece(net: Cidr, mask: PrefixLen, p: Cidr) {
    p == Cidr(net.Base(), 32) || MakePool(net, mask).IsMember(PrintCidr(p))
  }

  /** The part an address of the network belongs to. */
  function PieceOf(net: Cidr, mask: PrefixLen, a: Addr): Cidr
    requires net.len <= mask
  {
    if Shr(a, 32 - mask) == FirstBlock(net, mask) then Cidr(a, 32) else Cidr(a, mask).Network()
  }

  /** The pool and the first address tile the network: the parts that contain an address are
      exactly one part when the address is in the network, and no part otherwise. */
  lemma Tiling(net: Cidr, mask: PrefixLen, p: Cidr, a: Addr)
    requires net.len <= mask
    ensures IsPiece(net, mask, p) && p.Contains(a) <==> net.Contains(a) && p == PieceOf(net, mask, a)
  {
    if IsPiece(net, mask, p) && p.Contains(a) {
      PieceContains(net, mask, p, a);
    }
    if net.Contains(a) {
      AddressHasPiece(net, mask, a);
    }
  }

  lemma PieceContains(net: Cidr, mask: PrefixLen, p: Cidr, a: Addr)
    requires net.len <= mask
    requires IsPiece(net, mask, p) && p.Contains(a)
    ensures net.Contains(a) && p == PieceOf(net, mask, a)
  {
    hide PrintCidr, ParseCidr, Shl, Shr, PieceOf;
    if PrintCidr(p) in MakePool(net, mask).blocks {
      BlockContains(net, mask, p, a);
    } else {
      assert p.len == 32 && net.Base() <= p.addr < net.Base() + BlockSize(mask) by {
        ShlAdds(1, 0, 32 - mask);
        if PrintCidr(p) in MakePool(net, mask).singles {
          CidrRoundTrip(p);
          var i := SinglesAre(net, mask, PrintCidr(p));
        }
      }
      HostPrefix(p.addr);
      SingleIsPiece(net, mask, a);
    }
  }

  lemma BlockContains(net: Cidr, mask: PrefixLen, p: Cidr, a: Addr)
    requires net.len <= mask && PrintCidr(p) in MakePool(net, mask).blocks && p.Contains(a)
    ensures net.Contains(a) && p == PieceOf(net, mask, a)
  {
    hide PrintCidr, ParseCidr, Shl, Shr, MakePool;
    CidrRoundTrip(p);
    var k := BlocksAre(net, mask, PrintCidr(p));
    BlockAt(net, mask, k);
    ContainsIsRange(net, a);
    ContainsIsRange(p, a);
  }

  lemma SingleIsPiece(net: Cidr, mask: PrefixLen, a: Addr)
    requires net.len <= mask && net.Base() <= a < net.Base() + BlockSize(mask)
    ensures net.Contains(a) && PieceOf(net, mask, a) == Cidr(a, 32)
  {
    hide Shl, Shr;
    SingleAt(net, mask, a - net.Base());
    ContainsIsRange(net, a);
  }

  lemma AddressHasPiece(net: Cidr, mask: PrefixLen, a: Addr)
    requires net.len <= mask && net.Contains(a)
    ensures IsPiece(net, mask, PieceOf(net, mask, a)) && PieceOf(net, mask, a).Contains(a)
  {
    hide PrintCidr, ParseCidr, Shl, Shr;
    var k := BlockIndex(net, mask, a);
    BlockAt(net, mask, k);
    NetworkKeepsRange(Cidr(a, mask));
    if k == 0 {
      var i := a - net.Base();
      ShlAdds(0, 0, 32 - mask);
      HostPrefix(a);
      SingleAt(net, mask, i);
      SingleNamesAre(net.Base(), BlockSize(mask), SingleText(net.Base(), i));
    } else {
      BlockNamesAre(net.Base(), mask, BlockCount(net.len, mask), BlockText(net.Base(), mask, k));
    }
  }

  /** The block of the network that holds one of its addresses. */
  lemma BlockIndex(net: Cidr, mask: PrefixLen, a: Addr) returns (k: nat)
    requires net.len <= mask && net.Contains(a)
    ensures k < BlockCount(net.len, mask)
    ensures Shr(a, 32 - mask) == FirstBlock(net, mask) + k
    ensures net.Base() + Shl(k, 32 - mask) == Cidr(a, mask).Base() <= a
    ensures a < net.Base() + Shl(k, 32 - mask) + BlockSize(mask)
  {
    hide Shl, Shr;
    var first, q := FirstBlock(net, mask), Shr(a, 32 - mask);
    ShrShr(a, 32 - mask, mask - net.len);
    ShrIs(q, mask - net.len, net.Number());
    k := q - first;
    ShlAdds(first, k, 32 - mask);
    ShlShl(net.Number(), mask - net.len, 32 - mask);
    ShrFloors(a, 32 - mask);
  }

  ghost predicate StaysInside(net: Cidr, mask: PrefixLen) {
    forall p: Cidr, a: Addr :: MakePool(net, mask).IsMember(PrintCidr(p)) && p.Contains(a) ==> net.Contains(a)
  }

  /** The pool stays inside the network exactly when blocks are no larger than the network. */
  lemma PoolStaysInside(net: Cidr, mask: PrefixLen)
    ensures StaysInside(net, mask) <==> net.len <= mask
  {
    hide PrintCidr, ParseCidr, Shl, Shr, MakePool;
    if net.len <= mask {
      forall p: Cidr, a: Addr | MakePool(net, mask).IsMember(PrintCidr(p)) && p.Contains(a) ensures net.Contains(a) {
        PieceContains(net, mask, p, a);
      }
    } else {
      LargeBlocksLeave(net, mask);
    }
  }

  /** The first address after the network is handed out when blocks are larger than the network. */
  lemma LargeBlocksLeave(net: Cidr, mask: PrefixLen)
    requires mask < net.len
    ensures var p := Cidr(IPAdd(net.Base(), BlockSize(net.len)), 32);
      MakePool(net, mask).IsMember(PrintCidr(p)) && p.Contains(p.addr) && !net.Contains(p.addr)
  {
    hide PrintCidr, ParseCidr, Shl, Shr;
    var size := BlockSize(net.len);
    var a := IPAdd(net.Base(), size);
    RangeIsBlocks(net.len, mask);
    RangeIsBlocks(net.len, 0);
    AddressSpace();
    ShlAdds(1, 0, 32 - net.len);
    SingleNamesAre(net.Base(), BlockSize(mask), SingleText(net.Base(), size));
    ContainsIsRange(net, net.addr);
    ContainsIsRange(net, a);
    HostPrefix(a);
  }

  /** Distinct members of the pool cover disjoint ranges. */
  lemma MembersAreDisjoint(net: Cidr, mask: PrefixLen, s: string, t: string)
    requires net.len <= mask
    requires MakePool(net, mask).IsMember(s) && MakePool(net, mask).IsMember(t) && s != t
    ensures ParseCidr(s).Some? && ParseCidr(t).Some?
    ensures Disjoint(ParseCidr(s).value, ParseCidr(t).value)
  {
    hide PrintCidr, ParseCidr;
    MemberParses(net, mask, s);
    MemberParses(net, mask, t);
    var p, q := ParseCidr(s).value, ParseCidr(t).value;
    forall a: Addr ensures !(p.Contains(a) && q.Contains(a)) {
      if p.Contains(a) && q.Contains(a) {
        PieceContains(net, mask, p, a);
        PieceContains(net, mask, q, a);
      }
    }
  }

  /** A member reads back as an aligned prefix inside the network; when blocks are longer than one
      address the database's text test tells the two classes apart. */
  lemma MemberParses(net: Cidr, mask: PrefixLen, s: string)
    requires net.len <= mask && MakePool(net, mask).IsMember(s)
    ensures ParseCidr(s).Some? && s == PrintCidr(ParseCidr(s).value)
    ensures ParseCidr(s).value.Network() == ParseCidr(s).value
    ensures mask <= ParseCidr(s).value.len
    ensures net.Contains(ParseCidr(s).value.addr) && ParseCidr(s).value.addr != net.Base()
    ensures mask < 32 ==> (s in MakePool(net, mask).singles <==> EndsInSlash32(s))
    ensures mask < 32 ==> (s in MakePool(net, mask).blocks <==> !EndsInSlash32(s))
    ensures 1 <= |s| <= 18
  {
    hide PrintCidr, ParseCidr, EndsInSlash32, Shl, Shr;
    var pool := MakePool(net, mask);
    if s in pool.singles {
      var i := SinglesAre(net, mask, s);
      HostPrefix(net.Base() + i);
    }
    if s in pool.blocks {
      var k := BlocksAre(net, mask, s);
      BlockAt(net, mask, k);
      ShlAdds(k, 0, 32 - mask);
    }
    var p := ParseCidr(s).value;
    CidrRoundTrip(p);
    NetworkKeepsRange(p);
    PieceContains(net, mask, p, p.addr);
  }

  // ---------- sizes ----------

  lemma {:induction false} BlockNamesCount(net: Cidr, mask: PrefixLen, n: nat)
    requires net.len <= mask && 1 <= n <= BlockCount(net.len, mask)
    ensures |BlockNames(net.Base(), mask, n)| == n - 1
  {
    hide PrintCidr, ParseCidr;
    if n > 1 {
      BlockNamesCount(net, mask, n - 1);
      var s := BlockText(net.Base(), mask, n - 1);
      BlockNamesAre(net.Base(), mask, n - 1, s);
      forall k | 1 <= k < n - 1 ensures s != BlockText(net.Base(), mask, k) {
        BlockTextsDiffer(net, mask, k, n - 1);
      }
    }
  }

  lemma BlockTextsDiffer(net: Cidr, mask: PrefixLen, k: nat, l: nat)
    requires net.len <= mask && k < l < BlockCount(net.len, mask)
    ensures BlockText(net.Base(), mask, k) != BlockText(net.Base(), mask, l)
  {
    hide PrintCidr, ParseCidr;
    BlockAt(net, mask, k);
    BlockAt(net, mask, l);
    ShlMonotone(k, l, 32 - mask);
    CidrRoundTrip(Cidr(net.Base() + Shl(k, 32 - mask), mask));
    CidrRoundTrip(Cidr(net.Base() + Shl(l, 32 - mask), mask));
  }

  lemma {:induction false} SingleNamesCount(net: Cidr, mask: PrefixLen, n: nat)
    requires net.len <= mask && 1 <= n <= BlockSize(mask)
    ensures |SingleNames(net.Base(), n)| == n - 1
  {
    hide PrintCidr, ParseCidr;
    if n > 1 {
      SingleNamesCount(net, mask, n - 1);
      var s := SingleText(net.Base(), n - 1);
      SingleNamesAre(net.Base(), n - 1, s);
      SingleAt(net, mask, n - 1);
      CidrRoundTrip(Cidr(net.Base() + n - 1, 32));
      forall i | 1 <= i < n - 1 ensures s != SingleText(net.Base(), i) {
        SingleAt(net, mask, i);
        CidrRoundTrip(Cidr(net.Base() + i, 32));
      }
    }
  }

  /** The pool holds 2^(mask - netLen) - 1 blocks and 2^(32 - mask) - 1 single addresses. */
  lemma PoolSizes(net: Cidr, mask: PrefixLen)
    requires net.len <= mask
    ensures |MakePool(net, mask).blocks| == Shl(1, mask - net.len) - 1
    ensures |MakePool(net, mask).singles| == Shl(1, 32 - mask) - 1
  {
    hide PrintCidr, ParseCidr;
    ShlAdds(1, 0, mask - net.len);
    ShlAdds(1, 0, 32 - mask);
    BlockNamesCount(net, mask, BlockCount(net.len, mask));
    SingleNamesCount(net, mask, BlockSize(mask));
  }

  // ---------- picking a free member ----------

  function Elements(s: seq<string>): set<string> {
    set i | 0 <= i < |s| :: s[i]
  }

  /** `order` lists the members of a set, each once. */
  ghost predicate Enumerates(order: seq<string>, s: set<string>) {
    && |order| == |s|
    && (forall i :: 0 <= i < |order| ==> order[i] in s)
    && (forall x :: x in s ==> x in order)
    && (forall i, j :: 0 <= i < j < |order| ==> order[i] != order[j])
  }

  /** Picks a free member of the pool.  `order` is the order the map iteration happened to take and
      `pick` decides the random index.  The result is the empty text exactly when every member is
      taken, unless the pool holds the empty text. */
  method GetAvailable(taken: seq<string>, pool: set<string>, pick: nat)
    returns (subnet: string, ghost order: seq<string>)
    ensures Enumerates(order, pool - Elements(taken))
    ensures subnet == (if order == [] then "" else order[pick % |order|])
    ensures "" !in pool ==> (subnet == "" <==> pool <= Elements(taken))
    ensures subnet != "" ==> subnet in pool && subnet !in taken
  {
    var available := pool;
    for j := 0 to |taken|
      invariant available == pool - Elements(taken[..j])
    {
      available := available - {taken[j]};
      assert taken[..j + 1] == taken[..j] + [taken[j]];
      assert Elements(taken[..j + 1]) == Elements(taken[..j]) + {taken[j]};
    }
    assert taken[..|taken|] == taken;
    order := [];
    if |available| == 0 {
      return "", order;
    }
    var i := pick % |available|;
    var n := 0;
    subnet := "";
    var rest := available;
    while rest != {}
      invariant rest <= available && |order| == n && n + |rest| == |available|
      invariant forall x :: x in available <==> x in rest || x in order
      invariant forall k :: 0 <= k < |order| ==> order[k] in available && order[k] !in rest
      invariant forall k, l :: 0 <= k < l < |order| ==> order[k] != order[l]
      invariant subnet == (if i < n then order[i] else "")
      decreases rest
    {
      var next :| next in rest;
      if i == n {
        subnet := next;
      }
      order, rest := order + [next], rest - {next};
      n := n + 1;
    }
  }

  lemma SmallIndex(i: nat, n: nat)
    requires i < n
    ensures i % n == i
  {
  }

  /** Any free member can be picked: some index selects it, whatever the iteration order. */
  lemma EveryFreeMemberCanBePicked(order: seq<string>, free: set<string>, x: string)
    requires Enumerates(order, free) && x in free
    ensures exists pick :: 0 <= pick < |order| && order[pick % |order|] == x
  {
    var i :| 0 <= i < |order| && order[i] == x;
    SmallIndex(i, |order|);
  }
}
