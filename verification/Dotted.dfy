/** What dotted texts mean to a reader: which addresses a prefix covers, number by number, and how texts begin. */
module Dotted {
  import opened Wrappers
  import opened Addressing
  import opened Text
  import opened IPText
  import opened HardwareAddr
  import opened CidrPool

  lemma ShrByte(x: nat)
    ensures Shr(x, 8) == x / 256
  {
    ShrFloors(x, 8);
    var q := Shr(x, 8);
    ShlByte(q);
    ShlByte(1);
  }

  lemma ShlByte(q: nat)
    ensures Shl(q, 8) == 256 * q
  {
    assert Shl(q, 1) == 2 * Shl(q, 0) == 2 * q;
    assert Shl(q, 3) == 2 * Shl(q, 2) == 4 * Shl(q, 1);
    assert Shl(q, 5) == 2 * Shl(q, 4) == 4 * Shl(q, 3);
    assert Shl(q, 7) == 2 * Shl(q, 6) == 4 * Shl(q, 5);
    assert Shl(q, 8) == 2 * Shl(q, 7);
  }

  lemma ShrBytes(a: Addr)
    ensures Shr(a, 8) == a / 0x100 && Shr(a, 16) == a / 0x1_0000 && Shr(a, 24) == a / 0x100_0000 && Shr(a, 32) == 0
  {
    hide Shr;
    ShrByte(a);
    ShrByte(a / 0x100);
    ShrByte(a / 0x1_0000);
    ShrByte(a / 0x100_0000);
    ShrShr(a, 8, 8);
    ShrShr(a, 16, 8);
    ShrShr(a, 24, 8);
  }

  /** The network number of a prefix of k bytes, from its first k numbers. */
  lemma NumberOfBytes(a: Addr)
    ensures var o := Octets(a);
      && a / 0x100_0000 == o[0]
      && a / 0x1_0000 == 0x100 * o[0] as int + o[1]
      && a / 0x100 == 0x100 * (a / 0x1_0000) + o[2]
      && a == 0x100 * (a / 0x100) + o[3]
  {
  }

  /** A prefix of k bytes covers exactly the addresses whose first k numbers are its own. */
  lemma PrefixIsNumbers(a: Addr, b: Addr, k: nat)
    requires k <= 4
    ensures Cidr(a, 8 * k).Contains(b) <==> Octets(a)[..k] == Octets(b)[..k]
  {
    hide Octets, Shr;
    var o, p := Octets(a), Octets(b);
    assert Shr(a, 0) == a && Shr(b, 0) == b by { ShrNothing(a); ShrNothing(b); }
    ShrBytes(a);
    ShrBytes(b);
    NumberOfBytes(a);
    NumberOfBytes(b);
    assert o[..k] == p[..k] <==> forall i :: 0 <= i < k ==> o[i] == p[i];
    match k
    case 0 =>
    case 1 => assert o[..1] == p[..1] <==> o[0] == p[0];
    case 2 => assert o[..2] == p[..2] <==> o[0] == p[0] && o[1] == p[1];
    case 3 => assert o[..3] == p[..3] <==> o[0] == p[0] && o[1] == p[1] && o[2] == p[2];
    case 4 => assert o[..4] == p[..4] <==> o[0] == p[0] && o[1] == p[1] && o[2] == p[2] && o[3] == p[3];
  }

  lemma ShrNothing(x: nat)
    ensures Shr(x, 0) == x
  {
  }

  /** Numbers with a dot after each. */
  function NumbersText(o: seq<Byte>): string {
    if o == [] then [] else NumbersText(o[..|o| - 1]) + Decimal(o[|o| - 1]) + ['.']
  }

  lemma AddressStarts(a: Addr, k: nat)
    requires k <= 3
    ensures NumbersText(Octets(a)[..k]) <= PrintIP(a)
  {
    hide Octets, Decimal;
    var o := Octets(a);
    JoinFour(Decimal(o[0]), Decimal(o[1]), Decimal(o[2]), Decimal(o[3]), '.');
    assert o[..1][..0] == [] && o[..2][..1] == o[..1] && o[..3][..2] == o[..2] && o[..0] == [];
    var one := Decimal(o[0]) + ['.'];
    var two := one + Decimal(o[1]) + ['.'];
    var three := two + Decimal(o[2]) + ['.'];
    assert NumbersText(o[..1]) == one && NumbersText(o[..2]) == two && NumbersText(o[..3]) == three;
    assert PrintIP(a) == three + Decimal(o[3]);
  }

  /** In a network of k bytes every subnet that is handed out is written with the network's first k numbers. */
  lemma MemberTextStarts(net: Cidr, mask: PrefixLen, k: nat, s: string)
    requires k <= 3 && net.len == 8 * k <= mask && MakePool(net, mask).IsMember(s)
    ensures NumbersText(Octets(net.addr)[..k]) <= s
    ensures ParseCidr(s).Some? && Octets(ParseCidr(s).value.addr)[..k] == Octets(net.addr)[..k]
  {
    hide PrintIP, ParseCidr, Octets, NumbersText, MakePool, Shl, Shr, EndsInSlash32;
    MemberParses(net, mask, s);
    var p := ParseCidr(s).value;
    PrefixIsNumbers(net.addr, p.addr, k);
    AddressStarts(p.addr, k);
    assert PrintIP(p.addr) <= s;
  }

  // ---------- known texts ----------

  lemma KnownNumbers()
    ensures Decimal(0) == "0" && Decimal(1) == "1" && Decimal(10) == "10" && Decimal(16) == "16" && Decimal(24) == "24"
    ensures Decimal(255) == "255"
  {
    assert Decimal(2) == "2" && Decimal(25) == Decimal(2) + "5" && Decimal(255) == Decimal(25) + "5";
    assert Decimal(24) == Decimal(2) + "4" && Decimal(10) == Decimal(1) + "0" && Decimal(16) == Decimal(1) + "6";
  }

  lemma KnownAddress(a: Addr, o: seq<Byte>)
    requires |o| == 4 && Octets(a) == o
    ensures PrintIP(a) == Decimal(o[0]) + "." + (Decimal(o[1]) + "." + (Decimal(o[2]) + "." + Decimal(o[3])))
  {
    JoinFour(Decimal(o[0]), Decimal(o[1]), Decimal(o[2]), Decimal(o[3]), '.');
  }

  /** How 10.255.0.0/16, its first block of 256 addresses and 10.255.0.1 are read, and that block's hardware address. */
  lemma KnownTexts()
    ensures ParseCidr("10.255.0.0/16") == Some(Cidr(0x0aff_0000, 16))
    ensures ParseCidr("10.255.1.0/24") == Some(Cidr(0x0aff_0100, 24))
    ensures PrintMac(VtepMac(0x0aff_0100)) == "ee:ee:0a:ff:01:00"
    ensures ParseIPv4("::ffff:aff:1") == Some(0x0aff_0001)
  {
    hide ParseCidr, PrintCidr, PrintMac, VtepMac, ParseIPv4, HexMappedText;
    KnownPrefixes();
    CidrRoundTrip(Cidr(0x0aff_0000, 16));
    CidrRoundTrip(Cidr(0x0aff_0100, 24));
    KnownMac();
    KnownHexText();
    HexMappedReads(0x0aff_0001);
  }

  lemma KnownPrefixes()
    ensures PrintCidr(Cidr(0x0aff_0000, 16)) == "10.255.0.0/16"
    ensures PrintCidr(Cidr(0x0aff_0100, 24)) == "10.255.1.0/24"
  {
    hide Decimal, PrintIP;
    KnownNumbers();
    assert Octets(0x0aff_0000) == [10, 255, 0, 0] && Octets(0x0aff_0100) == [10, 255, 1, 0];
    KnownAddress(0x0aff_0000, [10, 255, 0, 0]);
    KnownAddress(0x0aff_0100, [10, 255, 1, 0]);
  }

  lemma KnownMac()
    ensures PrintMac(VtepMac(0x0aff_0100)) == "ee:ee:0a:ff:01:00"
  {
    hide PrintBytes, Join, VtepMac;
    KnownVtepMac();
    KnownMacFields();
    KnownMacText();
  }

  lemma KnownVtepMac()
    ensures VtepMac(0x0aff_0100) == [0xee, 0xee, 10, 255, 1, 0]
  {
  }

  lemma KnownMacFields()
    ensures PrintBytes([0xee, 0xee, 10, 255, 1, 0]) == ["ee", "ee", "0a", "ff", "01", "00"]
  {
    hide PrintBytes, PrintByte;
    KnownBytes();
    var f := PrintBytes([0xee, 0xee, 10, 255, 1, 0]);
    assert f == [f[0], f[1], f[2], f[3], f[4], f[5]];
  }

  lemma KnownMacText()
    ensures Join(["ee", "ee", "0a", "ff", "01", "00"], ':') == "ee:ee:0a:ff:01:00"
  {
    hide Join;
    JoinFour("0a", "ff", "01", "00", ':');
    JoinFirst("ee", ["0a", "ff", "01", "00"]);
    JoinFirst("ee", ["ee", "0a", "ff", "01", "00"]);
    assert ["ee"] + ["0a", "ff", "01", "00"] == ["ee", "0a", "ff", "01", "00"];
    assert ["ee"] + ["ee", "0a", "ff", "01", "00"] == ["ee", "ee", "0a", "ff", "01", "00"];
  }

  lemma JoinFirst(x: string, rest: seq<string>)
    requires rest != []
    ensures Join([x] + rest, ':') == x + ":" + Join(rest, ':')
  {
    assert ([x] + rest)[1..] == rest;
  }

  lemma KnownBytes()
    ensures PrintByte(0xee) == "ee" && PrintByte(10) == "0a" && PrintByte(255) == "ff" && PrintByte(1) == "01"
    ensures PrintByte(0) == "00"
  {
  }

  lemma KnownHexFields()
    ensures HexText(0xaff) == "aff" && HexText(1) == "1"
  {
    assert HexDigit(0xa) == 'a' && HexDigit(0xf) == 'f' && HexDigit(1) == '1';
    hide HexDigit;
    assert HexText(0xa) == "a";
    assert HexText(0xaf) == HexText(0xa) + "f";
    assert HexText(0xaff) == HexText(0xaf) + "f";
  }

  lemma KnownHexText()
    ensures HexMappedText(0x0aff_0001) == "::ffff:aff:1"
  {
    hide HexText;
    KnownHexFields();
    assert 0x0aff_0001 / 0x1_0000 == 0xaff && 0x0aff_0001 % 0x1_0000 == 1;
  }

  /** So the pool of 10.255.0.0/16 cut at 24 has the block 10.255.1.0/24. */
  lemma KnownPool()
    ensures "10.255.1.0/24" in MakePool(Cidr(0x0aff_0000, 16), 24).blocks
  {
    hide PrintCidr, Shl, Shr;
    var net := Cidr(0x0aff_0000, 16);
    KnownPrefixes();
    ShrBytes(0x0aff_0000);
    ShlShl(0x0aff, 8, 8);
    ShlByte(0x0aff);
    ShlByte(0x0a_ff00);
    assert net.Base() == 0x0aff_0000;
    ShlByte(1);
    BlockNamesAre(net.Base(), 24, 256, "10.255.1.0/24");
    assert BlockText(net.Base(), 24, 1) == "10.255.1.0/24";
  }

  // ---------- other texts of the same value ----------

  function Zeros(n: nat): (s: string)
    ensures AllDigits(s)
  {
    if n == 0 then "" else "0" + Zeros(n - 1)
  }

  lemma {:induction false} DigitsAfter(d: string, e: string)
    requires AllDigits(d) && AllDigits(e) && DecimalValue(d) == 0
    ensures AllDigits(d + e) && DecimalValue(d + e) == DecimalValue(e)
  {
    if e == [] {
      assert d + e == d;
    } else {
      assert (d + e)[..|d + e| - 1] == d + e[..|e| - 1];
      DigitsAfter(d, e[..|e| - 1]);
    }
  }

  lemma {:induction false} ZerosAreNothing(n: nat)
    ensures DecimalValue(Zeros(n)) == 0
  {
    if n > 0 {
      ZerosAreNothing(n - 1);
      assert "0"[..0] == "";
      assert DecimalValue("0") == 0;
      DigitsAfter("0", Zeros(n - 1));
    }
  }

  /** A prefix length may be written with leading zeros, unlike the numbers of an address; the database then takes it
      for a block, whatever it is. */
  lemma PrefixLengthMayHaveZeros(c: Cidr, n: nat)
    ensures ParseCidr(PrintIP(c.addr) + "/" + (Zeros(n) + Decimal(c.len))) == Some(c)
    ensures 0 < n ==> !EndsInSlash32(PrintIP(c.addr) + "/" + (Zeros(n) + Decimal(c.len)))
  {
    hide *;
    var ip, d := PrintIP(c.addr), Zeros(n) + Decimal(c.len);
    ZerosAreNothing(n);
    DigitsAfter(Zeros(n), Decimal(c.len));
    DecimalRoundTrip(c.len);
    DottedRoundTrip(c.addr);
    PrefixReads(ip, d, c.addr);
    if n > 0 {
      ZerosStart(n);
      ZeroHidesSlash32(ip, d);
    }
  }

  lemma PrefixReads(ip: string, d: string, a: Addr)
    requires ParseDotted(ip) == Some(a) && '/' !in ip && d != [] && AllDigits(d) && DecimalValue(d) <= 32
    ensures ParseCidr(ip + "/" + d) == Some(Cidr(a, DecimalValue(d)))
  {
    hide ParseDotted, DecimalValue;
    DigitsAvoid(d, '/');
    SplitField(ip, d, '/');
    SplitField(d, [], '/');
  }

  lemma ZerosStart(n: nat)
    requires 0 < n
    ensures Zeros(n) != [] && Zeros(n)[0] == '0'
  {
  }

  lemma ZeroHidesSlash32(ip: string, d: string)
    requires 2 <= |d| && AllDigits(d) && d[0] == '0'
    ensures !EndsInSlash32(ip + "/" + d)
  {
    var s := ip + "/" + d;
    if |d| == 2 {
      assert s[|s| - 3..][1] == d[0];
    } else {
      assert s[|s| - 3..][0] == d[|d| - 3];
      assert IsDigit(d[|d| - 3]);
    }
  }

  /** The bytes of a hardware address in pairs. */
  function Pairs(f: seq<string>): (p: seq<string>)
    requires |f| % 2 == 0
    ensures |p| == |f| / 2
  {
    if f == [] then [] else [f[0] + f[1]] + Pairs(f[2..])
  }

  lemma {:induction false} HalvesOfPairs(f: seq<string>)
    requires |f| % 2 == 0 && forall i :: 0 <= i < |f| ==> |f[i]| == 2
    ensures Halves(Pairs(f)) == f && forall i :: 0 <= i < |Pairs(f)| ==> |Pairs(f)[i]| == 4
  {
    if f != [] {
      HalvesOfPairs(f[2..]);
      var p := f[0] + f[1];
      assert p[..2] == f[0] && p[2..] == f[1];
      assert Pairs(f)[1..] == Pairs(f[2..]);
      assert f == [f[0], f[1]] + f[2..];
    }
  }

  lemma {:induction false} PairsAvoid(f: seq<string>, c: char)
    requires |f| % 2 == 0 && forall i :: 0 <= i < |f| ==> c !in f[i]
    ensures forall i :: 0 <= i < |Pairs(f)| ==> c !in Pairs(f)[i]
  {
    if f != [] { PairsAvoid(f[2..], c); }
  }

  lemma {:induction false} JoinAvoids(f: seq<string>, sep: char, c: char)
    requires f != [] && sep != c && forall i :: 0 <= i < |f| ==> c !in f[i]
    ensures c !in Join(f, sep)
  {
    if |f| > 1 { JoinAvoids(f[1..], sep, c); }
  }

  function CapitalDigit(n: nat): char
    requires n < 16
  {
    if n < 10 then DigitChar(n) else ('A' as int + (n - 10)) as char
  }

  /** Two hexadecimal digits in capitals. */
  function CapitalByte(b: Byte): string {
    [CapitalDigit(b / 16), CapitalDigit(b % 16)]
  }

  lemma DigitReads(n: nat, c: char)
    requires n < 16 && (c == HexDigit(n) || c == CapitalDigit(n))
    ensures HexValue(c) == Some(n) && c != ':' && c != '-' && c != '.'
  {
  }

  lemma ByteAvoids(b: Byte, s: string)
    requires s == PrintByte(b) || s == CapitalByte(b)
    ensures ':' !in s && '-' !in s && '.' !in s && IsHexByte(s) && HexByte(s) == b
  {
    hide HexValue, HexDigit, CapitalDigit;
    DigitReads(b / 16, s[0]);
    DigitReads(b % 16, s[1]);
  }

  /** Each byte is written with two hexadecimal digits, in either case. */
  predicate Spells(f: seq<string>, m: Mac): (b: bool)
    ensures b ==> |f| == |m| && 6 <= |f| && |f| % 2 == 0
  {
    |f| == |m| && forall i :: 0 <= i < |f| ==> f[i] == PrintByte(m[i]) || f[i] == CapitalByte(m[i])
  }

  /** A hardware address may be written with colons, with hyphens, or in pairs of bytes with dots, and any of its bytes
      in capitals. */
  lemma MacHasManyTexts(m: Mac, f: seq<string>)
    requires Spells(f, m)
    ensures ParseMac(Join(f, ':')) == Some(m)
    ensures ParseMac(Join(f, '-')) == Some(m)
    ensures ParseMac(Join(Pairs(f), '.')) == Some(m)
  {
    hide PrintByte, CapitalByte, Join, Split, Pairs, Halves, HexValue;
    forall i | 0 <= i < |f|
      ensures ':' !in f[i] && '-' !in f[i] && '.' !in f[i] && IsHexByte(f[i]) && HexByte(f[i]) == m[i]
    {
      ByteAvoids(m[i], f[i]);
    }
    assert HexBytes(f) == m;
    ColonText(f);
    HyphenText(f);
    DottedText(f);
  }

  lemma ColonText(f: seq<string>)
    requires 2 <= |f| && forall i :: 0 <= i < |f| ==> ':' !in f[i]
    ensures ':' in Join(f, ':') && Split(Join(f, ':'), ':') == f
  {
    SplitJoin(f, ':');
    assert Join(f, ':')[|f[0]|] == ':';
  }

  lemma HyphenText(f: seq<string>)
    requires 2 <= |f| && forall i :: 0 <= i < |f| ==> ':' !in f[i] && '-' !in f[i]
    ensures ':' !in Join(f, '-') && '-' in Join(f, '-') && Split(Join(f, '-'), '-') == f
  {
    JoinAvoids(f, '-', ':');
    SplitJoin(f, '-');
    assert Join(f, '-')[|f[0]|] == '-';
  }

  lemma DottedText(f: seq<string>)
    requires 4 <= |f| && |f| % 2 == 0
    requires forall i :: 0 <= i < |f| ==> |f[i]| == 2 && ':' !in f[i] && '-' !in f[i] && '.' !in f[i]
    ensures var s := Join(Pairs(f), '.');
      && ':' !in s && '-' !in s && '.' in s && Split(s, '.') == Pairs(f)
      && (forall w :: w in Pairs(f) ==> |w| == 4) && Halves(Pairs(f)) == f
  {
    hide Halves;
    var p := Pairs(f);
    PairsAvoid(f, ':');
    PairsAvoid(f, '-');
    PairsAvoid(f, '.');
    JoinAvoids(p, '.', ':');
    JoinAvoids(p, '.', '-');
    SplitJoin(p, '.');
    HalvesOfPairs(f);
    assert Join(p, '.')[|p[0]|] == '.';
  }
}
