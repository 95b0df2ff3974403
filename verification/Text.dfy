/** The text forms that travel between the components: dotted IPv4 addresses, IPv4 prefixes and hardware
    addresses, with the strictness of Go's `net` package. */
module Text {
  import opened Wrappers
  import opened Addressing

  type Byte = b: nat | b < 256

  /** A hardware address of 6, 8 or 20 bytes. */
  type Mac = m: seq<Byte> | |m| in {6, 8, 20} witness [0, 0, 0, 0, 0, 0]

  // ---------- decimal numbers ----------

  predicate IsDigit(c: char) {
    '0' <= c <= '9'
  }

  predicate AllDigits(s: string) {
    forall i :: 0 <= i < |s| ==> IsDigit(s[i])
  }

  function DigitChar(d: nat): (c: char)
    requires d < 10
    ensures IsDigit(c) && c as int - '0' as int == d
  {
    ('0' as int + d) as char
  }

  function Decimal(n: nat): (s: string)
    ensures s != [] && AllDigits(s)
  {
    if n < 10 then [DigitChar(n)] else Decimal(n / 10) + [DigitChar(n % 10)]
  }

  function DecimalValue(s: string): nat
    requires AllDigits(s)
  {
    if s == [] then 0
    else 10 * DecimalValue(s[..|s| - 1]) + (s[|s| - 1] as int - '0' as int)
  }

  predicate NoLeadingZero(s: string) {
    |s| > 1 ==> s[0] != '0'
  }

  lemma {:induction false} DecimalRoundTrip(n: nat)
    ensures DecimalValue(Decimal(n)) == n
    ensures NoLeadingZero(Decimal(n))
    ensures Decimal(n)[0] == '0' ==> n == 0
  {
    if n >= 10 {
      DecimalRoundTrip(n / 10);
      var s := Decimal(n);
      assert s[..|s| - 1] == Decimal(n / 10);
    }
  }

  lemma {:induction false} DecimalIsCanonical(s: string)
    requires s != [] && AllDigits(s) && NoLeadingZero(s)
    ensures Decimal(DecimalValue(s)) == s
    ensures |s| > 1 ==> DecimalValue(s) >= 10
  {
    var front := s[..|s| - 1];
    assert s == front + [s[|s| - 1]];
    if |s| > 1 {
      DecimalIsCanonical(front);
      if |front| == 1 {
        assert front[..0] == [];
        assert DecimalValue(front) == front[0] as int - '0' as int;
      }
      assert DecimalValue(front) >= 1;
      assert DecimalValue(s) / 10 == DecimalValue(front);
    } else {
      assert front == [];
    }
  }

  lemma {:induction false} DecimalWidth(n: nat)
    ensures |Decimal(n)| == (if n < 10 then 1 else 1 + |Decimal(n / 10)|)
    ensures n < 100 ==> |Decimal(n)| <= 2
    ensures n < 1000 ==> |Decimal(n)| <= 3
  {
    if n >= 10 { DecimalWidth(n / 10); }
  }

  // ---------- separated fields ----------

  function Split(s: string, sep: char): (fields: seq<string>)
    ensures fields != []
  {
    if s == [] then [[]]
    else
      var rest := Split(s[1..], sep);
      if s[0] == sep then [[]] + rest else [[s[0]] + rest[0]] + rest[1..]
  }

  function Join(fields: seq<string>, sep: char): string
    requires fields != []
  {
    if |fields| == 1 then fields[0] else fields[0] + [sep] + Join(fields[1..], sep)
  }

  lemma {:induction false} SplitField(p: string, rest: string, sep: char)
    requires sep !in p
    ensures Split(p, sep) == [p]
    ensures Split(p + [sep] + rest, sep) == [p] + Split(rest, sep)
  {
    if p == [] {
      assert ([sep] + rest)[1..] == rest;
      assert p + [sep] + rest == [sep] + rest;
    } else {
      SplitField(p[1..], rest, sep);
      assert p == [p[0]] + p[1..];
      assert (p + [sep] + rest)[1..] == p[1..] + [sep] + rest;
    }
  }

  lemma {:induction false} SplitJoin(fields: seq<string>, sep: char)
    requires fields != []
    requires forall i :: 0 <= i < |fields| ==> sep !in fields[i]
    ensures Split(Join(fields, sep), sep) == fields
  {
    if |fields| == 1 {
      SplitField(fields[0], [], sep);
    } else {
      SplitJoin(fields[1..], sep);
      SplitField(fields[0], Join(fields[1..], sep), sep);
    }
  }

  lemma {:induction false} JoinSplit(s: string, sep: char)
    ensures Join(Split(s, sep), sep) == s
  {
    if s != [] {
      JoinSplit(s[1..], sep);
      var rest := Split(s[1..], sep);
      var fields := Split(s, sep);
      if s[0] == sep {
        assert fields[1..] == rest;
      } else {
        assert fields[1..] == rest[1..];
      }
      assert Join(fields, sep) == [s[0]] + s[1..];
    }
  }

  // ---------- IPv4 addresses ----------

  /** The four bytes of an address, most significant first. */
  function Octets(a: Addr): (o: seq<Byte>)
    ensures |o| == 4
  {
    var high, low := a / 0x1_0000, a % 0x1_0000;
    [high / 256, high % 256, low / 256, low % 256]
  }

  function FromOctets(o: seq<Byte>): Addr
    requires |o| == 4
  {
    var high, low := 256 * o[0] as int + o[1], 256 * o[2] as int + o[3];
    0x1_0000 * high + low
  }

  lemma OctetsOfAddress(a: Addr)
    ensures FromOctets(Octets(a)) == a
  {
  }

  lemma AddressOfOctets(o: seq<Byte>)
    requires |o| == 4
    ensures Octets(FromOctets(o)) == o
  {
    var high, low := 256 * o[0] as int + o[1], 256 * o[2] as int + o[3];
    var a := FromOctets(o);
    assert a / 0x1_0000 == high && a % 0x1_0000 == low;
  }

  function PrintIP(a: Addr): string {
    var o := Octets(a);
    Join([Decimal(o[0]), Decimal(o[1]), Decimal(o[2]), Decimal(o[3])], '.')
  }

  predicate IsOctet(s: string) {
    s != [] && AllDigits(s) && NoLeadingZero(s) && DecimalValue(s) <= 255
  }

  /** Dotted-decimal text, whose numbers must not have leading zeros. */
  function ParseDotted(s: string): Option<Addr> {
    var f := Split(s, '.');
    if |f| == 4 && IsOctet(f[0]) && IsOctet(f[1]) && IsOctet(f[2]) && IsOctet(f[3]) then
      Some(FromOctets([DecimalValue(f[0]), DecimalValue(f[1]), DecimalValue(f[2]), DecimalValue(f[3])]))
    else None
  }

  lemma DigitsAvoid(s: string, c: char)
    requires AllDigits(s) && !IsDigit(c)
    ensures c !in s
  {
  }

  lemma OctetRoundTrip(b: Byte)
    ensures IsOctet(Decimal(b)) && DecimalValue(Decimal(b)) == b
    ensures |Decimal(b)| <= 3 && '.' !in Decimal(b) && '/' !in Decimal(b) && ':' !in Decimal(b)
  {
    DigitsAvoid(Decimal(b), ':');
    DecimalRoundTrip(b);
    DecimalWidth(b);
    DigitsAvoid(Decimal(b), '.');
    DigitsAvoid(Decimal(b), '/');
  }

  lemma JoinFour(a: string, b: string, c: string, d: string, sep: char)
    ensures Join([a, b, c, d], sep) == a + [sep] + (b + [sep] + (c + [sep] + d))
  {
    assert [c, d][1..] == [d];
    assert Join([c, d], sep) == c + [sep] + d;
    assert [b, c, d][1..] == [c, d];
    assert Join([b, c, d], sep) == b + [sep] + (c + [sep] + d);
    assert [a, b, c, d][1..] == [b, c, d];
  }

  /** Printing an address and reading it back loses nothing, and the text fits the 15 characters
      of the underlay column. */
  lemma DottedRoundTrip(a: Addr)
    ensures ParseDotted(PrintIP(a)) == Some(a)
    ensures |PrintIP(a)| <= 15 && '/' !in PrintIP(a) && ':' !in PrintIP(a)
  {
    var o := Octets(a);
    OctetRoundTrip(o[0]);
    OctetRoundTrip(o[1]);
    OctetRoundTrip(o[2]);
    OctetRoundTrip(o[3]);
    var f := [Decimal(o[0]), Decimal(o[1]), Decimal(o[2]), Decimal(o[3])];
    SplitJoin(f, '.');
    OctetsOfAddress(a);
    JoinFour(f[0], f[1], f[2], f[3], '.');
  }

  /** The only text accepted for an address is the one that is printed for it. */
  lemma DottedIsCanonical(s: string)
    requires ParseDotted(s).Some?
    ensures PrintIP(ParseDotted(s).value) == s
    ensures |s| <= 15
  {
    var f := Split(s, '.');
    var o: seq<Byte> := [DecimalValue(f[0]), DecimalValue(f[1]), DecimalValue(f[2]), DecimalValue(f[3])];
    AddressOfOctets(o);
    DecimalIsCanonical(f[0]);
    DecimalIsCanonical(f[1]);
    DecimalIsCanonical(f[2]);
    DecimalIsCanonical(f[3]);
    assert f == [f[0], f[1], f[2], f[3]];
    JoinSplit(s, '.');
    DottedRoundTrip(ParseDotted(s).value);
  }

  // ---------- prefix notation ----------

  function PrintCidr(c: Cidr): string {
    PrintIP(c.addr) + ['/'] + Decimal(c.len)
  }

  /** `net.ParseCIDR` restricted to IPv4: the mask may carry leading zeros, the octets may not. */
  function ParseCidr(s: string): Option<Cidr> {
    var f := Split(s, '/');
    if |f| == 2 && ParseDotted(f[0]).Some? && f[1] != [] && AllDigits(f[1]) && DecimalValue(f[1]) <= 32 then
      Some(Cidr(ParseDotted(f[0]).value, DecimalValue(f[1])))
    else None
  }

  /** SQL `LIKE '%/32'`. */
  predicate EndsInSlash32(s: string) {
    |s| >= 3 && s[|s| - 3..] == "/32"
  }

  /** Prefix notation is faithful: reading a printed prefix gives address and length back, the text
      fits the 18 characters of the subnet column, and the class test of the database sees
      exactly the prefixes of length 32. */
  lemma CidrRoundTrip(c: Cidr)
    ensures ParseCidr(PrintCidr(c)) == Some(c)
    ensures 1 <= |PrintCidr(c)| <= 18
    ensures EndsInSlash32(PrintCidr(c)) <==> c.len == 32
  {
    var ip, d := PrintIP(c.addr), Decimal(c.len);
    DottedRoundTrip(c.addr);
    DecimalRoundTrip(c.len);
    DecimalWidth(c.len);
    DigitsAvoid(d, '/');
    SplitField(ip, d, '/');
    SplitField(d, [], '/');
    LengthTextIs32(c.len);
    var s := PrintCidr(c);
    assert s[|s| - |d|..] == d;
    assert s[|s| - |d| - 1] == '/';
  }

  lemma LengthTextIs32(len: PrefixLen)
    ensures Decimal(len) == "32" <==> len == 32
    ensures |Decimal(len)| <= 2
  {
    DecimalRoundTrip(len);
    DecimalWidth(len);
    assert Decimal(3) == [DigitChar(3)];
    assert Decimal(32) == Decimal(3) + [DigitChar(2)];
    assert Decimal(32) == "32";
    DecimalRoundTrip(32);
  }

  // ---------- hardware addresses ----------

  function HexDigit(n: nat): char
    requires n < 16
  {
    if n < 10 then DigitChar(n) else ('a' as int + (n - 10)) as char
  }

  function HexValue(c: char): Option<nat> {
    if '0' <= c <= '9' then Some(c as int - '0' as int)
    else if 'a' <= c <= 'f' then Some(c as int - 'a' as int + 10)
    else if 'A' <= c <= 'F' then Some(c as int - 'A' as int + 10)
    else None
  }

  function PrintByte(b: Byte): (s: string)
    ensures |s| == 2
  {
    [HexDigit(b / 16), HexDigit(b % 16)]
  }

  predicate IsHexByte(s: string) {
    |s| == 2 && HexValue(s[0]).Some? && HexValue(s[1]).Some?
  }

  function HexByte(s: string): Byte
    requires IsHexByte(s)
  {
    HexValue(s[0]).value * 16 + HexValue(s[1]).value
  }

  /** The bytes of hexadecimal fields. */
  function HexBytes(f: seq<string>): (bytes: seq<Byte>)
    requires forall i :: 0 <= i < |f| ==> IsHexByte(f[i])
    ensures |bytes| == |f| && forall i :: 0 <= i < |f| ==> bytes[i] == HexByte(f[i])
  {
    if f == [] then [] else [HexByte(f[0])] + HexBytes(f[1..])
  }

  function PrintBytes(m: seq<Byte>): (f: seq<string>)
    ensures |f| == |m| && forall i :: 0 <= i < |m| ==> f[i] == PrintByte(m[i])
  {
    if m == [] then [] else [PrintByte(m[0])] + PrintBytes(m[1..])
  }

  function PrintMac(m: Mac): string {
    Join(PrintBytes(m), ':')
  }

  function MacOf(f: seq<string>): Option<Mac> {
    if |f| in {6, 8, 20} && forall i :: 0 <= i < |f| ==> IsHexByte(f[i]) then Some(HexBytes(f)) else None
  }

  /** Fields of four characters, each cut in two; a field of another width is left to be refused. */
  function Halves(f: seq<string>): seq<string> {
    if f == [] then []
    else (if |f[0]| == 4 then [f[0][..2], f[0][2..]] else [f[0]]) + Halves(f[1..])
  }

  /** `net.ParseMAC`: bytes separated by colons or by hyphens, or pairs of bytes separated by dots. */
  function ParseMac(s: string): Option<Mac> {
    if ':' in s then MacOf(Split(s, ':'))
    else if '-' in s then MacOf(Split(s, '-'))
    else if '.' in s && forall w :: w in Split(s, '.') ==> |w| == 4 then MacOf(Halves(Split(s, '.')))
    else None
  }

  lemma HexByteRoundTrip(b: Byte)
    ensures IsHexByte(PrintByte(b)) && HexByte(PrintByte(b)) == b
    ensures ':' !in PrintByte(b)
  {
  }

  /** A hardware address reads back from its text; the text of six bytes, and only that, has the 17 characters
      its column allows. */
  lemma MacRoundTrip(m: Mac)
    ensures ParseMac(PrintMac(m)) == Some(m)
    ensures |PrintMac(m)| == 3 * |m| - 1
  {
    var f := PrintBytes(m);
    forall i | 0 <= i < |f|
      ensures IsHexByte(f[i]) && HexByte(f[i]) == m[i] && ':' !in f[i] && |f[i]| == 2
    {
      HexByteRoundTrip(m[i]);
    }
    SplitJoin(f, ':');
    JoinWidth(f, ':');
    assert PrintMac(m)[|f[0]|] == ':';
    assert HexBytes(f) == m;
  }

  lemma {:induction false} JoinWidth(f: seq<string>, sep: char)
    requires f != [] && forall i :: 0 <= i < |f| ==> |f[i]| == 2
    ensures |Join(f, sep)| == 3 * |f| - 1
  {
    if |f| > 1 { JoinWidth(f[1..], sep); }
  }
}
