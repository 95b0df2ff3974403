/** IP addresses of both families as text: `net.ParseIP`, and `net.ParseCIDR` where it reads IPv6 notation.  An
    IPv4 address written in IPv6 notation, such as ::ffff:10.0.0.1, is the same address. */
module IPText {
  import opened Wrappers
  import opened Addressing
  import opened Text

  type Group = g: nat | g < 0x1_0000

  /** An address; `V6` is used only where no IPv4 address is meant. */
  datatype IP = V4(addr: Addr) | V6(groups: seq<Group>)

  // ---------- IPv6 notation ----------

  /** How many hexadecimal digits a text starts with. */
  function HexRun(s: string): (n: nat)
    ensures n <= |s|
  {
    if s != [] && HexValue(s[0]).Some? then 1 + HexRun(s[1..]) else 0
  }

  function HexNumber(s: string): nat {
    if s == [] then 0
    else 16 * HexNumber(s[..|s| - 1]) + (match HexValue(s[|s| - 1]) case None => 0 case Some(d) => d)
  }

  /** The fields read from a text, and the place where "::" stood among them. */
  datatype Fields = Fields(groups: seq<Group>, gap: Option<nat>) {

    predicate Valid() {
      |groups| <= 8 && (gap.Some? ==> gap.value <= |groups|)
    }

    /** The zeros that "::" stands for, at least one field of them, filled in. */
    function Filled(): (ip: Option<IP>)
      requires Valid()
    {
      if |groups| == 8 && gap.None? then Some(FromGroups(groups))
      else if |groups| < 8 && gap.Some? then
        Some(FromGroups(groups[..gap.value] + seq(8 - |groups|, _ => 0) + groups[gap.value..]))
      else None
    }
  }

  function FromGroups(g: seq<Group>): IP
    requires |g| == 8
  {
    if g[..6] == [0, 0, 0, 0, 0, 0xffff] then V4(g[6] as int * 0x1_0000 + g[7]) else V6(g)
  }

  /** Reads the fields of s after those in `got`; the last two may be a dotted IPv4 address. */
  function ReadFields(s: string, got: Fields): (f: Option<Fields>)
    requires got.Valid()
    ensures f.Some? ==> f.value.Valid()
    decreases |s|
  {
    var n := HexRun(s);
    if |got.groups| == 8 || n == 0 then None
    else if n < |s| && s[n] == '.' then
      if |got.groups| > 6 || (got.gap.None? && |got.groups| < 6) then None
      else match ParseDotted(s)
        case None => None
        case Some(a) => Some(Fields(got.groups + [a / 0x1_0000, a % 0x1_0000], got.gap))
    else if n > 4 then None
    else
      var now := Fields(got.groups + [Hex16(s[..n])], got.gap);
      if n == |s| then Some(now)
      else if s[n] != ':' || n + 1 == |s| then None
      else if s[n + 1] != ':' then ReadFields(s[n + 1..], now)
      else if now.gap.Some? then None
      else if n + 2 == |s| then Some(now.(gap := Some(|now.groups|)))
      else ReadFields(s[n + 2..], now.(gap := Some(|now.groups|)))
  }

  function Hex16(s: string): Group
    requires |s| <= 4
  {
    HexNumberFits(s);
    HexNumber(s)
  }

  lemma {:induction false} HexNumberFits(s: string)
    requires |s| <= 4
    ensures HexNumber(s) < 0x1_0000
    ensures |s| <= 3 ==> HexNumber(s) < 0x1000
    ensures |s| <= 2 ==> HexNumber(s) < 0x100
    ensures |s| <= 1 ==> HexNumber(s) < 0x10
  {
    if s != [] { HexNumberFits(s[..|s| - 1]); }
  }

  function ParseIPv6(s: string): Option<IP> {
    if s == "::" then Some(V6([0, 0, 0, 0, 0, 0, 0, 0]))
    else
      var leads := |s| >= 2 && s[..2] == "::";
      match ReadFields(if leads then s[2..] else s, Fields([], if leads then Some(0) else None))
      case None => None
      case Some(f) => f.Filled()
  }

  // ---------- both families ----------

  /** `net.ParseIP`. */
  function ParseIP(s: string): Option<IP> {
    if ':' in s then ParseIPv6(s)
    else match ParseDotted(s)
      case None => None
      case Some(a) => Some(V4(a))
  }

  /** `net.ParseIP(s).To4()`. */
  function ParseIPv4(s: string): Option<Addr> {
    match ParseIP(s)
    case Some(V4(a)) => Some(a)
    case _ => None
  }

  /** The address and the prefix length that `net.ParseCIDR` reads, in either notation. */
  function ParsePrefix(s: string): Option<(IP, nat)> {
    var f := Split(s, '/');
    if |f| == 2 && ParseIP(f[0]).Some? && f[1] != [] && AllDigits(f[1])
       && DecimalValue(f[1]) <= (if ':' in f[0] then 128 else 32)
    then Some((ParseIP(f[0]).value, DecimalValue(f[1])))
    else None
  }

  /** The IPv4 network that a prefix in IPv6 notation comes to, if it lies among the IPv4 addresses. */
  function MappedNetwork(s: string): Option<Cidr> {
    match (ParseCidr(s), ParsePrefix(s))
    case (None, Some((V4(a), len))) => if 96 <= len <= 128 then Some(Cidr(a, len - 96)) else None
    case _ => None
  }

  // ---------- what the texts mean ----------

  predicate AllHex(s: string) {
    forall i :: 0 <= i < |s| ==> HexValue(s[i]).Some?
  }

  lemma {:induction false} HexRunStops(p: string, rest: string)
    requires AllHex(p) && (rest == [] || HexValue(rest[0]).None?)
    ensures HexRun(p + rest) == |p|
  {
    hide HexValue;
    if p == [] {
      assert p + rest == rest;
    } else {
      assert (p + rest)[0] == p[0] && (p + rest)[1..] == p[1..] + rest;
      HexRunStops(p[1..], rest);
    }
  }

  /** An address in IPv6 notation with its last four bytes dotted. */
  function MappedText(a: Addr): string {
    "::ffff:" + PrintIP(a)
  }

  /** A printed address starts with a number and a dot. */
  lemma DottedStarts(a: Addr)
    ensures var s := PrintIP(a); 0 < HexRun(s) < |s| && s[HexRun(s)] == '.' && s[0] != ':'
  {
    var o := Octets(a);
    var d := Decimal(o[0]);
    var rest := Decimal(o[1]) + ['.'] + (Decimal(o[2]) + ['.'] + Decimal(o[3]));
    JoinFour(d, Decimal(o[1]), Decimal(o[2]), Decimal(o[3]), '.');
    assert PrintIP(a) == d + (['.'] + rest);
    HexRunStops(d, ['.'] + rest);
  }

  /** The dotted text of an address names it, and so does the IPv6 notation that ends in it. */
  lemma AddressHasTwoTexts(a: Addr)
    ensures ParseIP(PrintIP(a)) == Some(V4(a))
    ensures ParseIP(MappedText(a)) == Some(V4(a))
    ensures |PrintIP(a)| <= 15 && |MappedText(a)| == |PrintIP(a)| + 7 && MappedText(a) != PrintIP(a)
  {
    hide PrintIP, ParseDotted;
    DottedRoundTrip(a);
    DottedStarts(a);
    var s, d := MappedText(a), PrintIP(a);
    assert s[2..] == "ffff:" + d && s[..2] == "::" && ':' in s;
    FirstFieldIsFfff(d);
    LastFieldsAreDotted(d, a);
    MappedIsFilled(a / 0x1_0000, a % 0x1_0000);
    hide ReadFields;
    assert ParseIPv6(s) == Some(V4(a));
  }

  lemma LastFieldsAreDotted(d: string, a: Addr)
    requires ParseDotted(d) == Some(a) && 0 < HexRun(d) < |d| && d[HexRun(d)] == '.'
    ensures ReadFields(d, Fields([0xffff], Some(0))) == Some(Fields([0xffff, a / 0x1_0000, a % 0x1_0000], Some(0)))
  {
    hide ParseDotted, HexRun;
    assert [0xffff] + [a / 0x1_0000, a % 0x1_0000] == [0xffff, a / 0x1_0000, a % 0x1_0000];
  }

  lemma MappedIsFilled(high: Group, low: Group)
    ensures Fields([0xffff, high, low], Some(0)).Filled() == Some(V4(high as int * 0x1_0000 + low))
  {
    var g := [0xffff, high, low];
    assert g[..0] + seq(5, _ => 0) + g[0..] == [0, 0, 0, 0, 0, 0xffff, high, low];
    assert [0, 0, 0, 0, 0, 0xffff, high, low][..6] == [0, 0, 0, 0, 0, 0xffff];
  }

  lemma FirstFieldIsFfff(d: string)
    requires d != [] && d[0] != ':'
    ensures ReadFields("ffff:" + d, Fields([], Some(0))) == ReadFields(d, Fields([0xffff], Some(0)))
  {
    hide HexRun, HexNumber, ParseDotted;
    var s := "ffff:" + d;
    assert s == "ffff" + (":" + d);
    HexRunStops("ffff", ":" + d);
    assert s[..4] == "ffff" && s[5..] == d && s[4] == ':' && s[5] == d[0];
    HexOfFfff();
    assert [] + [Hex16("ffff")] == [0xffff];
  }

  lemma HexOfFfff()
    ensures HexNumber("ffff") == 0xffff
  {
    assert "ffff"[..3] == "fff" && "fff"[..2] == "ff" && "ff"[..1] == "f" && "f"[..0] == "";
    assert HexNumber("f") == 0xf && HexNumber("ff") == 0xff && HexNumber("fff") == 0xfff;
  }

  // ---------- hexadecimal fields ----------

  /** A field without leading zeros. */
  function HexText(g: nat): (s: string)
    ensures s != []
  {
    if g < 16 then [HexDigit(g)] else HexText(g / 16) + [HexDigit(g % 16)]
  }

  lemma HexDigitValue(d: nat)
    requires d < 16
    ensures HexValue(HexDigit(d)) == Some(d)
  {
  }

  lemma {:induction false} HexTextReads(g: nat)
    ensures AllHex(HexText(g)) && HexNumber(HexText(g)) == g
  {
    hide HexValue, HexDigit;
    HexDigitValue(g % 16);
    if g < 16 {
      assert [HexDigit(g)][..0] == [];
    } else {
      HexTextReads(g / 16);
      var s := HexText(g);
      assert s[..|s| - 1] == HexText(g / 16);
    }
  }

  lemma {:induction false} HexTextWidth(g: Group)
    ensures |HexText(g)| == if g < 0x10 then 1 else if g < 0x100 then 2 else if g < 0x1000 then 3 else 4
  {
    if g >= 0x10 { HexTextWidth(g / 16); }
  }

  /** Digits never spell more than a number of their count. */
  lemma TextIsWideEnough(s: string)
    requires 1 <= |s| <= 4
    ensures |HexText(Hex16(s))| <= |s|
  {
    HexNumberFits(s);
    HexTextWidth(Hex16(s));
  }

  /** A printed address is at least as long as its two hexadecimal fields. */
  lemma {:induction false} DottedIsWide(a: Addr)
    ensures |PrintIP(a)| >= |HexText(a / 0x1_0000)| + 1 + |HexText(a % 0x1_0000)|
  {
    hide HexText, Decimal;
    var o := Octets(a);
    JoinFour(Decimal(o[0]), Decimal(o[1]), Decimal(o[2]), Decimal(o[3]), '.');
    PairIsWide(a / 0x1_0000);
    PairIsWide(a % 0x1_0000);
  }

  lemma PairIsWide(g: Group)
    ensures |Decimal(g / 256)| + 1 + |Decimal(g % 256)| >= |HexText(g)|
  {
    HexTextWidth(g);
    DecimalWidth(g / 256);
    DecimalWidth(g % 256);
  }

  /** The shortest text of some fields: their digits and a colon between neighbours. */
  function FieldsWidth(g: seq<Group>): nat {
    if g == [] then 0 else FieldsWidth(g[..|g| - 1]) + |HexText(g[|g| - 1])| + 1
  }

  lemma {:induction false} FieldsWidthOfTail(g: seq<Group>, n: nat)
    requires n <= |g|
    ensures FieldsWidth(g) >= FieldsWidth(g[n..]) + 2 * n
  {
    hide HexText;
    if n < |g| {
      FieldsWidthOfTail(g[..|g| - 1], n);
      assert g[..|g| - 1][n..] == g[n..][..|g| - n - 1];
    } else {
      assert g[n..] == [];
      FieldsWidthGrows(g);
    }
  }

  lemma {:induction false} FieldsWidthGrows(g: seq<Group>)
    ensures FieldsWidth(g) >= 2 * |g|
  {
    hide HexText;
    if g != [] { FieldsWidthGrows(g[..|g| - 1]); }
  }

  lemma FieldsWidthAppend(g: seq<Group>, x: Group)
    ensures FieldsWidth(g + [x]) == FieldsWidth(g) + |HexText(x)| + 1
  {
    assert (g + [x])[..|g|] == g;
  }

  /** No text is shorter than its fields; one that brings a "::" of its own is longer by a character. */
  lemma {:induction false} ReadFieldsWidth(s: string, got: Fields)
    requires got.Valid() && ReadFields(s, got).Some?
    ensures var f := ReadFields(s, got).value;
      && got.groups <= f.groups
      && (got.gap.Some? ==> f.gap == got.gap)
      && (got.gap.None? && f.gap.Some? ==> f.gap.value > |got.groups|)
      && |s| + 1 + FieldsWidth(got.groups) >= FieldsWidth(f.groups) + (if got.gap.None? && f.gap.Some? then 1 else 0)
    decreases |s|
  {
    hide HexText, HexRun, HexNumber, ParseDotted, PrintIP;
    var n := HexRun(s);
    if n < |s| && s[n] == '.' {
      DottedFieldsWidth(s, got);
    } else {
      var x := Hex16(s[..n]);
      var now := Fields(got.groups + [x], got.gap);
      TextIsWideEnough(s[..n]);
      FieldsWidthAppend(got.groups, x);
      if n < |s| {
        if s[n + 1] != ':' {
          ReadFieldsWidth(s[n + 1..], now);
        } else if n + 2 < |s| {
          ReadFieldsWidth(s[n + 2..], now.(gap := Some(|now.groups|)));
        }
      }
    }
  }

  lemma DottedFieldsWidth(s: string, got: Fields)
    requires got.Valid() && ReadFields(s, got).Some? && HexRun(s) < |s| && s[HexRun(s)] == '.'
    ensures var f := ReadFields(s, got).value;
      && got.groups <= f.groups && f.gap == got.gap
      && |s| + 1 + FieldsWidth(got.groups) >= FieldsWidth(f.groups)
  {
    hide HexText, HexRun, PrintIP, ParseDotted, FieldsWidth;
    var a := ParseDotted(s).value;
    var high, low := a / 0x1_0000, a % 0x1_0000;
    DottedIsCanonical(s);
    DottedIsWide(a);
    assert got.groups + [high, low] == got.groups + [high] + [low];
    FieldsWidthAppend(got.groups, high);
    FieldsWidthAppend(got.groups + [high], low);
  }

  /** The shortest text of an address in IPv6 notation that has no zero field. */
  function HexMappedText(a: Addr): string {
    "::ffff:" + (HexText(a / 0x1_0000) + ":" + HexText(a % 0x1_0000))
  }

  lemma HexFieldsRead(high: Group, low: Group)
    ensures ReadFields(HexText(high) + ":" + HexText(low), Fields([0xffff], Some(0))) ==
      Some(Fields([0xffff, high, low], Some(0)))
  {
    hide HexText, HexRun, HexNumber, HexValue, ParseDotted;
    var p, q := HexText(high), HexText(low);
    HexTextReads(high);
    HexTextReads(low);
    HexTextWidth(high);
    HexTextWidth(low);
    ColonIsNoDigit(q[0]);
    var s := p + ":" + q;
    assert s == p + (":" + q) && q == q + [];
    HexRunStops(p, ":" + q);
    HexRunStops(q, []);
    assert s[..|p|] == p && s[|p| + 1..] == q && s[|p|] == ':' && s[|p| + 1] == q[0] && q[..|q|] == q;
    assert [0xffff] + [high] + [low] == [0xffff, high, low] && [0xffff] + [high] == [0xffff, high];
    assert ReadFields(q, Fields([0xffff, high], Some(0))) == Some(Fields([0xffff, high, low], Some(0)));
  }

  lemma ColonIsNoDigit(c: char)
    ensures HexValue(':').None? && (HexValue(c).Some? ==> c != ':')
  {
  }

  lemma HexMappedReads(a: Addr)
    ensures ParseIPv4(HexMappedText(a)) == Some(a) && ':' in HexMappedText(a)
    ensures |HexMappedText(a)| == 8 + |HexText(a / 0x1_0000)| + |HexText(a % 0x1_0000)|
  {
    hide HexText, HexRun, ReadFields, ParseDotted;
    var high, low := a / 0x1_0000, a % 0x1_0000;
    var d := HexText(high) + ":" + HexText(low);
    var s := HexMappedText(a);
    assert s[2..] == "ffff:" + d && s[..2] == "::" && s[0] == ':';
    assert d[0] != ':' by {
      HexTextReads(high);
      ColonIsNoDigit(d[0]);
    }
    FirstFieldIsFfff(d);
    HexFieldsRead(high, low);
    MappedIsFilled(high, low);
    assert ParseIPv6(s) == Some(V4(a));
  }

  /** A text in IPv6 notation of an address whose two halves have four digits has at least 16 characters. */
  lemma WideTextIsLong(s: string, a: Addr)
    requires ':' in s && ParseIPv4(s) == Some(a) && a / 0x1_0000 >= 0x1000 && a % 0x1_0000 >= 0x1000
    ensures |s| >= 16
  {
    hide HexText, ReadFields, ParseDotted;
    var leads := |s| >= 2 && s[..2] == "::";
    var rest, start := if leads then s[2..] else s, Fields([], if leads then Some(0) else None);
    ReadFieldsWidth(rest, start);
    var f := ReadFields(rest, start).value;
    var n := MappedTail(f, a);
    FieldsWidthOfTail(f.groups, n);
    var tail := [0xffff, a / 0x1_0000, a % 0x1_0000];
    assert FieldsWidth(tail) == 15 by { TailWidth(a / 0x1_0000, a % 0x1_0000); }
  }

  lemma TailWidth(high: Group, low: Group)
    requires high >= 0x1000 && low >= 0x1000
    ensures FieldsWidth([0xffff, high, low]) == 15
  {
    hide HexText;
    HexTextWidth(0xffff);
    HexTextWidth(high);
    HexTextWidth(low);
    FieldsWidthAppend([], 0xffff);
    FieldsWidthAppend([0xffff], high);
    FieldsWidthAppend([0xffff, high], low);
    assert [] + [0xffff] == [0xffff] && [0xffff] + [high] == [0xffff, high];
    assert [0xffff, high] + [low] == [0xffff, high, low];
  }

  /** Without zero fields at its end, such an address keeps its last three fields after the "::". */
  lemma MappedTail(f: Fields, a: Addr) returns (n: nat)
    requires f.Valid() && f.Filled() == Some(V4(a)) && a / 0x1_0000 != 0 && a % 0x1_0000 != 0
    ensures n + 3 == |f.groups| && f.groups[n..] == [0xffff, a / 0x1_0000, a % 0x1_0000]
    ensures f.gap.Some? ==> f.gap.value <= n
    ensures f.gap.None? ==> n == 5
  {
    hide FromGroups;
    var z := 8 - |f.groups|;
    var p := if f.gap.None? then 0 else f.gap.value;
    var g := f.groups[..p] + seq(z, _ => 0) + f.groups[p..];
    assert f.gap.None? ==> g == f.groups;
    MappedGroups(g, a);
    GapIsZero(f.groups, p, z, g);
    assert p + z <= 5 || z == 0;
    n := 5 - z;
    assert g[5] == f.groups[n] && g[6] == f.groups[n + 1] && g[7] == f.groups[n + 2];
  }

  lemma GapIsZero(groups: seq<Group>, p: nat, z: nat, g: seq<Group>)
    requires p <= |groups| && g == groups[..p] + seq(z, _ => 0) + groups[p..]
    ensures |g| == |groups| + z
    ensures forall i :: p <= i < p + z ==> g[i] == 0
    ensures forall i :: p + z <= i < |g| ==> g[i] == groups[i - z]
  {
  }

  lemma MappedGroups(g: seq<Group>, a: Addr)
    requires |g| == 8 && FromGroups(g) == V4(a)
    ensures g[5] == 0xffff && g[6] == a / 0x1_0000 && g[7] == a % 0x1_0000
  {
    assert g[..6][5] == g[5];
  }

  /** Whether an address has a second text that fits the table's column. */
  ghost predicate HasOtherText(a: Addr) {
    exists s :: ParseIPv4(s) == Some(a) && s != PrintIP(a) && |s| <= 15
  }

  /** It has one if and only if its first or its third number is below 16. */
  lemma OtherTextIff(a: Addr)
    ensures HasOtherText(a) <==> Octets(a)[0] < 16 || Octets(a)[2] < 16
  {
    hide ParseIPv4, PrintIP, HexText;
    var high, low := a / 0x1_0000, a % 0x1_0000;
    assert Octets(a)[0] < 16 <==> high < 0x1000;
    assert Octets(a)[2] < 16 <==> low < 0x1000;
    if high < 0x1000 || low < 0x1000 {
      HexMappedReads(a);
      HexTextWidth(high);
      HexTextWidth(low);
      DottedRoundTrip(a);
      assert HexMappedText(a) != PrintIP(a);
    } else {
      forall s | ParseIPv4(s) == Some(a) && s != PrintIP(a) ensures |s| > 15 {
        IPTextIsCanonical(s);
        WideTextIsLong(s, a);
      }
    }
  }

  /** A text for an IPv4 address is the printed form of that address exactly if it has no colon. */
  lemma IPTextIsCanonical(s: string)
    requires ParseIPv4(s).Some?
    ensures PrintIP(ParseIPv4(s).value) == s <==> ':' !in s
    ensures ':' !in s ==> |s| <= 15
  {
    hide PrintIP, ParseDotted, ParseIPv6;
    DottedRoundTrip(ParseIPv4(s).value);
    if ':' !in s {
      DottedIsCanonical(s);
    }
  }

  /** The prefix of a dotted text is the same in either reading. */
  lemma DottedPrefix(s: string)
    requires ParseCidr(s).Some?
    ensures ParsePrefix(s) == Some((V4(ParseCidr(s).value.addr), ParseCidr(s).value.len))
  {
    hide PrintIP;
    var f := Split(s, '/');
    DottedIsCanonical(f[0]);
    DottedRoundTrip(ParseDotted(f[0]).value);
  }
}
