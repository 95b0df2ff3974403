/** The texts of an address in IPv6 notation: eight fields, or fewer around a "::" that stands for the zeros. */
module IPv6Text {
  import opened Wrappers
  import opened Text
  import opened IPText

  /** The fields in hexadecimal, with colons between them. */
  function GroupsText(g: seq<Group>): (s: string)
    requires g != []
    ensures s != []
  {
    if |g| == 1 then HexText(g[0]) else HexText(g[0]) + ":" + GroupsText(g[1..])
  }

  /** The fields before and after the gap. */
  function GapText(left: seq<Group>, right: seq<Group>): string {
    (if left == [] then "" else GroupsText(left)) + "::" + (if right == [] then "" else GroupsText(right))
  }

  lemma FieldStarts(g: seq<Group>)
    requires g != []
    ensures GroupsText(g)[0] == HexText(g[0])[0] && GroupsText(g)[0] != ':' && 1 <= |HexText(g[0])| <= 4
    ensures AllHex(HexText(g[0])) && Hex16(HexText(g[0])) == g[0]
  {
    hide HexValue, HexText, HexNumber;
    HexTextReads(g[0]);
    HexTextWidth(g[0]);
    ColonIsNoDigit(HexText(g[0])[0]);
  }

  /** A first field and what follows it. */
  lemma FieldEnds(p: string, rest: string)
    requires 1 <= |p| && AllHex(p) && (rest != [] ==> rest[0] == ':')
    ensures HexRun(p + rest) == |p| && (p + rest)[..|p|] == p && (p + rest)[|p|..] == rest
  {
    hide HexValue, HexRun;
    ColonIsNoDigit(':');
    HexRunStops(p, rest);
  }

  /** The text is a field with that value. */
  ghost predicate IsField(p: string, x: Group) {
    1 <= |p| <= 4 && AllHex(p) && Hex16(p) == x
  }

  lemma LastField(p: string, x: Group, got: Fields)
    requires IsField(p, x) && got.Valid() && |got.groups| < 8
    ensures ReadFields(p, got) == Some(Fields(got.groups + [x], got.gap))
  {
    hide HexRun, Hex16, AllHex, ParseDotted;
    FieldEnds(p, []);
    assert p + [] == p && p[..|p|] == p;
  }

  lemma NextField(p: string, q: string, x: Group, got: Fields)
    requires IsField(p, x) && got.Valid() && |got.groups| < 8 && q != [] && q[0] != ':'
    ensures ReadFields(p + ":" + q, got) == ReadFields(q, Fields(got.groups + [x], got.gap))
  {
    hide HexRun, Hex16, AllHex, ParseDotted;
    FieldEnds(p, ":" + q);
    var s := p + ":" + q;
    assert s == p + (":" + q);
    assert s[|p|] == ':' && s[|p| + 1] == q[0] && s[|p| + 1..] == q;
  }

  lemma GapField(p: string, q: string, x: Group, got: seq<Group>)
    requires IsField(p, x) && |got| < 8
    ensures var now := Fields(got + [x], Some(|got| + 1));
      ReadFields(p + "::" + q, Fields(got, None)) == if q == [] then Some(now) else ReadFields(q, now)
  {
    hide HexRun, Hex16, AllHex, ParseDotted;
    FieldEnds(p, "::" + q);
    var s := p + "::" + q;
    assert s == p + ("::" + q);
    assert s[|p|] == ':' && s[|p| + 1] == ':' && s[|p| + 2..] == q;
  }

  lemma {:induction false} GroupsRead(g: seq<Group>, got: Fields)
    requires g != [] && got.Valid() && |got.groups| + |g| <= 8
    ensures ReadFields(GroupsText(g), got) == Some(Fields(got.groups + g, got.gap))
    decreases |g|
  {
    hide HexText, ReadFields, Hex16, AllHex;
    var now := Fields(got.groups + [g[0]], got.gap);
    FieldStarts(g);
    if |g| == 1 {
      LastField(HexText(g[0]), g[0], got);
      assert got.groups + g == now.groups;
    } else {
      FieldStarts(g[1..]);
      NextField(HexText(g[0]), GroupsText(g[1..]), g[0], got);
      GroupsRead(g[1..], now);
      assert now.groups + g[1..] == got.groups + g;
    }
  }

  lemma {:induction false} GapReads(left: seq<Group>, right: seq<Group>, got: seq<Group>)
    requires left != [] && |got| + |left| + |right| < 8
    ensures ReadFields(GapText(left, right), Fields(got, None)) ==
      Some(Fields(got + left + right, Some(|got| + |left|)))
    decreases |left|
  {
    hide HexText, ReadFields, Hex16, AllHex;
    var p, now := HexText(left[0]), got + [left[0]];
    FieldStarts(left);
    if |left| == 1 {
      var q := if right == [] then "" else GroupsText(right);
      assert GapText(left, right) == p + "::" + q && got + left == now;
      GapField(p, q, left[0], got);
      if right == [] {
        assert got + left + right == now;
      } else {
        GroupsRead(right, Fields(now, Some(|now|)));
      }
    } else {
      FieldStarts(left[1..]);
      assert GapText(left, right) == p + ":" + GapText(left[1..], right);
      NextField(p, GapText(left[1..], right), left[0], Fields(got, None));
      GapReads(left[1..], right, now);
      assert now + left[1..] + right == got + left + right;
    }
  }

  /** A text that does not start with the gap. */
  lemma PlainText(s: string, f: Fields)
    requires ':' in s && s[0] != ':' && ReadFields(s, Fields([], None)) == Some(f)
    ensures ParseIP(s) == f.Filled()
  {
    hide ReadFields;
    assert s[..1] != ":";
  }

  lemma LeadingText(s: string, f: Fields)
    requires 2 < |s| && s[..2] == "::" && ReadFields(s[2..], Fields([], Some(0))) == Some(f)
    ensures ParseIP(s) == f.Filled()
  {
    hide ReadFields;
    assert s[..2][0] == ':';
  }

  lemma GapFills(left: seq<Group>, right: seq<Group>)
    requires |left| + |right| < 8
    ensures Fields(left + right, Some(|left|)).Filled() ==
      Some(FromGroups(left + seq(8 - |left| - |right|, _ => 0) + right))
  {
    hide FromGroups;
    var g := left + right;
    assert g[..|left|] == left && g[|left|..] == right;
  }

  /** Eight fields written out are the address they spell. */
  lemma GroupsHaveText(g: seq<Group>)
    requires |g| == 8
    ensures ParseIP(GroupsText(g)) == Some(FromGroups(g))
  {
    hide HexText, ReadFields, Hex16, FromGroups, AllHex, ParseIP;
    var s := GroupsText(g);
    FieldStarts(g);
    assert s[|HexText(g[0])|] == ':';
    hide GroupsText;
    GroupsRead(g, Fields([], None));
    assert [] + g == g;
    PlainText(s, Fields(g, None));
  }

  /** Fewer fields around a "::" are the address with zeros in between. */
  lemma GapStandsForZeros(left: seq<Group>, right: seq<Group>)
    requires |left| + |right| < 8
    ensures ParseIP(GapText(left, right)) == Some(FromGroups(left + seq(8 - |left| - |right|, _ => 0) + right))
  {
    hide HexText, ReadFields, Hex16, FromGroups, AllHex, ParseIP, GroupsText;
    var s := GapText(left, right);
    if left + right == [] {
      OnlyGap();
    } else if left == [] {
      assert s[..2] == "::" && s[2..] == GroupsText(right);
      GroupsRead(right, Fields([], Some(0)));
      LeadingText(s, Fields([] + right, Some(0)));
      GapFills([], right);
    } else {
      FieldStarts(left);
      assert s[0] == GroupsText(left)[0] && s[|GroupsText(left)|] == ':';
      GapReads(left, right, []);
      assert [] + left + right == left + right;
      PlainText(s, Fields(left + right, Some(|left|)));
      GapFills(left, right);
    }
  }

  lemma OnlyGap()
    ensures ParseIP(GapText([], [])) == Some(FromGroups([] + seq(8, _ => 0) + []))
  {
    var s, g: seq<Group> := GapText([], []), [] + seq(8, _ => 0) + [];
    assert s == "::" && s[0] == ':';
    assert g == [0, 0, 0, 0, 0, 0, 0, 0] && g[..6][5] == 0;
  }
}
