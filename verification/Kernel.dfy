/** The kernel tables of a host, as far as the converger sees them.  Assumed of netlink: replacing or setting
    an entry overwrites what was stored under its key, deleting removes an entry only if all of it matches,
    a failed call changes nothing, listing yields the entries as they were installed, and an IPv4 route with
    a prefix longer than 32 bits is refused. */
module Kernel {
  import opened Wrappers
  import opened Addressing
  import opened Text
  import opened IPText

  const NUD_PERMANENT: int := 0x80
  const SCOPE_UNIVERSE: int := 0

  /** A route; the default route has the destination of length 0. */
  datatype Route = Route(link: int, scope: int, dst: Cidr, gw: Option<Addr>, src: Option<Addr>)

  /** An ARP entry, or with `bridge` an FDB entry. */
  datatype Neigh = Neigh(link: int, state: int, ip: Option<IP>, mac: Option<Mac>, bridge: bool)

  /** Routes of the host by destination; ARP and FDB entries of the VTEP device by address and by MAC. */
  datatype Tables = Tables(routes: map<Cidr, Route>, arp: map<IP, Neigh>, fdb: map<Mac, Neigh>)

  const NO_ENTRIES := Tables(map[], map[], map[])

  datatype Op = RouteReplace(route: Route) | RouteDel(route: Route) | NeighSet(neigh: Neigh) | NeighDel(neigh: Neigh)

  function Apply(k: Tables, op: Op): Tables {
    match op
    case RouteReplace(r) => k.(routes := k.routes[r.dst := r])
    case RouteDel(r) => if r.dst in k.routes && k.routes[r.dst] == r then k.(routes := k.routes - {r.dst}) else k
    case NeighSet(n) =>
      if n.bridge then if n.mac.Some? then k.(fdb := k.fdb[n.mac.value := n]) else k
      else if n.ip.Some? then k.(arp := k.arp[n.ip.value := n]) else k
    case NeighDel(n) =>
      if n.bridge then
        if n.mac.Some? && n.mac.value in k.fdb && k.fdb[n.mac.value] == n then k.(fdb := k.fdb - {n.mac.value}) else k
      else
        if n.ip.Some? && n.ip.value in k.arp && k.arp[n.ip.value] == n then k.(arp := k.arp - {n.ip.value}) else k
  }

  function ApplyAll(k: Tables, ops: seq<Op>): Tables
    decreases |ops|
  {
    if ops == [] then k else ApplyAll(Apply(k, ops[0]), ops[1..])
  }

  /** Every entry is stored under its own key, and the neighbour tables are those of the device. */
  ghost predicate Keyed(k: Tables, link: int) {
    && (forall d :: d in k.routes ==> k.routes[d].dst == d)
    && (forall a :: a in k.arp ==> k.arp[a].ip == Some(a) && !k.arp[a].bridge && k.arp[a].link == link)
    && (forall m :: m in k.fdb ==> k.fdb[m].mac == Some(m) && k.fdb[m].bridge && k.fdb[m].link == link)
  }

  ghost predicate ListsRoutes(routes: seq<Route>, k: Tables, link: int) {
    forall r :: r in routes <==> r.dst in k.routes && k.routes[r.dst] == r && r.link == link
  }

  ghost predicate ListsNeighs(neighs: seq<Neigh>, k: Tables) {
    forall n :: n in neighs <==> HasNeigh(k, n)
  }

  ghost predicate HasNeigh(k: Tables, n: Neigh) {
    if n.bridge then n.mac.Some? && n.mac.value in k.fdb && k.fdb[n.mac.value] == n
    else n.ip.Some? && n.ip.value in k.arp && k.arp[n.ip.value] == n
  }

  // ---------- sequences of operations ----------

  lemma {:induction false} ApplyAllAppends(k: Tables, a: seq<Op>, b: seq<Op>)
    ensures ApplyAll(k, a + b) == ApplyAll(ApplyAll(k, a), b)
    decreases |a|
  {
    if a == [] {
      assert a + b == b;
    } else {
      assert (a + b)[0] == a[0] && (a + b)[1..] == a[1..] + b;
      ApplyAllAppends(Apply(k, a[0]), a[1..], b);
    }
  }

  /** An operation that installs an entry under its key. */
  predicate Installs(op: Op, link: int) {
    || op.RouteReplace?
    || (op.NeighSet? && op.neigh.link == link && op.neigh.ip.Some? && op.neigh.mac.Some?)
  }

  predicate Deletes(op: Op) {
    op.RouteDel? || op.NeighDel?
  }

  /** The tables with the entries of `d` put over them. */
  function Over(k: Tables, d: Tables): Tables {
    Tables(k.routes + d.routes, k.arp + d.arp, k.fdb + d.fdb)
  }

  lemma InstallingOne(k: Tables, d: Tables, op: Op, link: int)
    requires Installs(op, link)
    ensures Apply(Over(k, d), op) == Over(k, Apply(d, op))
  {
    match op
    case RouteReplace(r) =>
      assert (k.routes + d.routes)[r.dst := r] == k.routes + d.routes[r.dst := r];
    case NeighSet(n) =>
      if n.bridge {
        assert (k.fdb + d.fdb)[n.mac.value := n] == k.fdb + d.fdb[n.mac.value := n];
      } else {
        assert (k.arp + d.arp)[n.ip.value := n] == k.arp + d.arp[n.ip.value := n];
      }
  }

  /** Installing on top of existing tables is building the entries from nothing and putting them over. */
  lemma {:induction false} InstallingIsOverlay(k: Tables, d: Tables, ops: seq<Op>, link: int)
    requires forall i :: 0 <= i < |ops| ==> Installs(ops[i], link)
    ensures ApplyAll(Over(k, d), ops) == Over(k, ApplyAll(d, ops))
    decreases |ops|
  {
    hide Over, Apply;
    if ops != [] {
      InstallingOne(k, d, ops[0], link);
      InstallingIsOverlay(k, Apply(d, ops[0]), ops[1..], link);
    }
  }

  lemma {:induction false} InstallingKeepsKeys(k: Tables, ops: seq<Op>, link: int)
    requires Keyed(k, link) && forall i :: 0 <= i < |ops| ==> Installs(ops[i], link)
    ensures Keyed(ApplyAll(k, ops), link)
    decreases |ops|
  {
    if ops != [] {
      assert Installs(ops[0], link);
      InstallingKeepsKeys(Apply(k, ops[0]), ops[1..], link);
    }
  }

  /** The tables without the entries that are deleted. */
  ghost function Without(k: Tables, dels: seq<Op>): Tables {
    Tables(map d | d in k.routes && RouteDel(k.routes[d]) !in dels :: k.routes[d],
           map a | a in k.arp && NeighDel(k.arp[a]) !in dels :: k.arp[a],
           map m | m in k.fdb && NeighDel(k.fdb[m]) !in dels :: k.fdb[m])
  }

  lemma RemovingIsFiltering<K, V>(m: map<K, V>, x: K, v: V)
    requires forall k :: k in m && m[k] == v ==> k == x
    ensures (if x in m && m[x] == v then m - {x} else m) == map k | k in m && m[k] != v :: m[k]
  {
  }

  lemma WithoutKeepsKeys(k: Tables, dels: seq<Op>, link: int)
    requires Keyed(k, link)
    ensures Keyed(Without(k, dels), link)
  {
  }

  lemma DeletingRoute(k: Tables, r: Route, link: int)
    requires Keyed(k, link)
    ensures Apply(k, RouteDel(r)) == Without(k, [RouteDel(r)])
  {
    var op := RouteDel(r);
    assert forall x :: x in [op] <==> x == op;
    RemovingIsFiltering(k.routes, r.dst, r);
    assert k.arp == Without(k, [op]).arp && k.fdb == Without(k, [op]).fdb;
  }

  lemma DeletingArp(k: Tables, n: Neigh, link: int)
    requires Keyed(k, link) && !n.bridge
    ensures Apply(k, NeighDel(n)) == Without(k, [NeighDel(n)])
  {
    var op := NeighDel(n);
    assert forall x :: x in [op] <==> x == op;
    var w := Without(k, [op]);
    if n.ip.Some? { RemovingIsFiltering(k.arp, n.ip.value, n); } else { assert k.arp == w.arp; }
    assert k.routes == w.routes && k.fdb == w.fdb;
  }

  lemma DeletingFdb(k: Tables, n: Neigh, link: int)
    requires Keyed(k, link) && n.bridge
    ensures Apply(k, NeighDel(n)) == Without(k, [NeighDel(n)])
  {
    var op := NeighDel(n);
    assert forall x :: x in [op] <==> x == op;
    var w := Without(k, [op]);
    if n.mac.Some? { RemovingIsFiltering(k.fdb, n.mac.value, n); } else { assert k.fdb == w.fdb; }
    assert k.routes == w.routes && k.arp == w.arp;
  }

  lemma WithoutOneThenRest(k: Tables, dels: seq<Op>)
    requires dels != []
    ensures Without(Without(k, [dels[0]]), dels[1..]) == Without(k, dels)
  {
    var op, rest := dels[0], dels[1..];
    forall x ensures x in dels <==> x in [op] || x in rest {
      assert dels == [op] + rest;
    }
    WithoutTwice(k, [op], rest, dels);
  }

  lemma WithoutTwice(k: Tables, a: seq<Op>, b: seq<Op>, both: seq<Op>)
    requires forall x :: x in both <==> x in a || x in b
    ensures Without(Without(k, a), b) == Without(k, both)
  {
    var w, v := Without(Without(k, a), b), Without(k, both);
    assert w.routes == v.routes by {
      forall d ensures d in w.routes <==> d in v.routes { }
    }
    assert w.arp == v.arp by {
      forall d ensures d in w.arp <==> d in v.arp { }
    }
    assert w.fdb == v.fdb by {
      forall d ensures d in w.fdb <==> d in v.fdb { }
    }
  }

  /** A run of deletions removes exactly the entries that are listed in it. */
  lemma {:induction false} DeletingFilters(k: Tables, dels: seq<Op>, link: int)
    requires Keyed(k, link) && forall i :: 0 <= i < |dels| ==> Deletes(dels[i])
    ensures ApplyAll(k, dels) == Without(k, dels)
    ensures Keyed(ApplyAll(k, dels), link)
    decreases |dels|
  {
    hide Apply, Keyed;
    if dels == [] {
      assert k.routes == Without(k, dels).routes && k.arp == Without(k, dels).arp && k.fdb == Without(k, dels).fdb;
    } else {
      assert Deletes(dels[0]);
      assert Apply(k, dels[0]) == Without(k, [dels[0]]) by {
        match dels[0]
        case RouteDel(r) => DeletingRoute(k, r, link);
        case NeighDel(n) => if n.bridge { DeletingFdb(k, n, link); } else { DeletingArp(k, n, link); }
      }
      WithoutKeepsKeys(k, [dels[0]], link);
      DeletingFilters(Apply(k, dels[0]), dels[1..], link);
      WithoutOneThenRest(k, dels);
    }
  }

  // ---------- the adapter ----------

  /** The netlink adapter; `faults` decides which calls fail, `log` records the calls that changed the tables. */
  class Netlink {
    var tables: Tables
    var calls: nat
    const faults: nat -> bool
    ghost var log: seq<Op>

    constructor (tables: Tables, faults: nat -> bool)
      ensures this.tables == tables && this.faults == faults && log == []
    {
      this.tables := tables;
      this.faults := faults;
      calls := 0;
      log := [];
    }

    ghost predicate Reliable() {
      forall n :: !faults(n)
    }

    method Execute(op: Op) returns (ok: bool)
      modifies this
      ensures Reliable() ==> ok
      ensures ok ==> tables == Apply(old(tables), op) && log == old(log) + [op]
      ensures !ok ==> tables == old(tables) && log == old(log)
    {
      ok := !faults(calls);
      calls := calls + 1;
      if ok {
        tables := Apply(tables, op);
        log := log + [op];
      }
    }

    method RouteList(link: int) returns (ok: bool, routes: seq<Route>)
      requires Keyed(tables, link)
      modifies this`calls
      ensures Reliable() ==> ok
      ensures ok ==> ListsRoutes(routes, tables, link)
    {
      ok := !faults(calls);
      calls := calls + 1;
      routes := [];
      var rest := tables.routes.Keys;
      while rest != {}
        invariant rest <= tables.routes.Keys
        invariant forall r :: r in routes <==>
          r.dst in tables.routes && r.dst !in rest && tables.routes[r.dst] == r && r.link == link
        decreases rest
      {
        var d :| d in rest;
        rest := rest - {d};
        if tables.routes[d].link == link {
          routes := routes + [tables.routes[d]];
        }
      }
    }

    method ARPList(link: int) returns (ok: bool, neighs: seq<Neigh>)
      requires Keyed(tables, link)
      modifies this`calls
      ensures Reliable() ==> ok
      ensures ok ==> forall n :: n in neighs <==> !n.bridge && HasNeigh(tables, n)
    {
      ok := !faults(calls);
      calls := calls + 1;
      neighs := [];
      var rest := tables.arp.Keys;
      while rest != {}
        invariant rest <= tables.arp.Keys
        invariant forall n :: n in neighs <==> !n.bridge && HasNeigh(tables, n) && n.ip.value !in rest
        decreases rest
      {
        var a :| a in rest;
        neighs, rest := neighs + [tables.arp[a]], rest - {a};
      }
    }

    method FDBList(link: int) returns (ok: bool, neighs: seq<Neigh>)
      requires Keyed(tables, link)
      modifies this`calls
      ensures Reliable() ==> ok
      ensures ok ==> forall n :: n in neighs <==> n.bridge && HasNeigh(tables, n)
    {
      ok := !faults(calls);
      calls := calls + 1;
      neighs := [];
      var rest := tables.fdb.Keys;
      while rest != {}
        invariant rest <= tables.fdb.Keys
        invariant forall n :: n in neighs <==> n.bridge && HasNeigh(tables, n) && n.mac.value !in rest
        decreases rest
      {
        var m :| m in rest;
        neighs, rest := neighs + [tables.fdb[m]], rest - {m};
      }
    }
  }
}
