/** The `subnets` table (controller/database/database_handler.go): the meaning of each SQL statement,
    first as functions and predicates on table values, then as the methods of the handler. */
module LeaseTable {
  import opened Wrappers
  import opened Text

  datatype Lease = Lease(underlayIP: string, overlaySubnet: string, hardwareAddr: string)

  datatype Row = Row(subnet: string, hwaddr: string, renewed: int)

  /** The rows by underlay address, which is a unique column. */
  type Table = map<string, Row>

  function LeaseOf(t: Table, u: string): Lease
    requires u in t
  {
    Lease(u, t[u].subnet, t[u].hwaddr)
  }

  /** The other two unique columns. */
  ghost predicate Unique(t: Table) {
    forall u, v :: u in t && v in t && u != v ==> t[u].subnet != t[v].subnet && t[u].hwaddr != t[v].hwaddr
  }

  // ---------- statements ----------

  /** The column widths of the schema. */
  predicate FitsColumns(l: Lease) {
    |l.underlayIP| <= 15 && |l.overlaySubnet| <= 18 && |l.hardwareAddr| <= 17
  }

  predicate Insertable(t: Table, l: Lease) {
    && FitsColumns(l)
    && l.underlayIP !in t
    && forall v :: v in t ==> t[v].subnet != l.overlaySubnet && t[v].hwaddr != l.hardwareAddr
  }

  /** INSERT, refused when a column is too narrow or a unique column already holds the value. */
  function Insert(t: Table, l: Lease, now: int): Option<Table> {
    if Insertable(t, l) then Some(t[l.underlayIP := Row(l.overlaySubnet, l.hardwareAddr, now)]) else None
  }

  /** UPDATE of the renewal time; updating no row is not an error. */
  function Touch(t: Table, u: string, now: int): Table {
    if u in t then t[u := t[u].(renewed := now)] else t
  }

  predicate Expired(r: Row, expiration: int, now: int) {
    r.renewed + expiration <= now
  }

  predicate IsSingle(subnet: string) {
    EndsInSlash32(subnet)
  }

  predicate ExpiredOfClass(r: Row, single: bool, expiration: int, now: int) {
    IsSingle(r.subnet) == single && Expired(r, expiration, now)
  }

  /** The subnets the class query returns. */
  function Taken(t: Table, single: bool): set<string> {
    set u | u in t && IsSingle(t[u].subnet) == single :: t[u].subnet
  }

  /** ORDER BY last_renewed_at ASC LIMIT 1 over the expired rows of a class. */
  ghost predicate OldestExpired(t: Table, single: bool, expiration: int, now: int, u: string) {
    && u in t && ExpiredOfClass(t[u], single, expiration, now)
    && forall v :: v in t && ExpiredOfClass(t[v], single, expiration, now) ==> t[u].renewed <= t[v].renewed
  }

  ghost predicate NoneExpired(t: Table, single: bool, expiration: int, now: int) {
    forall v :: v in t ==> !ExpiredOfClass(t[v], single, expiration, now)
  }

  /** A listing of the rows whose underlay address is in `keys`, each once, in any order. */
  ghost predicate Lists(leases: seq<Lease>, t: Table, keys: set<string>) {
    && keys <= t.Keys
    && (forall i, j :: 0 <= i < j < |leases| ==> leases[i].underlayIP != leases[j].underlayIP)
    && (forall i :: 0 <= i < |leases| ==> leases[i].underlayIP in keys && leases[i] == LeaseOf(t, leases[i].underlayIP))
    && (forall u :: u in keys ==> LeaseOf(t, u) in leases)
  }

  ghost function ClassKeys(t: Table, single: bool): set<string> {
    set u | u in t && IsSingle(t[u].subnet) == single
  }

  ghost function ActiveKeys(t: Table, expiration: int, now: int): set<string> {
    set u | u in t && !Expired(t[u], expiration, now)
  }

  /** What can go wrong with one statement: nothing, it is lost, or it runs and its answer is lost. */
  datatype Fault = Sound | Lost | Unacknowledged

  datatype DeleteResult = Deleted | NotAffected | DeleteFailed

  // ---------- the handler ----------

  class Database {
    var rows: Table
    var statements: nat
    const now: int
    const faults: nat -> Fault

    constructor (rows: Table, now: int, faults: nat -> Fault)
      ensures this.rows == rows && this.now == now && this.faults == faults && statements == 0
    {
      this.rows := rows;
      this.now := now;
      this.faults := faults;
      statements := 0;
    }

    /** No statement ever fails for a reason outside the table. */
    ghost predicate Reliable() {
      forall n :: faults(n) == Sound
    }

    method AddEntry(lease: Lease) returns (ok: bool)
      modifies this
      ensures statements == old(statements) + 1
      ensures ok ==> Insert(old(rows), lease, now) == Some(rows)
      ensures !ok ==> rows == old(rows) || (!Reliable() && Insert(old(rows), lease, now) == Some(rows))
      ensures !ok && Reliable() ==> Insert(old(rows), lease, now).None?
    {
      var fault := faults(statements);
      statements := statements + 1;
      var after := Insert(rows, lease, now);
      if fault != Lost && after.Some? {
        rows := after.value;
      }
      ok := fault == Sound && after.Some?;
    }

    method DeleteEntry(u: string) returns (r: DeleteResult)
      modifies this
      ensures statements == old(statements) + 1
      ensures r == Deleted ==> u in old(rows) && rows == old(rows) - {u}
      ensures r == NotAffected ==> u !in old(rows) && rows == old(rows)
      ensures r == DeleteFailed ==> !Reliable() && (rows == old(rows) || rows == old(rows) - {u})
    {
      var fault := faults(statements);
      statements := statements + 1;
      var present := u in rows;
      if fault != Lost {
        rows := rows - {u};
      }
      r := if fault != Sound then DeleteFailed else if present then Deleted else NotAffected;
    }

    method RenewLeaseForUnderlayIP(u: string) returns (ok: bool)
      modifies this
      ensures statements == old(statements) + 1
      ensures ok ==> rows == Touch(old(rows), u, now)
      ensures !ok ==> !Reliable() && (rows == old(rows) || rows == Touch(old(rows), u, now))
    {
      var fault := faults(statements);
      statements := statements + 1;
      if fault != Lost {
        rows := Touch(rows, u, now);
      }
      ok := fault == Sound;
    }

    /** A query, successful or not, leaves the rows alone. */
    method LeaseForUnderlayIP(u: string) returns (ok: bool, lease: Option<Lease>)
      modifies this`statements
      ensures statements == old(statements) + 1
      ensures ok ==> lease == (if u in rows then Some(LeaseOf(rows, u)) else None)
      ensures !ok ==> !Reliable()
    {
      ok := faults(statements) == Sound;
      statements := statements + 1;
      lease := if u in rows then Some(LeaseOf(rows, u)) else None;
    }

    method LastRenewedAtForUnderlayIP(u: string) returns (ok: bool, renewed: int)
      modifies this`statements
      ensures statements == old(statements) + 1
      ensures ok <==> u in rows && faults(old(statements)) == Sound
      ensures ok ==> renewed == rows[u].renewed
    {
      ok := faults(statements) == Sound && u in rows;
      statements := statements + 1;
      renewed := if u in rows then rows[u].renewed else 0;
    }

    method AllSubnets(single: bool) returns (ok: bool, leases: seq<Lease>)
      modifies this`statements
      ensures statements == old(statements) + 1
      ensures ok ==> Lists(leases, rows, ClassKeys(rows, single))
      ensures !ok ==> !Reliable()
    {
      ok := faults(statements) == Sound;
      statements := statements + 1;
      leases := RowsToLeases(rows, set u | u in rows && IsSingle(rows[u].subnet) == single);
    }

    method AllActive(duration: int) returns (ok: bool, leases: seq<Lease>)
      modifies this`statements
      ensures statements == old(statements) + 1
      ensures ok ==> Lists(leases, rows, ActiveKeys(rows, duration, now))
      ensures !ok ==> !Reliable()
    {
      ok := faults(statements) == Sound;
      statements := statements + 1;
      var active := set u | u in rows && rows[u].renewed + duration > now;
      assert active == ActiveKeys(rows, duration, now);
      leases := RowsToLeases(rows, active);
    }

    method OldestExpiredLease(single: bool, expirationTime: int) returns (ok: bool, lease: Option<Lease>)
      modifies this`statements
      ensures statements == old(statements) + 1
      ensures ok && lease.None? ==> NoneExpired(rows, single, expirationTime, now)
      ensures ok && lease.Some? ==>
        OldestExpired(rows, single, expirationTime, now, lease.value.underlayIP)
          && lease.value == LeaseOf(rows, lease.value.underlayIP)
      ensures !ok ==> !Reliable()
    {
      ok := faults(statements) == Sound;
      statements := statements + 1;
      lease := None;
      var rest := rows.Keys;
      while rest != {}
        invariant rest <= rows.Keys
        invariant lease.None? ==> forall v :: v in rows && v !in rest ==>
          !ExpiredOfClass(rows[v], single, expirationTime, now)
        invariant lease.Some? ==> lease.value.underlayIP in rows && lease.value == LeaseOf(rows, lease.value.underlayIP)
        invariant lease.Some? ==> ExpiredOfClass(rows[lease.value.underlayIP], single, expirationTime, now)
        invariant lease.Some? ==>
          forall v :: v in rows && v !in rest && ExpiredOfClass(rows[v], single, expirationTime, now) ==>
          rows[lease.value.underlayIP].renewed <= rows[v].renewed
        decreases rest
      {
        var u :| u in rest;
        rest := rest - {u};
        if ExpiredOfClass(rows[u], single, expirationTime, now)
           && (lease.None? || rows[u].renewed < rows[lease.value.underlayIP].renewed) {
          lease := Some(LeaseOf(rows, u));
        }
      }
    }
  }

  /** Turns the selected rows into a list, in whatever order the database yields them. */
  method RowsToLeases(t: Table, keys: set<string>) returns (leases: seq<Lease>)
    requires keys <= t.Keys
    ensures Lists(leases, t, keys)
  {
    leases := [];
    var rest := keys;
    while rest != {}
      invariant rest <= keys
      invariant Lists(leases, t, keys - rest)
      decreases rest
    {
      var u :| u in rest;
      leases, rest := leases + [LeaseOf(t, u)], rest - {u};
    }
    assert keys - {} == keys;
  }

  // ---------- what the statements keep ----------

  lemma InsertKeepsUnique(t: Table, l: Lease, now: int)
    requires Unique(t) && Insertable(t, l)
    ensures Unique(Insert(t, l, now).value)
  {
  }
}
