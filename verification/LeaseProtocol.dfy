/** What one controller request may do to the lease table when no other request runs in between:
    the acquire, renew and release requests as relations between the table before and after.
    A relation's last argument says whether the database answered every statement; when it did
    not, a request may stop after any of its statements. */
module LeaseProtocol {
  import opened Wrappers
  import opened Text
  import opened IPText
  import opened HardwareAddr
  import opened CidrPool
  import opened LeaseTable

  datatype Config = Config(pool: Pool, expiration: int, attempts: nat)

  datatype Outcome = Leased(lease: Lease) | NoLease | Failed

  /** Where an attempt finds its subnet: a free pool member, or the row it evicts. */
  datatype Choice = Free(subnet: string) | Reclaim(victim: string)

  /** The hardware address the controller derives for a subnet, as text. */
  function HwAddrFor(subnet: string): Option<string> {
    match ParsePrefix(subnet)
    case Some((V4(a), _)) => Some(PrintMac(VtepMac(a)))
    case _ => None
  }

  // ---------- acquiring ----------

  ghost predicate PoolCovered(cfg: Config, t: Table, single: bool) {
    cfg.pool.Class(single) <= Taken(t, single)
  }

  ghost predicate CanChoose(cfg: Config, t: Table, single: bool, now: int, c: Choice) {
    match c
    case Free(s) => s in cfg.pool.Class(single) && s !in Taken(t, single)
    case Reclaim(v) => PoolCovered(cfg, t, single) && OldestExpired(t, single, cfg.expiration, now, v)
  }

  /** The table once the chosen row is evicted. */
  function Cleared(t: Table, c: Choice): Table {
    if c.Free? then t else t - {c.victim}
  }

  function GrantLease(t: Table, u: string, c: Choice): (l: Option<Lease>)
    requires c.Reclaim? ==> c.victim in t
    ensures l.Some? ==> l.value.underlayIP == u
  {
    var s := if c.Free? then c.subnet else t[c.victim].subnet;
    match HwAddrFor(s)
    case None => None
    case Some(h) => Some(Lease(u, s, h))
  }

  function GrantTable(t: Table, u: string, now: int, c: Choice): Option<Table>
    requires c.Reclaim? ==> c.victim in t
  {
    match GrantLease(t, u, c)
    case None => None
    case Some(l) => Insert(Cleared(t, c), l, now)
  }

  /** One round of `tryAcquireLease`. */
  ghost predicate Attempt(cfg: Config, t: Table, t': Table, u: string, single: bool, now: int, out: Outcome,
                          sound: bool) {
    match out
    case Leased(l) =>
      exists c :: CanChoose(cfg, t, single, now, c)
                  && GrantLease(t, u, c) == Some(l) && GrantTable(t, u, now, c) == Some(t')
    case NoLease =>
      t' == t && PoolCovered(cfg, t, single) && NoneExpired(t, single, cfg.expiration, now)
    case Failed =>
      || (exists c :: CanChoose(cfg, t, single, now, c) && GrantTable(t, u, now, c).None? && t' == Cleared(t, c))
      || (!sound && t' == t)
      || (!sound && exists c ::
            CanChoose(cfg, t, single, now, c) && (t' == Cleared(t, c) || GrantTable(t, u, now, c) == Some(t')))
  }

  /** The retry loop: rounds follow each other until one is granted or the attempts run out. */
  ghost predicate AttemptRun(cfg: Config, ts: seq<Table>, outs: seq<Outcome>, u: string, single: bool, now: int,
                             sound: bool) {
    && |ts| == |outs| + 1 && |outs| <= cfg.attempts
    && (forall i :: 0 <= i < |outs| ==> Attempt(cfg, ts[i], ts[i + 1], u, single, now, outs[i], sound))
    && (forall i :: 0 <= i < |outs| - 1 ==> !outs[i].Leased?)
  }

  function LastOutcome(outs: seq<Outcome>): Outcome {
    if outs == [] then NoLease else outs[|outs| - 1]
  }

  ghost predicate Retries(cfg: Config, t: Table, t': Table, u: string, single: bool, now: int, out: Outcome,
                          sound: bool) {
    exists ts, outs ::
      && AttemptRun(cfg, ts, outs, u, single, now, sound)
      && ts[0] == t && ts[|outs|] == t' && out == LastOutcome(outs)
      && (out.Leased? || |outs| == cfg.attempts)
  }

  ghost predicate Acquires(cfg: Config, t: Table, t': Table, u: string, single: bool, now: int, out: Outcome,
                           sound: bool) {
    if ParseIPv4(u).None? then t' == t && out == Failed
    else if !sound && out == Failed && (t' == t || t' == t - {u}) then
      t' == t || !cfg.pool.IsMember(t[u].subnet)
    else if u in t && cfg.pool.IsMember(t[u].subnet) then t' == t && out == Leased(LeaseOf(t, u))
    else Retries(cfg, t - {u}, t', u, single, now, out, sound)
  }

  // ---------- renewing and releasing ----------

  datatype RenewResult = Renewed | NonRetriable | Retriable

  predicate WellFormed(l: Lease) {
    ParseIP(l.underlayIP).Some? && ParsePrefix(l.overlaySubnet).Some? && ParseMac(l.hardwareAddr).Some?
  }

  /** A renewal whose statements are all answered. */
  function RenewAnswer(t: Table, l: Lease, now: int): (Table, RenewResult) {
    if !WellFormed(l) then (t, NonRetriable)
    else if l.underlayIP in t then
      if LeaseOf(t, l.underlayIP) == l then (Touch(t, l.underlayIP, now), Renewed) else (t, NonRetriable)
    else match Insert(t, l, now)
      case None => (t, NonRetriable)
      case Some(t1) => (Touch(t1, l.underlayIP, now), Renewed)
  }

  ghost predicate Renews(t: Table, t': Table, l: Lease, now: int, res: RenewResult, sound: bool) {
    || (t', res) == RenewAnswer(t, l, now)
    || (!sound && WellFormed(l) && (res == Retriable || (res == NonRetriable && l.underlayIP !in t))
        && (t' == t || t' == RenewAnswer(t, l, now).0))
  }

  ghost predicate Releases(t: Table, t': Table, u: string, ok: bool, sound: bool) {
    t' == t - {u} || (!sound && !ok && t' == t)
  }
}
