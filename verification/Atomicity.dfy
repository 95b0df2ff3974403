/** The two views of a request agree: a request whose statements run without interruption is one whole request. */
module Atomicity {
  import opened Wrappers
  import opened IPText
  import opened LeaseTable
  import opened LeaseProtocol
  import opened Interleaving

  /** Statement i of one process turns table i into table i + 1; nobody else runs, and no time passes. */
  ghost predicate Alone(cfg: Config, ts: seq<Table>, ps: seq<Proc>, now: int) {
    && |ts| == |ps| && ps != []
    && (forall i :: 0 <= i < |ps| - 1 ==> !ps[i].Done? && Statement(cfg, ts[i], ts[i + 1], now, ps[i], ps[i + 1]))
    && ps[|ps| - 1].Done?
  }

  lemma Later(cfg: Config, ts: seq<Table>, ps: seq<Proc>, now: int, e: nat)
    requires Alone(cfg, ts, ps, now) && e < |ps|
    ensures Alone(cfg, ts[e..], ps[e..], now)
  {
    hide Statement;
  }

  /** How a process stands when one attempt is over. */
  function AfterAttempt(u: string, single: bool, left: nat, out: Outcome): Proc {
    if out.Leased? then Done(ToAcquire(out)) else NextAttempt(u, single, left, out)
  }

  lemma InsertEnds(cfg: Config, t: Table, t1: Table, t2: Table, now: int, u: string, single: bool, left: nat,
                   c: Choice, s: string, p: Proc)
    returns (out: Outcome)
    requires CanChoose(cfg, t, single, now, c) && t1 == Cleared(t, c)
    requires s == (if c.Free? then c.subnet else t[c.victim].subnet) && HwAddrFor(s).Some?
    requires Statement(cfg, t1, t2, now, Inserting(single, left, Lease(u, s, HwAddrFor(s).value)), p)
    ensures Attempt(cfg, t, t2, u, single, now, out, false) && p == AfterAttempt(u, single, left, out)
  {
    hide HwAddrFor, IsSingle, Insertable, PoolCovered, Taken;
    var l := Lease(u, s, HwAddrFor(s).value);
    assert GrantLease(t, u, c) == Some(l);
    out := if p == Done(ToAcquire(Leased(l))) then Leased(l) else Failed;
  }

  /** The statements from one class query to the end of the attempt, at most four of them, are one attempt. */
  lemma OneAttempt(cfg: Config, ts: seq<Table>, ps: seq<Proc>, now: int, u: string, single: bool, left: nat)
    returns (e: nat, out: Outcome)
    requires Alone(cfg, ts, ps, now) && ps[0] == Listing(u, single, left)
    ensures 1 <= e < |ps| && Attempt(cfg, ts[0], ts[e], u, single, now, out, false)
            && ps[e] == AfterAttempt(u, single, left, out)
  {
    hide HwAddrFor, IsSingle, Insertable, PoolCovered, Taken, NoneExpired, OldestExpired;
    assert Statement(cfg, ts[0], ts[1], now, ps[0], ps[1]);
    var t := ts[0];
    if ps[1] == NextAttempt(u, single, left, Failed) {
      return 1, Failed;
    }
    if ps[1].Searching? {
      e, out := AfterSearch(cfg, ts, ps, now, u, single, left);
      return;
    }
    var s :| s in cfg.pool.Class(single) && s !in Taken(t, single) && ps[1] == Chosen(u, single, left, s);
    assert CanChoose(cfg, t, single, now, Free(s));
    assert Statement(cfg, ts[1], ts[2], now, ps[1], ps[2]);
    out := InsertEnds(cfg, t, ts[1], ts[2], now, u, single, left, Free(s), s, ps[2]);
    e := 2;
  }

  lemma AfterSearch(cfg: Config, ts: seq<Table>, ps: seq<Proc>, now: int, u: string, single: bool, left: nat)
    returns (e: nat, out: Outcome)
    requires Alone(cfg, ts, ps, now) && ps[0] == Listing(u, single, left) && |ps| > 1
             && ps[1] == Searching(u, single, left)
    requires PoolCovered(cfg, ts[0], single)
    ensures 1 <= e < |ps| && Attempt(cfg, ts[0], ts[e], u, single, now, out, false)
            && ps[e] == AfterAttempt(u, single, left, out)
  {
    hide HwAddrFor, IsSingle, Insertable, PoolCovered, Taken, NoneExpired;
    assert Statement(cfg, ts[0], ts[1], now, ps[0], ps[1]);
    assert Statement(cfg, ts[1], ts[2], now, ps[1], ps[2]);
    var t := ts[0];
    if ps[2] == NextAttempt(u, single, left, Failed) {
      return 2, Failed;
    }
    if NoneExpired(t, single, cfg.expiration, now) && ps[2] == NextAttempt(u, single, left, NoLease) {
      return 2, NoLease;
    }
    var v :| OldestExpired(t, single, cfg.expiration, now, v)
             && ps[2] == Evicting(u, single, left, v, t[v].subnet, t[v].renewed);
    var s := t[v].subnet;
    assert CanChoose(cfg, t, single, now, Reclaim(v));
    assert Statement(cfg, ts[2], ts[3], now, ps[2], ps[3]);
    if ps[3] == NextAttempt(u, single, left, Failed) && (ts[3] == t || ts[3] == t - {v}) {
      return 3, Failed;
    }
    assert Statement(cfg, ts[3], ts[4], now, ps[3], ps[4]);
    out := InsertEnds(cfg, t, ts[3], ts[4], now, u, single, left, Reclaim(v), s, ps[4]);
    e := 4;
  }

  ghost predicate Rounds(cfg: Config, ts: seq<Table>, outs: seq<Outcome>, u: string, single: bool, now: int,
                         sound: bool) {
    && |ts| == |outs| + 1
    && (forall i :: 0 <= i < |outs| ==> Attempt(cfg, ts[i], ts[i + 1], u, single, now, outs[i], sound))
    && (forall i :: 0 <= i < |outs| - 1 ==> !outs[i].Leased?)
  }

  lemma {:induction false} AttemptsAlone(cfg: Config, ts: seq<Table>, ps: seq<Proc>, now: int, u: string, single: bool,
                                         left: nat)
    returns (rounds: seq<Table>, outs: seq<Outcome>)
    requires Alone(cfg, ts, ps, now) && ps[0] == Listing(u, single, left) && 1 <= left
    ensures Rounds(cfg, rounds, outs, u, single, now, false) && 1 <= |outs| <= left
    ensures rounds[0] == ts[0] && rounds[|outs|] == ts[|ts| - 1] && ps[|ps| - 1] == Done(ToAcquire(LastOutcome(outs)))
    ensures LastOutcome(outs).Leased? || |outs| == left
    decreases |ps|
  {
    hide Statement, Attempt;
    var e, out := OneAttempt(cfg, ts, ps, now, u, single, left);
    if ps[e].Done? {
      assert e == |ps| - 1;
      return [ts[0], ts[e]], [out];
    }
    Later(cfg, ts, ps, now, e);
    rounds, outs := AttemptsAlone(cfg, ts[e..], ps[e..], now, u, single, left - 1);
    var rounds', outs' := [ts[0]] + rounds, [out] + outs;
    forall i | 0 <= i < |outs'| ensures Attempt(cfg, rounds'[i], rounds'[i + 1], u, single, now, outs'[i], false) {
      if i > 0 { assert rounds'[i] == rounds[i - 1] && rounds'[i + 1] == rounds[i] && outs'[i] == outs[i - 1]; }
    }
    return rounds', outs';
  }

  /** An acquire whose statements, lost ones included, run without interruption from its first to its answer is one
      of the whole acquires about which the theorems on requests speak. */
  lemma UninterruptedAcquireIsAtomic(cfg: Config, ts: seq<Table>, ps: seq<Proc>, now: int, u: string, single: bool,
                                     out: Outcome)
    requires Alone(cfg, ts, ps, now) && ps[0] == LookingUp(u, single) && ps[|ps| - 1] == Done(ToAcquire(out))
    requires ParseIPv4(u).Some?
    ensures Acquires(cfg, ts[0], ts[|ts| - 1], u, single, now, out, false)
  {
    hide ParseIPv4, Attempt, Retries;
    var t, n := ts[0], |ts| - 1;
    assert Statement(cfg, ts[0], ts[1], now, ps[0], ps[1]);
    if ps[1].Done? {
      assert n == 1;
      if ps[1] == FirstAttempt(cfg, u, single) && u !in t {
        NoAttempts(cfg, t, u, single, now);
      }
    } else if ps[1] == Dropping(u, single) {
      assert Statement(cfg, ts[1], ts[2], now, ps[1], ps[2]);
      if ps[2].Done? {
        assert n == 2;
        if ps[2] == FirstAttempt(cfg, u, single) {
          NoAttempts(cfg, t - {u}, u, single, now);
        }
      } else {
        Later(cfg, ts, ps, now, 2);
        RetriesAlone(cfg, ts[2..], ps[2..], now, u, single, out);
      }
    } else {
      Later(cfg, ts, ps, now, 1);
      RetriesAlone(cfg, ts[1..], ps[1..], now, u, single, out);
    }
    assert u !in t ==> t - {u} == t;
  }

  lemma RetriesAlone(cfg: Config, ts: seq<Table>, ps: seq<Proc>, now: int, u: string, single: bool, out: Outcome)
    requires Alone(cfg, ts, ps, now) && ps[0] == Listing(u, single, cfg.attempts) && 1 <= cfg.attempts
             && ps[|ps| - 1] == Done(ToAcquire(out))
    ensures Retries(cfg, ts[0], ts[|ts| - 1], u, single, now, out, false)
  {
    hide Statement, Attempt;
    var rounds, outs := AttemptsAlone(cfg, ts, ps, now, u, single, cfg.attempts);
    assert AttemptRun(cfg, rounds, outs, u, single, now, false);
  }

  lemma NoAttempts(cfg: Config, t: Table, u: string, single: bool, now: int)
    requires cfg.attempts == 0
    ensures Retries(cfg, t, t, u, single, now, NoLease, false)
  {
    hide Attempt;
    assert AttemptRun(cfg, [t], [], u, single, now, false) && [t][0] == t;
  }

  // ---------- renewals and releases ----------

  lemma RenewEndsAfterTouch(cfg: Config, ts: seq<Table>, ps: seq<Proc>, now: int, l: Lease)
    requires Alone(cfg, ts, ps, now) && ps[0] == RenewTouching(l) && l.underlayIP in ts[0]
    ensures ts[|ts| - 1] == Touch(ts[0], l.underlayIP, now) || ts[|ts| - 1] == ts[0]
    ensures ps[|ps| - 1] in {Done(ToRenew(Renewed)), Done(ToRenew(Retriable))}
    ensures ps[|ps| - 1] == Done(ToRenew(Renewed)) ==> ts[|ts| - 1] == Touch(ts[0], l.underlayIP, now)
  {
    assert Statement(cfg, ts[0], ts[1], now, ps[0], ps[1]);
    if !ps[1].Done? {
      assert Statement(cfg, ts[1], ts[2], now, ps[1], ps[2]);
    }
  }

  /** The statements of a renewal, lost ones included, run without interruption are one whole renewal. */
  lemma UninterruptedRenewIsAtomic(cfg: Config, ts: seq<Table>, ps: seq<Proc>, now: int, l: Lease)
    requires Alone(cfg, ts, ps, now) && ps[0] == RenewLooking(l) && WellFormed(l)
    ensures ps[|ps| - 1].answer.ToRenew?
    ensures Renews(ts[0], ts[|ts| - 1], l, now, ps[|ps| - 1].answer.res, false)
  {
    hide WellFormed, Insertable;
    assert Statement(cfg, ts[0], ts[1], now, ps[0], ps[1]);
    if ps[1].RenewTouching? {
      Later(cfg, ts, ps, now, 1);
      RenewEndsAfterTouch(cfg, ts[1..], ps[1..], now, l);
    } else if ps[1].RenewAdding? {
      assert Statement(cfg, ts[1], ts[2], now, ps[1], ps[2]);
      if !ps[2].Done? {
        Later(cfg, ts, ps, now, 2);
        RenewEndsAfterTouch(cfg, ts[2..], ps[2..], now, l);
        assert Touch(ts[2], l.underlayIP, now) == ts[2];
      }
    }
  }

  lemma UninterruptedReleaseIsAtomic(cfg: Config, ts: seq<Table>, ps: seq<Proc>, now: int, u: string)
    requires Alone(cfg, ts, ps, now) && ps[0] == Releasing(u)
    ensures ps[|ps| - 1].answer.ToRelease?
    ensures Releases(ts[0], ts[|ts| - 1], u, ps[|ps| - 1].answer.ok, false)
  {
    assert Statement(cfg, ts[0], ts[1], now, ps[0], ps[1]);
  }

  // ---------- every whole request is such a series ----------

  /** Statements of one process in a row lead from one table and place to another; none before the last ends it. */
  ghost predicate Path(cfg: Config, ts: seq<Table>, ps: seq<Proc>, now: int, t: Table, p: Proc, t': Table, p': Proc) {
    && |ts| == |ps| && ps != []
    && (forall i :: 0 <= i < |ps| - 1 ==> !ps[i].Done? && Statement(cfg, ts[i], ts[i + 1], now, ps[i], ps[i + 1]))
    && ts[0] == t && ps[0] == p && ts[|ts| - 1] == t' && ps[|ps| - 1] == p'
  }

  ghost predicate Leads(cfg: Config, now: int, t: Table, p: Proc, t': Table, p': Proc) {
    exists ts, ps :: Path(cfg, ts, ps, now, t, p, t', p')
  }

  lemma OneStatement(cfg: Config, now: int, t: Table, p: Proc, t': Table, p': Proc)
    requires !p.Done? && Statement(cfg, t, t', now, p, p')
    ensures Leads(cfg, now, t, p, t', p')
  {
    hide Statement;
    assert Path(cfg, [t, t'], [p, p'], now, t, p, t', p');
  }

  lemma LeadsOn(cfg: Config, now: int, t: Table, p: Proc, t1: Table, p1: Proc, t2: Table, p2: Proc)
    requires Leads(cfg, now, t, p, t1, p1) && Leads(cfg, now, t1, p1, t2, p2)
    ensures Leads(cfg, now, t, p, t2, p2)
  {
    hide Statement;
    var ts, ps :| Path(cfg, ts, ps, now, t, p, t1, p1);
    var ts', ps' :| Path(cfg, ts', ps', now, t1, p1, t2, p2);
    var n, tables: seq<Table>, procs: seq<Proc> := |ps| - 1, ts + ts'[1..], ps + ps'[1..];
    forall i | 0 <= i < |procs| - 1
      ensures !procs[i].Done? && Statement(cfg, tables[i], tables[i + 1], now, procs[i], procs[i + 1])
    {
      if i >= n {
        assert procs[i] == ps'[i - n] && procs[i + 1] == ps'[i - n + 1];
        assert tables[i] == ts'[i - n] && tables[i + 1] == ts'[i - n + 1];
      }
    }
    assert Path(cfg, tables, procs, now, t, p, t2, p2);
  }

  lemma EvictionIsFound(cfg: Config, t: Table, u: string, single: bool, left: nat, now: int, v: string)
    requires PoolCovered(cfg, t, single) && OldestExpired(t, single, cfg.expiration, now, v)
    ensures Leads(cfg, now, t, Listing(u, single, left), t, Evicting(u, single, left, v, t[v].subnet, t[v].renewed))
  {
    hide Leads, HwAddrFor, PoolCovered, Taken, NoneExpired;
    var p, q := Listing(u, single, left), Searching(u, single, left);
    var r := Evicting(u, single, left, v, t[v].subnet, t[v].renewed);
    OneStatement(cfg, now, t, p, t, q);
    OneStatement(cfg, now, t, q, t, r);
    LeadsOn(cfg, now, t, p, t, q, t, r);
  }

  /** From the class query to the subnet in hand. */
  lemma ChoiceIsMade(cfg: Config, t: Table, u: string, single: bool, left: nat, now: int, c: Choice)
    requires CanChoose(cfg, t, single, now, c)
    ensures var s := if c.Free? then c.subnet else t[c.victim].subnet;
      Leads(cfg, now, t, Listing(u, single, left), Cleared(t, c), Chosen(u, single, left, s))
  {
    hide Leads, HwAddrFor, PoolCovered, Taken, ExpiredOfClass;
    var p := Listing(u, single, left);
    match c
    case Free(s) => OneStatement(cfg, now, t, p, t, Chosen(u, single, left, s));
    case Reclaim(v) =>
      var s := t[v].subnet;
      var q := Evicting(u, single, left, v, s, t[v].renewed);
      EvictionIsFound(cfg, t, u, single, left, now, v);
      OneStatement(cfg, now, t, q, t - {v}, Chosen(u, single, left, s));
      LeadsOn(cfg, now, t, p, t, q, t - {v}, Chosen(u, single, left, s));
  }

  /** The end of an attempt that has a subnet: the insert, unless no hardware address is derived. */
  lemma GrantIsMade(cfg: Config, t: Table, t': Table, u: string, single: bool, left: nat, now: int, c: Choice,
                    out: Outcome)
    requires CanChoose(cfg, t, single, now, c)
    requires
      || (GrantTable(t, u, now, c) == Some(t') && out == Failed)
      || (GrantTable(t, u, now, c) == Some(t') && out.Leased? && GrantLease(t, u, c) == Some(out.lease))
      || (GrantTable(t, u, now, c).None? && t' == Cleared(t, c) && out == Failed)
    ensures Leads(cfg, now, t, Listing(u, single, left), t', AfterAttempt(u, single, left, out))
  {
    hide Leads, HwAddrFor, PoolCovered, Insertable, ExpiredOfClass, Taken;
    ChoiceIsMade(cfg, t, u, single, left, now, c);
    if GrantLease(t, u, c).Some? {
      var q, r := Inserting(single, left, GrantLease(t, u, c).value), AfterAttempt(u, single, left, out);
      OneStatement(cfg, now, Cleared(t, c), q, t', r);
      LeadsOn(cfg, now, t, Listing(u, single, left), Cleared(t, c), q, t', r);
    }
  }

  lemma RefusalIsGiven(cfg: Config, t: Table, u: string, single: bool, left: nat, now: int)
    requires PoolCovered(cfg, t, single) && NoneExpired(t, single, cfg.expiration, now)
    ensures Leads(cfg, now, t, Listing(u, single, left), t, NextAttempt(u, single, left, NoLease))
  {
    hide Leads, HwAddrFor, PoolCovered, Taken, NoneExpired, OldestExpired;
    var p, q, r := Listing(u, single, left), Searching(u, single, left), NextAttempt(u, single, left, NoLease);
    OneStatement(cfg, now, t, p, t, q);
    OneStatement(cfg, now, t, q, t, r);
    LeadsOn(cfg, now, t, p, t, q, t, r);
  }

  lemma DeleteIsLost(cfg: Config, t: Table, u: string, single: bool, left: nat, now: int, v: string)
    requires PoolCovered(cfg, t, single) && OldestExpired(t, single, cfg.expiration, now, v)
    ensures Leads(cfg, now, t, Listing(u, single, left), t - {v}, NextAttempt(u, single, left, Failed))
  {
    hide Leads, HwAddrFor, PoolCovered, Taken, ExpiredOfClass;
    var q, r := Evicting(u, single, left, v, t[v].subnet, t[v].renewed), NextAttempt(u, single, left, Failed);
    EvictionIsFound(cfg, t, u, single, left, now, v);
    OneStatement(cfg, now, t, q, t - {v}, r);
    LeadsOn(cfg, now, t, Listing(u, single, left), t, q, t - {v}, r);
  }

  lemma AttemptIsMade(cfg: Config, t: Table, t': Table, u: string, single: bool, left: nat, now: int, out: Outcome,
                      sound: bool)
    requires Attempt(cfg, t, t', u, single, now, out, sound)
    ensures Leads(cfg, now, t, Listing(u, single, left), t', AfterAttempt(u, single, left, out))
  {
    hide Leads, HwAddrFor, PoolCovered, Taken, ExpiredOfClass, NoneExpired, Insertable;
    match out
    case Leased(l) =>
      var c :| CanChoose(cfg, t, single, now, c) && GrantLease(t, u, c) == Some(l)
               && GrantTable(t, u, now, c) == Some(t');
      GrantIsMade(cfg, t, t', u, single, left, now, c, out);
    case NoLease => RefusalIsGiven(cfg, t, u, single, left, now);
    case Failed =>
      if t' == t {
        OneStatement(cfg, now, t, Listing(u, single, left), t, NextAttempt(u, single, left, Failed));
      } else if c :| CanChoose(cfg, t, single, now, c) && GrantTable(t, u, now, c) == Some(t') {
        GrantIsMade(cfg, t, t', u, single, left, now, c, out);
      } else {
        var c :| CanChoose(cfg, t, single, now, c) && t' == Cleared(t, c);
        DeleteIsLost(cfg, t, u, single, left, now, c.victim);
      }
  }

  lemma {:induction false} RoundsAreMade(cfg: Config, rounds: seq<Table>, outs: seq<Outcome>, u: string, single: bool,
                                         now: int, sound: bool, left: nat)
    requires Rounds(cfg, rounds, outs, u, single, now, sound) && 1 <= |outs| <= left
    requires LastOutcome(outs).Leased? || |outs| == left
    ensures Leads(cfg, now, rounds[0], Listing(u, single, left), rounds[|outs|], Done(ToAcquire(LastOutcome(outs))))
    decreases |outs|
  {
    hide Attempt, Leads;
    AttemptIsMade(cfg, rounds[0], rounds[1], u, single, left, now, outs[0], sound);
    if |outs| > 1 {
      RoundsAreMade(cfg, rounds[1..], outs[1..], u, single, now, sound, left - 1);
      LeadsOn(cfg, now, rounds[0], Listing(u, single, left), rounds[1], Listing(u, single, left - 1), rounds[|outs|],
              Done(ToAcquire(LastOutcome(outs))));
    }
  }

  lemma RetriesAreMade(cfg: Config, t: Table, t': Table, u: string, single: bool, now: int, out: Outcome)
    requires Retries(cfg, t, t', u, single, now, out, false)
    ensures cfg.attempts == 0 ==> t' == t && out == NoLease
    ensures cfg.attempts > 0 ==> Leads(cfg, now, t, Listing(u, single, cfg.attempts), t', Done(ToAcquire(out)))
  {
    hide Attempt, Leads;
    var rounds, outs :|
      && AttemptRun(cfg, rounds, outs, u, single, now, false)
      && rounds[0] == t && rounds[|outs|] == t' && out == LastOutcome(outs)
      && (out.Leased? || |outs| == cfg.attempts);
    if outs != [] {
      RoundsAreMade(cfg, rounds, outs, u, single, now, false, cfg.attempts);
    }
  }

  lemma AcquireIsMade(cfg: Config, t: Table, t': Table, u: string, single: bool, now: int, out: Outcome)
    requires ParseIPv4(u).Some? && Acquires(cfg, t, t', u, single, now, out, false)
    ensures Leads(cfg, now, t, LookingUp(u, single), t', Done(ToAcquire(out)))
  {
    hide ParseIPv4, Retries, Leads;
    var p, q, done := LookingUp(u, single), Dropping(u, single), Done(ToAcquire(out));
    if (out == Failed && t' == t) || (u in t && cfg.pool.IsMember(t[u].subnet)) {
      OneStatement(cfg, now, t, p, t, done);
    } else if out == Failed && t' == t - {u} {
      OneStatement(cfg, now, t, p, t, q);
      OneStatement(cfg, now, t, q, t', done);
      LeadsOn(cfg, now, t, p, t, q, t', done);
    } else {
      var first, t0 := FirstAttempt(cfg, u, single), t - {u};
      if u in t {
        OneStatement(cfg, now, t, p, t, q);
        OneStatement(cfg, now, t, q, t0, first);
        LeadsOn(cfg, now, t, p, t, q, t0, first);
      } else {
        assert t0 == t;
        OneStatement(cfg, now, t, p, t0, first);
      }
      RetriesAreMade(cfg, t0, t', u, single, now, out);
      if cfg.attempts > 0 {
        LeadsOn(cfg, now, t, p, t0, first, t', done);
      }
    }
  }

  lemma RenewIsMade(cfg: Config, t: Table, t': Table, l: Lease, now: int, res: RenewResult)
    requires WellFormed(l) && Renews(t, t', l, now, res, false)
    ensures Leads(cfg, now, t, RenewLooking(l), t', Done(ToRenew(res)))
  {
    hide WellFormed, FitsColumns, Leads;
    var p, done := RenewLooking(l), Done(ToRenew(res));
    if (res == Retriable && t' == t) || (l.underlayIP in t && LeaseOf(t, l.underlayIP) != l) {
      OneStatement(cfg, now, t, p, t, done);
    } else if l.underlayIP in t {
      OneStatement(cfg, now, t, p, t, RenewTouching(l));
      TouchIsMade(cfg, t, l, now, res);
      LeadsOn(cfg, now, t, p, t, RenewTouching(l), t', done);
    } else {
      OneStatement(cfg, now, t, p, t, RenewAdding(l));
      if Insert(t, l, now).Some? {
        assert Touch(Insert(t, l, now).value, l.underlayIP, now) == Insert(t, l, now).value;
      }
      if res == NonRetriable {
        OneStatement(cfg, now, t, RenewAdding(l), t', done);
      } else {
        var t1 := Insert(t, l, now).value;
        OneStatement(cfg, now, t, RenewAdding(l), t1, RenewTouching(l));
        TouchIsMade(cfg, t1, l, now, res);
        LeadsOn(cfg, now, t, RenewAdding(l), t1, RenewTouching(l), t', done);
      }
      LeadsOn(cfg, now, t, p, t, RenewAdding(l), t', done);
    }
  }

  lemma TouchIsMade(cfg: Config, t: Table, l: Lease, now: int, res: RenewResult)
    requires l.underlayIP in t && res != NonRetriable
    ensures Leads(cfg, now, t, RenewTouching(l), Touch(t, l.underlayIP, now), Done(ToRenew(res)))
  {
    hide Leads;
    var t', p, q, done := Touch(t, l.underlayIP, now), RenewTouching(l), RenewReading(l), Done(ToRenew(res));
    if res == Retriable {
      OneStatement(cfg, now, t, p, t', done);
    } else {
      OneStatement(cfg, now, t, p, t', q);
      OneStatement(cfg, now, t', q, t', done);
      LeadsOn(cfg, now, t, p, t', q, t', done);
    }
  }

  // ---------- both directions ----------

  lemma PathIsAlone(cfg: Config, now: int, t: Table, p: Proc, t': Table, answer: Answer)
    returns (ts: seq<Table>, ps: seq<Proc>)
    requires Leads(cfg, now, t, p, t', Done(answer))
    ensures Alone(cfg, ts, ps, now) && ts[0] == t && ps[0] == p
    ensures ts[|ts| - 1] == t' && ps[|ps| - 1] == Done(answer)
  {
    hide Statement;
    ts, ps :| Path(cfg, ts, ps, now, t, p, t', Done(answer));
  }

  /** The whole acquires are exactly the uninterrupted series of an acquire's statements, lost ones included. */
  lemma AcquireIsUninterrupted(cfg: Config, t: Table, t': Table, u: string, single: bool, now: int, out: Outcome)
    requires ParseIPv4(u).Some?
    ensures Acquires(cfg, t, t', u, single, now, out, false) <==>
      Leads(cfg, now, t, LookingUp(u, single), t', Done(ToAcquire(out)))
  {
    hide ParseIPv4, Acquires, Leads, Alone;
    if Leads(cfg, now, t, LookingUp(u, single), t', Done(ToAcquire(out))) {
      var ts, ps := PathIsAlone(cfg, now, t, LookingUp(u, single), t', ToAcquire(out));
      assert |ts| == |ps| by { AloneShape(cfg, ts, ps, now); }
      UninterruptedAcquireIsAtomic(cfg, ts, ps, now, u, single, out);
    }
    if Acquires(cfg, t, t', u, single, now, out, false) {
      AcquireIsMade(cfg, t, t', u, single, now, out);
    }
  }

  lemma AloneShape(cfg: Config, ts: seq<Table>, ps: seq<Proc>, now: int)
    requires Alone(cfg, ts, ps, now)
    ensures |ts| == |ps| && ps != []
  {
  }

  /** The whole renewals are exactly the uninterrupted series of a renewal's statements, lost ones included. */
  lemma RenewIsUninterrupted(cfg: Config, t: Table, t': Table, l: Lease, now: int, res: RenewResult)
    requires WellFormed(l)
    ensures Renews(t, t', l, now, res, false) <==> Leads(cfg, now, t, RenewLooking(l), t', Done(ToRenew(res)))
  {
    hide WellFormed, Renews, Leads, Alone;
    if Leads(cfg, now, t, RenewLooking(l), t', Done(ToRenew(res))) {
      var ts, ps := PathIsAlone(cfg, now, t, RenewLooking(l), t', ToRenew(res));
      UninterruptedRenewIsAtomic(cfg, ts, ps, now, l);
    }
    if Renews(t, t', l, now, res, false) {
      RenewIsMade(cfg, t, t', l, now, res);
    }
  }

  /** And so are the whole releases, which are one statement each. */
  lemma ReleaseIsUninterrupted(cfg: Config, t: Table, t': Table, u: string, now: int, ok: bool)
    ensures Releases(t, t', u, ok, false) <==> Leads(cfg, now, t, Releasing(u), t', Done(ToRelease(ok)))
  {
    hide Leads, Alone;
    if Leads(cfg, now, t, Releasing(u), t', Done(ToRelease(ok))) {
      var ts, ps := PathIsAlone(cfg, now, t, Releasing(u), t', ToRelease(ok));
      UninterruptedReleaseIsAtomic(cfg, ts, ps, now, u);
    }
    if Releases(t, t', u, ok, false) {
      OneStatement(cfg, now, t, Releasing(u), t', Done(ToRelease(ok)));
    }
  }
}
