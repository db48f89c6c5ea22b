/**
 Guessing with overlapping calls (security/SecurityManager.cpp, authenticate).  The
 password is verified between the two critical sections, outside the lock, and the time
 of a call is read at its start, before the first one; so a call can pass the check before
 an earlier one has failed, calls can take the lock in another order than they read the
 clock, and a late failure can even shorten a lock.  With a bounded number of calls on one
 account in progress at a time the number of guesses answered is bounded all the same.
 */
module Overlap {
  import opened Util
  import opened Security

  // One account under guessing: its record, and the calls past their first section with their times.
  datatype Desk = Desk(lk: Option<Lockout>, pending: map<nat, nat>)

  const IDLE := Desk(None, map[])

  // A critical section of a call on account u that will not verify.
  function DeskStep(p: Policy, u: string, d: Desk, e: Event): Desk {
    if e.user != u then d else
      match e
      case Check(_, id, _, now) =>
        if id in d.pending then d else
          var (locked, lk) := CheckUser(p, d.lk, now);
          if locked then d.(lk := lk) else Desk(lk, d.pending[id := now])
      case Finish(_, id) =>
        if id !in d.pending then d else Desk(Some(FailUser(p, d.lk, d.pending[id])), d.pending - {id})
  }

  predicate Fails(u: string, d: Desk, e: Event) { e.Finish? && e.user == u && e.id in d.pending }

  function DeskAfter(p: Policy, u: string, d: Desk, es: seq<Event>): Desk {
    if es == [] then d else DeskStep(p, u, DeskAfter(p, u, d, es[..|es| - 1]), es[|es| - 1])
  }

  // The guesses that were answered, wrongly as they were.
  function Answered(p: Policy, u: string, d: Desk, es: seq<Event>): nat {
    if es == [] then 0 else
      var front := es[..|es| - 1];
      Answered(p, u, d, front) + if Fails(u, DeskAfter(p, u, d, front), es[|es| - 1]) then 1 else 0
  }

  // -------------------------------------------------- this is what the gate does

  ghost predicate Mirrors(g: Gate, u: string, d: Desk) {
    && d.lk == Get(g.lockouts, u)
    && forall id: nat :: MirrorsCall(g, u, d, id)
  }

  ghost predicate MirrorsCall(g: Gate, u: string, d: Desk, id: nat) {
    Get(g.pending, (u, id)) == CallOf(d, id)
  }

  // The wrong guesses among the answers.
  function BadFor(a: seq<(string, nat, Outcome)>, u: string): nat {
    if a == [] then 0 else
      BadFor(a[..|a| - 1], u) + if a[|a| - 1].0 == u && a[|a| - 1].2.BadCredentials? then 1 else 0
  }

  lemma BadForAppend(a: seq<(string, nat, Outcome)>, x: (string, nat, Outcome), u: string)
    ensures BadFor(a + [x], u) == BadFor(a, u) + if x.0 == u && x.2.BadCredentials? then 1 else 0
  {
    assert (a + [x])[..|a|] == a;
  }

  // The gate's entry for a call of the desk.
  function CallOf(d: Desk, id: nat): Option<Pending> {
    if id in d.pending then Some(Pending(d.pending[id], None)) else None
  }

  lemma SectionIsDesk(p: Policy, users: map<string, UserRecord>, verify: Verifier, decoy: string,
                      u: string, d: Desk, e: Event)
    requires e.user == u && (e.Check? ==> Verdict(users, verify, decoy, u, e.password) == None)
    ensures var (lk, call, answer) := Section(p, users, verify, decoy, d.lk, CallOf(d, e.id), e);
      var d' := DeskStep(p, u, d, e);
      && lk == d'.lk && call == CallOf(d', e.id) && (answer == Some(BadCredentials) <==> Fails(u, d, e))
      && forall id: nat | id != e.id :: CallOf(d', id) == CallOf(d, id)
  {
  }

  lemma OwnStepMirrors(p: Policy, users: map<string, UserRecord>, verify: Verifier, decoy: string,
                       g: Gate, u: string, d: Desk, e: Event)
    requires Mirrors(g, u, d) && e.user == u && (e.Check? ==> Verdict(users, verify, decoy, u, e.password) == None)
    ensures Mirrors(GateStep(p, users, verify, decoy, g, e), u, DeskStep(p, u, d, e))
  {
    var g', d' := GateStep(p, users, verify, decoy, g, e), DeskStep(p, u, d, e);
    assert MirrorsCall(g, u, d, e.id);
    SectionIsDesk(p, users, verify, decoy, u, d, e);
    forall id: nat ensures MirrorsCall(g', u, d', id) {
      assert MirrorsCall(g, u, d, id);
      assert CallOf(d', id) == if id == e.id then CallOf(d', e.id) else CallOf(d, id);
    }
  }

  lemma GateStepMirrors(p: Policy, users: map<string, UserRecord>, verify: Verifier, decoy: string,
                        g: Gate, u: string, d: Desk, e: Event)
    requires Mirrors(g, u, d)
    requires e.Check? && e.user == u ==> Verdict(users, verify, decoy, u, e.password) == None
    ensures Mirrors(GateStep(p, users, verify, decoy, g, e), u, DeskStep(p, u, d, e))
  {
    if e.user == u {
      OwnStepMirrors(p, users, verify, decoy, g, u, d, e);
    } else {
      forall id: nat ensures MirrorsCall(GateStep(p, users, verify, decoy, g, e), u, d, id) {
        assert MirrorsCall(g, u, d, id);
      }
    }
  }

  lemma GateStepAnswers(p: Policy, users: map<string, UserRecord>, verify: Verifier, decoy: string,
                        g: Gate, u: string, d: Desk, e: Event)
    requires Mirrors(g, u, d)
    requires e.Check? && e.user == u ==> Verdict(users, verify, decoy, u, e.password) == None
    ensures BadFor(GateStep(p, users, verify, decoy, g, e).answers, u)
         == BadFor(g.answers, u) + if Fails(u, d, e) then 1 else 0
  {
    var key := (e.user, e.id);
    var answer := Section(p, users, verify, decoy, Get(g.lockouts, e.user), Get(g.pending, key), e).2;
    if e.user == u {
      assert MirrorsCall(g, u, d, e.id);
      SectionIsDesk(p, users, verify, decoy, u, d, e);
    }
    if answer.Some? { BadForAppend(g.answers, (e.user, e.id, answer.value), u); }
  }

  /** In every interleaving of calls on any accounts in which no attempt on u verifies, the
      account's record is the desk's, and its wrong answers are those counted. */
  lemma {:induction false} GateMirrors(p: Policy, users: map<string, UserRecord>, verify: Verifier, decoy: string,
                                       u: string, es: seq<Event>)
    requires NeverVerifies(users, verify, u, es)
    ensures var g := GateAfter(p, users, verify, decoy, es);
      Mirrors(g, u, DeskAfter(p, u, IDLE, es)) && BadFor(g.answers, u) == Answered(p, u, IDLE, es)
    decreases |es|
  {
    if es == [] {
      forall id: nat ensures MirrorsCall(OPEN_GATE, u, IDLE, id) { }
    } else {
      var n := |es| - 1;
      GateMirrors(p, users, verify, decoy, u, es[..n]);
      var g, d := GateAfter(p, users, verify, decoy, es[..n]), DeskAfter(p, u, IDLE, es[..n]);
      GateStepMirrors(p, users, verify, decoy, g, u, d, es[n]);
      GateStepAnswers(p, users, verify, decoy, g, u, d, es[n]);
    }
  }

  // ------------------------------------------------------------ calls in time

  // What a call does: it reads the clock, and then takes the lock twice.
  datatype Move = Clock(user: string, id: nat, now: nat) | Take(section: Event)

  // The desk, and the calls that have read the clock and not yet taken the lock.
  datatype Room = Room(desk: Desk, waiting: map<nat, nat>)

  const EMPTY := Room(IDLE, map[])

  function RoomStep(p: Policy, u: string, r: Room, m: Move): Room {
    match m
    case Clock(user, id, now) => if user == u then r.(waiting := r.waiting[id := now]) else r
    case Take(e) =>
      Room(DeskStep(p, u, r.desk, e), if e.user == u && e.Check? then r.waiting - {e.id} else r.waiting)
  }

  // A call is a new one when it reads the clock, and its check goes by what it read.
  predicate Timely(u: string, r: Room, m: Move) {
    match m
    case Clock(user, id, _) => user == u ==> id !in r.waiting && id !in r.desk.pending
    case Take(Check(user, id, _, now)) => user == u ==> id in r.waiting && r.waiting[id] == now
    case Take(Finish(_, _)) => true
  }

  predicate FailsNow(u: string, r: Room, m: Move) { m.Take? && Fails(u, r.desk, m.section) }

  function RoomAfter(p: Policy, u: string, r: Room, ms: seq<Move>): Room {
    if ms == [] then r else RoomStep(p, u, RoomAfter(p, u, r, ms[..|ms| - 1]), ms[|ms| - 1])
  }

  // The guesses answered, wrongly as they were.
  function Wrong(p: Policy, u: string, r: Room, ms: seq<Move>): nat {
    if ms == [] then 0 else
      var front := ms[..|ms| - 1];
      Wrong(p, u, r, front) + if FailsNow(u, RoomAfter(p, u, r, front), ms[|ms| - 1]) then 1 else 0
  }

  // The critical sections of a run, as the gate sees them.
  function Sections(ms: seq<Move>): seq<Event> {
    if ms == [] then [] else
      Sections(ms[..|ms| - 1]) + if ms[|ms| - 1].Take? then [ms[|ms| - 1].section] else []
  }

  lemma {:induction false} RoomIsDesk(p: Policy, u: string, r: Room, ms: seq<Move>)
    ensures RoomAfter(p, u, r, ms).desk == DeskAfter(p, u, r.desk, Sections(ms))
    ensures Wrong(p, u, r, ms) == Answered(p, u, r.desk, Sections(ms))
    decreases |ms|
  {
    if ms != [] {
      var n := |ms| - 1;
      RoomIsDesk(p, u, r, ms[..n]);
      if ms[n].Take? {
        var front := Sections(ms[..n]);
        assert (front + [ms[n].section])[..|front|] == front;
      } else {
        assert Sections(ms[..n]) + [] == Sections(ms[..n]);
      }
    }
  }

  // The calls in progress.
  function Progress(r: Room): nat { |r.waiting| + |r.desk.pending| }

  // At most k + 1 calls on the account in progress at any point, each going by the time it read.
  predicate AtMost(p: Policy, u: string, k: nat, r: Room, ms: seq<Move>) {
    && Progress(RoomAfter(p, u, r, ms)) <= k + 1
    && (ms == [] || (AtMost(p, u, k, r, ms[..|ms| - 1])
                     && Timely(u, RoomAfter(p, u, r, ms[..|ms| - 1]), ms[|ms| - 1])))
  }

  lemma {:induction false} Join(p: Policy, u: string, k: nat, r: Room, a: seq<Move>, b: seq<Move>)
    ensures RoomAfter(p, u, r, a + b) == RoomAfter(p, u, RoomAfter(p, u, r, a), b)
    ensures Wrong(p, u, r, a + b) == Wrong(p, u, r, a) + Wrong(p, u, RoomAfter(p, u, r, a), b)
    ensures AtMost(p, u, k, r, a + b) ==> AtMost(p, u, k, r, a) && AtMost(p, u, k, RoomAfter(p, u, r, a), b)
    decreases |b|
  {
    if b == [] {
      assert a + b == a;
    } else {
      assert (a + b)[..|a + b| - 1] == a + b[..|b| - 1];
      Join(p, u, k, r, a, b[..|b| - 1]);
    }
  }

  // --------------------------------------------------------- counting by time

  // The calls of these whose time is before t.
  ghost function Earlier(m: map<nat, nat>, t: nat): set<nat> { set id | id in m && m[id] < t }

  lemma OneMore(m: map<nat, nat>, id: nat, now: nat)
    requires id !in m
    ensures |m[id := now]| == |m| + 1
  {
    assert m[id := now].Keys == m.Keys + {id} && |m[id := now].Keys| == |m[id := now]| && |m.Keys| == |m|;
  }

  lemma OneIn(m: map<nat, nat>, id: nat, now: nat, t: nat)
    requires id !in m
    ensures |m[id := now]| == |m| + 1
    ensures |Earlier(m[id := now], t)| == |Earlier(m, t)| + if now < t then 1 else 0
  {
    OneMore(m, id, now);
    if now < t {
      assert Earlier(m[id := now], t) == Earlier(m, t) + {id};
    } else {
      assert Earlier(m[id := now], t) == Earlier(m, t);
    }
  }

  lemma OneLess(m: map<nat, nat>, id: nat)
    requires id in m
    ensures |m - {id}| == |m| - 1
  {
    assert (m - {id}).Keys == m.Keys - {id} && |(m - {id}).Keys| == |m - {id}| && |m.Keys| == |m|;
  }

  lemma OneOut(m: map<nat, nat>, id: nat, t: nat)
    requires id in m
    ensures |m - {id}| == |m| - 1
    ensures |Earlier(m - {id}, t)| == |Earlier(m, t)| - if m[id] < t then 1 else 0
  {
    OneLess(m, id);
    if m[id] < t {
      assert Earlier(m - {id}, t) == Earlier(m, t) - {id};
    } else {
      assert Earlier(m - {id}, t) == Earlier(m, t);
    }
  }

  lemma {:induction false} Subset<T>(a: set<T>, b: set<T>)
    requires a <= b
    ensures |a| <= |b|
    decreases a
  {
    if a != {} {
      var x :| x in a;
      Subset(a - {x}, b - {x});
    }
  }

  lemma EarlierIsPart(m: map<nat, nat>, t: nat)
    ensures |Earlier(m, t)| <= |m|
    ensures (forall id | id in m :: m[id] < t) ==> |Earlier(m, t)| == |m|
  {
    assert Earlier(m, t) <= m.Keys && |m.Keys| == |m|;
    Subset(Earlier(m, t), m.Keys);
    if forall id | id in m :: m[id] < t { assert Earlier(m, t) == m.Keys; }
  }

  // Calls in progress whose clock is from before t0.
  ghost function Old(r: Room, t0: nat): nat { |Earlier(r.waiting, t0)| + |Earlier(r.desk.pending, t0)| }

  ghost predicate Before(r: Room, t: nat) {
    && (forall id | id in r.waiting :: r.waiting[id] < t)
    && (forall id | id in r.desk.pending :: r.desk.pending[id] < t)
    && r.waiting.Keys !! r.desk.pending.Keys
  }

  lemma AllOld(r: Room, t: nat)
    ensures Old(r, t) <= Progress(r) && (Before(r, t) ==> Old(r, t) == Progress(r))
  {
    EarlierIsPart(r.waiting, t);
    EarlierIsPart(r.desk.pending, t);
  }

  // ----------------------------------------------------------- the potential

  // The account is locked for all of the span that starts at t0.
  predicate LockedThroughout(p: Policy, d: Desk, t0: nat) { d.lk.Some? && d.lk.value.lockedUntil >= t0 + Span(p) }

  // How many more failures the record allows before a lock.
  function Allowance(p: Policy, lk: Option<Lockout>, t0: nat): nat {
    if lk.None? || lk.value.failures == 0 then p.maxFailed
    else if lk.value.firstFailure >= t0 then
      if lk.value.failures < p.maxFailed then p.maxFailed - lk.value.failures else 1
    else if lk.value.failures >= p.maxFailed then p.maxFailed
    else 2 * p.maxFailed - 1 - lk.value.failures
  }

  function Base(p: Policy, k: nat, d: Desk, t0: nat): nat {
    if LockedThroughout(p, d, t0) then |d.pending| else Allowance(p, d.lk, t0) + k
  }

  function Times(n: nat, c: nat): nat { if n == 0 then 0 else Times(n - 1, c) + c }

  // An old call may undo a lock when it fails, which is worth as much again.
  function Worth(p: Policy, k: nat): nat { Burst(p) + k + 1 }

  ghost function Potential(p: Policy, k: nat, r: Room, t0: nat): nat {
    Base(p, k, r.desk, t0) + Times(Old(r, t0), Worth(p, k))
  }

  lemma {:induction false} TimesIsProduct(n: nat, c: nat)
    ensures Times(n, c) == n * c
  {
    if n > 0 {
      TimesIsProduct(n - 1, c);
      assert (n - 1) * c + c == n * c;
    }
  }

  lemma AllowanceIsSmall(p: Policy, lk: Option<Lockout>, t0: nat)
    requires p.maxFailed >= 1
    ensures 1 <= Allowance(p, lk, t0) <= Burst(p)
  {
  }

  // A failure dated inside the span uses the allowance up, or locks for the rest of the span.
  lemma FailureCosts(p: Policy, lk: Option<Lockout>, now: nat, t0: nat)
    requires p.maxFailed >= 1 && t0 <= now < t0 + Span(p)
    ensures var l := FailUser(p, lk, now);
      || l.lockedUntil >= t0 + Span(p)
      || (Allowance(p, Some(l), t0) < Allowance(p, lk, t0) && (lk.Some? ==> l.lockedUntil == lk.value.lockedUntil))
    ensures lk.Some? && lk.value.lockedUntil >= t0 + Span(p) ==> FailUser(p, lk, now).lockedUntil >= t0 + Span(p)
  {
  }

  function Until(lk: Option<Lockout>): nat { if lk.Some? then lk.value.lockedUntil else 0 }

  lemma CheckCostsNothing(p: Policy, lk: Option<Lockout>, now: nat, t0: nat)
    requires p.maxFailed >= 1 && now < t0 + Span(p)
    ensures var (locked, lk') := CheckUser(p, lk, now);
      && Allowance(p, lk', t0) <= Allowance(p, lk, t0)
      && locked == (now < Until(lk)) && Until(lk') == Until(lk) && (locked ==> lk' == lk)
  {
  }

  predicate InSpan(p: Policy, u: string, m: Move, t0: nat) {
    m.Clock? && m.user == u ==> t0 <= m.now < t0 + Span(p)
  }

  lemma ClockPays(p: Policy, u: string, k: nat, r: Room, m: Move, t0: nat)
    requires m.Clock? && m.user == u && Timely(u, r, m) && InSpan(p, u, m, t0) && Before(r, t0 + Span(p))
    ensures var r' := RoomStep(p, u, r, m);
      && Before(r', t0 + Span(p)) && Progress(r') == Progress(r) + 1
      && Old(r', t0) == Old(r, t0) && Potential(p, k, r', t0) == Potential(p, k, r, t0)
  {
    OneIn(r.waiting, m.id, m.now, t0);
  }

  lemma CheckPays(p: Policy, u: string, k: nat, r: Room, e: Event, t0: nat)
    requires p.maxFailed >= 1 && e.Check? && e.user == u && Timely(u, r, Take(e)) && Before(r, t0 + Span(p))
    ensures var (r', locked) := (RoomStep(p, u, r, Take(e)), e.now < Until(r.desk.lk));
      && Before(r', t0 + Span(p)) && Progress(r') == Progress(r) - (if locked then 1 else 0)
      && Old(r', t0) == Old(r, t0) - (if locked && e.now < t0 then 1 else 0)
      && Potential(p, k, r', t0) <= Potential(p, k, r, t0)
      && Until(r'.desk.lk) == Until(r.desk.lk)
  {
    var r' := RoomStep(p, u, r, Take(e));
    assert r.waiting[e.id] == e.now && e.id !in r.desk.pending;
    CheckCostsNothing(p, r.desk.lk, e.now, t0);
    OneOut(r.waiting, e.id, t0);
    OneIn(r.desk.pending, e.id, e.now, t0);
    TimesMonotone(Old(r', t0), Old(r, t0), Worth(p, k));
  }

  lemma {:induction false} TimesMonotone(a: nat, b: nat, c: nat)
    requires a <= b
    ensures Times(a, c) <= Times(b, c)
    decreases b
  {
    if a < b { TimesMonotone(a, b - 1, c); }
  }

  // What a failure does to the base: an old one is worth as much again, a new one costs one.
  lemma FailurePays(p: Policy, k: nat, d: Desk, id: nat, t0: nat)
    requires p.maxFailed >= 1 && id in d.pending && d.pending[id] < t0 + Span(p) && |d.pending| <= k + 1
    ensures var d' := Desk(Some(FailUser(p, d.lk, d.pending[id])), d.pending - {id});
      1 + Base(p, k, d', t0) <= if d.pending[id] < t0 then Worth(p, k) else Base(p, k, d, t0)
  {
    var now := d.pending[id];
    OneLess(d.pending, id);
    AllowanceIsSmall(p, d.lk, t0);
    AllowanceIsSmall(p, Some(FailUser(p, d.lk, now)), t0);
    if now >= t0 { FailureCosts(p, d.lk, now, t0); }
  }

  lemma FinishPays(p: Policy, u: string, k: nat, r: Room, id: nat, t0: nat)
    requires p.maxFailed >= 1 && id in r.desk.pending && Progress(r) <= k + 1 && Before(r, t0 + Span(p))
    ensures var r' := RoomStep(p, u, r, Take(Finish(u, id)));
      && Before(r', t0 + Span(p)) && Progress(r') == Progress(r) - 1
      && Old(r', t0) == Old(r, t0) - (if r.desk.pending[id] < t0 then 1 else 0)
      && 1 + Potential(p, k, r', t0) <= Potential(p, k, r, t0)
  {
    OneOut(r.desk.pending, id, t0);
    FailurePays(p, k, r.desk, id, t0);
  }

  // What every move keeps, and that a failure costs one.
  lemma MovePays(p: Policy, u: string, k: nat, r: Room, m: Move, t0: nat)
    requires p.maxFailed >= 1 && Timely(u, r, m) && InSpan(p, u, m, t0) && Before(r, t0 + Span(p))
    requires Progress(r) <= k + 1
    ensures var r' := RoomStep(p, u, r, m);
      && Before(r', t0 + Span(p)) && Old(r', t0) <= Old(r, t0)
      && (if FailsNow(u, r, m) then 1 else 0) + Potential(p, k, r', t0) <= Potential(p, k, r, t0)
  {
    match m
    case Clock(user, _, _) => if user == u { ClockPays(p, u, k, r, m, t0); }
    case Take(e) =>
      if e.user == u && e.Check? {
        CheckPays(p, u, k, r, e, t0);
      } else if e.user == u && e.id in r.desk.pending {
        FinishPays(p, u, k, r, e.id, t0);
      }
  }

  predicate AllInSpan(p: Policy, u: string, ms: seq<Move>, t0: nat) {
    forall i | 0 <= i < |ms| :: InSpan(p, u, ms[i], t0)
  }

  lemma {:induction false} RunPays(p: Policy, u: string, k: nat, r: Room, ms: seq<Move>, t0: nat)
    requires p.maxFailed >= 1 && AtMost(p, u, k, r, ms) && Before(r, t0 + Span(p)) && AllInSpan(p, u, ms, t0)
    ensures var r' := RoomAfter(p, u, r, ms);
      Before(r', t0 + Span(p)) && Wrong(p, u, r, ms) + Potential(p, k, r', t0) <= Potential(p, k, r, t0)
    decreases |ms|
  {
    if ms != [] {
      var n := |ms| - 1;
      RunPays(p, u, k, r, ms[..n], t0);
      assert InSpan(p, u, ms[n], t0);
      MovePays(p, u, k, RoomAfter(p, u, r, ms[..n]), ms[n], t0);
    }
  }

  lemma PotentialIsSmall(p: Policy, k: nat, r: Room, t0: nat)
    requires p.maxFailed >= 1 && Progress(r) <= k + 1
    ensures Potential(p, k, r, t0) <= Burst(p) + k + Times(Old(r, t0), Worth(p, k))
  {
    AllowanceIsSmall(p, r.desk.lk, t0);
  }

  lemma AtMostFirst(p: Policy, u: string, k: nat, r: Room, ms: seq<Move>)
    requires AtMost(p, u, k, r, ms)
    ensures Progress(r) <= k + 1
  {
    Join(p, u, k, r, [], ms);
    assert [] + ms == ms;
  }

  /** With at most k + 1 calls on an account in progress at a time, all of which read the clock
      within one span of min(window, duration), at most Burst + k wrong guesses are answered,
      and Burst + k + 1 more for each call still in progress from before the span. */
  lemma OverlappingGuessesInOneSpan(p: Policy, u: string, k: nat, r: Room, ms: seq<Move>, t0: nat)
    requires p.maxFailed >= 1 && AtMost(p, u, k, r, ms) && Before(r, t0 + Span(p)) && AllInSpan(p, u, ms, t0)
    ensures Wrong(p, u, r, ms) <= Burst(p) + k + Old(r, t0) * (Burst(p) + k + 1)
  {
    RunPays(p, u, k, r, ms, t0);
    AtMostFirst(p, u, k, r, ms);
    PotentialIsSmall(p, k, r, t0);
    TimesIsProduct(Old(r, t0), Worth(p, k));
  }

  // ------------------------------------------------------------- longer runs

  // The calls in progress that are not on the way to being refused: those past their check,
  // and those whose clock is not before the end of the lock.
  ghost function Live(r: Room): int { Progress(r) - |Earlier(r.waiting, Until(r.desk.lk))| }

  // What a span can still add to the wrong guesses and the live calls together.  While all
  // k + 1 calls are old nothing new can start, so the first of them to leave is worth nothing.
  ghost function Ahead(p: Policy, k: nat, r: Room, t0: nat): int {
    if Old(r, t0) <= k then Potential(p, k, r, t0) - Live(r) else PerSpan(p, k)
  }

  // Burst + k, and as much again and one more for each of k old calls.
  function PerSpan(p: Policy, k: nat): nat { Burst(p) + k + Times(k, Worth(p, k)) }

  lemma PerSpanIs(p: Policy, k: nat)
    ensures PerSpan(p, k) == Burst(p) + k + k * (Burst(p) + k + 1)
    ensures PerSpan(p, 0) == Burst(p)
  {
    TimesIsProduct(k, Worth(p, k));
  }

  lemma AheadIsSmall(p: Policy, k: nat, r: Room, t0: nat)
    requires p.maxFailed >= 1 && Progress(r) <= k + 1
    ensures Live(r) + Ahead(p, k, r, t0) <= PerSpan(p, k) + if Old(r, t0) <= k then 0 else Live(r)
  {
    PotentialIsSmall(p, k, r, t0);
    if Old(r, t0) <= k { TimesMonotone(Old(r, t0), k, Worth(p, k)); }
  }

  lemma LiveIsSome(p: Policy, k: nat, r: Room, t0: nat)
    requires p.maxFailed >= 1 && Progress(r) <= k + 1 && Before(r, t0 + Span(p))
    ensures |r.desk.pending| <= Live(r) <= Potential(p, k, r, t0) && 0 <= Ahead(p, k, r, t0) <= PerSpan(p, k)
  {
    EarlierIsPart(r.waiting, Until(r.desk.lk));
    AllowanceIsSmall(p, r.desk.lk, t0);
    PotentialIsSmall(p, k, r, t0);
    if LockedThroughout(p, r.desk, t0) { assert forall id | id in r.waiting :: r.waiting[id] < Until(r.desk.lk); }
    AheadIsSmall(p, k, r, t0);
  }

  // While all k + 1 calls are old: a check.
  lemma FullCheck(p: Policy, u: string, k: nat, r: Room, e: Event, t0: nat)
    requires p.maxFailed >= 1 && e.Check? && e.user == u && Timely(u, r, Take(e)) && Before(r, t0 + Span(p))
    requires Old(r, t0) == Progress(r) == k + 1
    ensures var r' := RoomStep(p, u, r, Take(e));
      Live(r') + Ahead(p, k, r', t0) <= Live(r) + Ahead(p, k, r, t0)
  {
    var r' := RoomStep(p, u, r, Take(e));
    AllBefore(r, t0, e.id);
    CheckPays(p, u, k, r, e, t0);
    OneOut(r.waiting, e.id, Until(r.desk.lk));
    AheadIsSmall(p, k, r', t0);
    EarlierIsPart(r.waiting, Until(r.desk.lk));
  }

  // If as many are old as there are, all are.
  lemma AllBefore(r: Room, t0: nat, id: nat)
    requires Old(r, t0) == Progress(r)
    ensures id in r.waiting ==> r.waiting[id] < t0
    ensures id in r.desk.pending ==> r.desk.pending[id] < t0
  {
    EarlierIsPart(r.waiting, t0);
    EarlierIsPart(r.desk.pending, t0);
    if id in r.waiting && r.waiting[id] >= t0 { Fewer(r.waiting, t0, id); }
    if id in r.desk.pending && r.desk.pending[id] >= t0 { Fewer(r.desk.pending, t0, id); }
  }

  lemma Fewer(m: map<nat, nat>, t: nat, id: nat)
    requires id in m && m[id] >= t
    ensures |Earlier(m, t)| < |m|
  {
    Subset(Earlier(m, t), m.Keys - {id});
    assert |m.Keys - {id}| == |m.Keys| - 1 && |m.Keys| == |m|;
  }

  // And the end of a call.
  lemma FullFinish(p: Policy, u: string, k: nat, r: Room, id: nat, t0: nat)
    requires p.maxFailed >= 1 && id in r.desk.pending && Before(r, t0 + Span(p))
    requires Old(r, t0) == Progress(r) == k + 1
    ensures var r' := RoomStep(p, u, r, Take(Finish(u, id)));
      1 + Live(r') + Ahead(p, k, r', t0) <= Live(r) + Ahead(p, k, r, t0)
  {
    AllBefore(r, t0, id);
    FinishPays(p, u, k, r, id, t0);
    AheadIsSmall(p, k, RoomStep(p, u, r, Take(Finish(u, id))), t0);
    assert Live(r) >= 1 by { LiveIsSome(p, k, r, t0); OneLess(r.desk.pending, id); }
  }

  lemma FullMove(p: Policy, u: string, k: nat, r: Room, m: Move, t0: nat)
    requires p.maxFailed >= 1 && Timely(u, r, m) && InSpan(p, u, m, t0) && Before(r, t0 + Span(p))
    requires Old(r, t0) > k && Progress(r) <= k + 1 && Progress(RoomStep(p, u, r, m)) <= k + 1
    ensures var r' := RoomStep(p, u, r, m);
      (if FailsNow(u, r, m) then 1 else 0) + Live(r') + Ahead(p, k, r', t0) <= Live(r) + Ahead(p, k, r, t0)
  {
    AllOld(r, t0);
    match m
    case Clock(user, _, _) => if user == u { ClockPays(p, u, k, r, m, t0); }
    case Take(e) =>
      if e.user == u && e.Check? {
        FullCheck(p, u, k, r, e, t0);
      } else if e.user == u && e.id in r.desk.pending {
        FullFinish(p, u, k, r, e.id, t0);
      }
  }

  lemma MoveCounts(p: Policy, u: string, k: nat, r: Room, m: Move, t0: nat)
    requires p.maxFailed >= 1 && Timely(u, r, m) && InSpan(p, u, m, t0) && Before(r, t0 + Span(p))
    requires Progress(r) <= k + 1 && Progress(RoomStep(p, u, r, m)) <= k + 1
    ensures var r' := RoomStep(p, u, r, m);
      (if FailsNow(u, r, m) then 1 else 0) + Live(r') + Ahead(p, k, r', t0) <= Live(r) + Ahead(p, k, r, t0)
  {
    if Old(r, t0) <= k { MovePays(p, u, k, r, m, t0); } else { FullMove(p, u, k, r, m, t0); }
  }

  lemma {:induction false} RunCounts(p: Policy, u: string, k: nat, r: Room, ms: seq<Move>, t0: nat)
    requires p.maxFailed >= 1 && AtMost(p, u, k, r, ms) && Before(r, t0 + Span(p)) && AllInSpan(p, u, ms, t0)
    ensures var r' := RoomAfter(p, u, r, ms);
      Wrong(p, u, r, ms) + Live(r') + Ahead(p, k, r', t0) <= Live(r) + Ahead(p, k, r, t0)
    decreases |ms|
  {
    if ms != [] {
      var n := |ms| - 1;
      RunCounts(p, u, k, r, ms[..n], t0);
      RunPays(p, u, k, r, ms[..n], t0);
      assert InSpan(p, u, ms[n], t0);
      MoveCounts(p, u, k, RoomAfter(p, u, r, ms[..n]), ms[n], t0);
    }
  }

  lemma OneSpan(p: Policy, u: string, k: nat, r: Room, ms: seq<Move>, t0: nat)
    requires p.maxFailed >= 1 && AtMost(p, u, k, r, ms) && Before(r, t0) && AllInSpan(p, u, ms, t0)
    ensures var r' := RoomAfter(p, u, r, ms);
      Before(r', t0 + Span(p)) && Wrong(p, u, r, ms) + Live(r') <= Live(r) + PerSpan(p, k)
  {
    RunPays(p, u, k, r, ms, t0);
    RunCounts(p, u, k, r, ms, t0);
    AtMostFirst(p, u, k, r, ms);
    LiveIsSome(p, k, r, t0);
    LiveIsSome(p, k, RoomAfter(p, u, r, ms), t0);
  }

  // The calls on u read the clock at these times, in this order.
  ghost predicate InOrder(u: string, ms: seq<Move>, lo: nat, hi: nat) {
    && (forall i | 0 <= i < |ms| && ms[i].Clock? && ms[i].user == u :: lo <= ms[i].now <= hi)
    && (forall i, j | 0 <= i < j < |ms| && ms[i].Clock? && ms[i].user == u && ms[j].Clock? && ms[j].user == u
          :: ms[i].now <= ms[j].now)
  }

  // Where the clock reaches t.
  lemma CutAt(u: string, ms: seq<Move>, lo: nat, hi: nat, t: nat) returns (k: nat)
    requires InOrder(u, ms, lo, hi)
    ensures k <= |ms|
    ensures forall i | 0 <= i < k && ms[i].Clock? && ms[i].user == u :: ms[i].now < t
    ensures forall i | k <= i < |ms| && ms[i].Clock? && ms[i].user == u :: ms[i].now >= t
  {
    k := 0;
    while k < |ms| && !(ms[k].Clock? && ms[k].user == u && ms[k].now >= t)
      invariant k <= |ms|
      invariant forall i | 0 <= i < k && ms[i].Clock? && ms[i].user == u :: ms[i].now < t
    {
      k := k + 1;
    }
  }

  lemma LaterInOrder(u: string, ms: seq<Move>, n: nat, lo: nat, hi: nat, t: nat)
    requires InOrder(u, ms, lo, hi) && n <= |ms|
    requires forall i | n <= i < |ms| && ms[i].Clock? && ms[i].user == u :: ms[i].now >= t
    ensures InOrder(u, ms[n..], t, hi)
  {
    var b := ms[n..];
    forall i | 0 <= i < |b| && b[i].Clock? && b[i].user == u ensures t <= b[i].now <= hi {
      assert b[i] == ms[n + i];
    }
    forall i, j | 0 <= i < j < |b| && b[i].Clock? && b[i].user == u && b[j].Clock? && b[j].user == u
      ensures b[i].now <= b[j].now
    {
      assert b[i] == ms[n + i] && b[j] == ms[n + j];
    }
  }

  // The first span, the room after it, and the moves that are left.
  lemma FirstSpan(p: Policy, u: string, k: nat, r: Room, ms: seq<Move>, t0: nat, hi: nat)
    returns (mid: Room, rest: seq<Move>)
    requires p.maxFailed >= 1 && AtMost(p, u, k, r, ms) && Before(r, t0) && InOrder(u, ms, t0, hi)
    ensures Before(mid, t0 + Span(p)) && AtMost(p, u, k, mid, rest) && InOrder(u, rest, t0 + Span(p), hi)
    ensures RoomAfter(p, u, r, ms) == RoomAfter(p, u, mid, rest)
    ensures Wrong(p, u, r, ms) + Live(mid) <= Live(r) + PerSpan(p, k) + Wrong(p, u, mid, rest)
    ensures hi < t0 + Span(p) ==> rest == []
  {
    var first;
    first, rest := CutSpan(p, u, ms, t0, hi);
    mid := RoomAfter(p, u, r, first);
    Join(p, u, k, r, first, rest);
    OneSpan(p, u, k, r, first, t0);
  }

  lemma CutSpan(p: Policy, u: string, ms: seq<Move>, t0: nat, hi: nat) returns (first: seq<Move>, rest: seq<Move>)
    requires InOrder(u, ms, t0, hi)
    ensures ms == first + rest && AllInSpan(p, u, first, t0) && InOrder(u, rest, t0 + Span(p), hi)
    ensures hi < t0 + Span(p) ==> rest == []
  {
    var n := |ms|;
    if hi >= t0 + Span(p) { n := CutAt(u, ms, t0, hi, t0 + Span(p)); }
    first, rest := ms[..n], ms[n..];
    forall i | 0 <= i < n ensures InSpan(p, u, first[i], t0) { assert first[i] == ms[i]; }
    LaterInOrder(u, ms, n, t0, hi, t0 + Span(p));
  }

  lemma {:induction false} RunOfSpans(p: Policy, u: string, k: nat, r: Room, ms: seq<Move>,
                                      t0: nat, hi: nat, spans: nat)
    requires p.maxFailed >= 1 && AtMost(p, u, k, r, ms) && Before(r, t0)
    requires InOrder(u, ms, t0, hi) && hi < t0 + Times(spans + 1, Span(p))
    ensures Wrong(p, u, r, ms) + Live(RoomAfter(p, u, r, ms)) <= Live(r) + Times(spans + 1, PerSpan(p, k))
    decreases spans
  {
    var mid, rest := FirstSpan(p, u, k, r, ms, t0, hi);
    if spans > 0 { RunOfSpans(p, u, k, mid, rest, t0 + Span(p), hi, spans - 1); }
  }

  lemma SpansHold(length: nat, m: nat, c: nat)
    requires m > 0
    ensures length < Times(length / m + 1, m) && Times(length / m + 1, c) == c * (length / m + 1)
  {
    TimesIsProduct(length / m + 1, m);
    TimesIsProduct(length / m + 1, c);
    assert (length / m + 1) * m == length / m * m + m;
  }

  /** Over a run of any length the rate is bounded: with at most k + 1 calls on the account
      in progress at a time, in whatever order they take the lock, at most PerSpan wrong
      guesses are answered per span begun, besides those in progress at the start. */
  lemma OverlappingGuessesInARun(p: Policy, u: string, k: nat, r: Room, ms: seq<Move>, t0: nat, length: nat)
    requires p.maxFailed >= 1 && Span(p) > 0 && AtMost(p, u, k, r, ms) && Before(r, t0)
    requires InOrder(u, ms, t0, t0 + length)
    ensures Wrong(p, u, r, ms) <= Progress(r) + PerSpan(p, k) * (length / Span(p) + 1)
  {
    var end := RoomAfter(p, u, r, ms);
    SpansHold(length, Span(p), PerSpan(p, k));
    RunOfSpans(p, u, k, r, ms, t0, t0 + length, length / Span(p));
    EarlierIsPart(end.waiting, Until(end.desk.lk));
  }

  /** The same of the server itself, whatever other accounts' calls come between: the wrong
      answers an account gives while at most k + 1 calls on it are in progress. */
  lemma WrongAnswersInARun(p: Policy, users: map<string, UserRecord>, verify: Verifier, decoy: string,
                           u: string, k: nat, ms: seq<Move>, t0: nat, length: nat)
    requires p.maxFailed >= 1 && Span(p) > 0 && NeverVerifies(users, verify, u, Sections(ms))
    requires AtMost(p, u, k, EMPTY, ms) && InOrder(u, ms, t0, t0 + length)
    ensures BadFor(GateAfter(p, users, verify, decoy, Sections(ms)).answers, u)
         <= PerSpan(p, k) * (length / Span(p) + 1)
  {
    GateMirrors(p, users, verify, decoy, u, Sections(ms));
    RoomIsDesk(p, u, EMPTY, ms);
    OverlappingGuessesInARun(p, u, k, EMPTY, ms, t0, length);
  }

  /** So calls that do not overlap, in whatever order they come, are answered wrongly at most
      Burst times per span begun. */
  lemma WrongAnswersOneAtATime(p: Policy, users: map<string, UserRecord>, verify: Verifier, decoy: string, u: string,
                               ms: seq<Move>, t0: nat, length: nat)
    requires p.maxFailed >= 1 && Span(p) > 0 && NeverVerifies(users, verify, u, Sections(ms))
    requires AtMost(p, u, 0, EMPTY, ms) && InOrder(u, ms, t0, t0 + length)
    ensures BadFor(GateAfter(p, users, verify, decoy, Sections(ms)).answers, u) <= Burst(p) * (length / Span(p) + 1)
  {
    WrongAnswersInARun(p, users, verify, decoy, u, 0, ms, t0, length);
    PerSpanIs(p, 0);
  }
}
