/**
 What locks an account and for how long (security/SecurityManager.cpp), told from the
 history of its calls alone: when they came and what they were answered.  Calls here come
 one after another, in the order of the clock.
 */
module LockHistory {
  import opened Util
  import opened RightsMask
  import opened Security

  // A call on the account: its time, and what its password would get.
  datatype Attempt = Attempt(now: nat, ok: Option<Rights>)

  function RecordOf(p: Policy, hs: seq<Attempt>): Option<Lockout> {
    if hs == [] then None else
      var a := hs[|hs| - 1];
      TryUser(p, RecordOf(p, hs[..|hs| - 1]), a.now, a.ok).1
  }

  // What a call after this history is answered.
  function Answer(p: Policy, hs: seq<Attempt>, a: Attempt): Outcome {
    TryUser(p, RecordOf(p, hs), a.now, a.ok).0
  }

  function AnswerAt(p: Policy, hs: seq<Attempt>, i: nat): Outcome
    requires i < |hs|
  {
    Answer(p, hs[..i], hs[i])
  }

  // The times of the wrong guesses answered since the last right one.
  function Misses(p: Policy, hs: seq<Attempt>): seq<nat> {
    if hs == [] then [] else
      match AnswerAt(p, hs, |hs| - 1)
      case Granted(_) => []
      case LockedOut => Misses(p, hs[..|hs| - 1])
      case BadCredentials => Misses(p, hs[..|hs| - 1]) + [hs[|hs| - 1].now]
  }

  // ------------------------------------------------------------------ windows

  // When the window of the last miss opened: a miss more than `window` after the opening of
  // the window before it opens one of its own.
  function Opening(p: Policy, ts: seq<nat>): nat
    requires ts != []
  {
    var last := ts[|ts| - 1];
    if |ts| == 1 then last else
      var o := Opening(p, ts[..|ts| - 1]);
      if last - o > p.window then last else o
  }

  // How many misses that window holds.
  function Count(p: Policy, ts: seq<nat>): (n: nat)
    requires ts != []
    ensures 1 <= n <= |ts|
  {
    if |ts| == 1 || ts[|ts| - 1] - Opening(p, ts[..|ts| - 1]) > p.window then 1 else Count(p, ts[..|ts| - 1]) + 1
  }

  // The i-th miss reaches the limit of its window.
  predicate Reaches(p: Policy, ts: seq<nat>, i: nat)
    requires i < |ts|
  {
    Count(p, ts[..i + 1]) >= p.maxFailed
  }

  // A miss that reached the limit is less than `duration` ago.
  ghost predicate Locked(p: Policy, ts: seq<nat>, now: nat) {
    exists i | 0 <= i < |ts| :: Reaches(p, ts, i) && now < ts[i] + p.duration
  }

  ghost predicate InOrder(hs: seq<Attempt>) {
    forall i, j | 0 <= i < j < |hs| :: hs[i].now <= hs[j].now
  }

  // -------------------------------------------------- the record tells as much

  // The end of the lock by the last miss that reached the limit.
  function LockEnd(p: Policy, ts: seq<nat>): nat {
    if ts == [] then 0
    else if Reaches(p, ts, |ts| - 1) then ts[|ts| - 1] + p.duration
    else LockEnd(p, ts[..|ts| - 1])
  }

  // The record an account has after these misses.
  function RecordFor(p: Policy, ts: seq<nat>): Option<Lockout> {
    if ts == [] then None else Some(Lockout(Count(p, ts), Opening(p, ts), LockEnd(p, ts)))
  }

  lemma MissRecorded(p: Policy, ts: seq<nat>, now: nat)
    ensures Some(FailUser(p, RecordFor(p, ts), now)) == RecordFor(p, ts + [now])
  {
    var all, n, l := ts + [now], |ts|, FailUser(p, RecordFor(p, ts), now);
    assert all[..|all| - 1] == ts && all[..n + 1] == all;
    assert l.firstFailure == Opening(p, all) && l.failures == Count(p, all);
    assert Reaches(p, all, n) == (l.failures >= p.maxFailed);
    assert l.lockedUntil == LockEnd(p, all);
  }

  lemma OpenCheckForgets(p: Policy, ts: seq<nat>, now: nat)
    ensures var (locked, lk) := CheckUser(p, RecordFor(p, ts), now);
      !locked ==> FailUser(p, lk, now) == FailUser(p, RecordFor(p, ts), now)
  {
  }

  lemma {:induction false} RecordIsOfMisses(p: Policy, hs: seq<Attempt>)
    ensures RecordOf(p, hs) == RecordFor(p, Misses(p, hs))
    decreases |hs|
  {
    if hs != [] {
      var front, a := hs[..|hs| - 1], hs[|hs| - 1];
      RecordIsOfMisses(p, front);
      OpenCheckForgets(p, Misses(p, front), a.now);
      MissRecorded(p, Misses(p, front), a.now);
    }
  }

  ghost predicate Sorted(ts: seq<nat>, end: nat) {
    (forall i, j | 0 <= i < j < |ts| :: ts[i] <= ts[j]) && forall i | 0 <= i < |ts| :: ts[i] <= end
  }

  lemma {:induction false} MissesInOrder(p: Policy, hs: seq<Attempt>, end: nat)
    requires InOrder(hs) && (hs != [] ==> hs[|hs| - 1].now <= end)
    ensures Sorted(Misses(p, hs), end)
    decreases |hs|
  {
    if hs != [] {
      var front := hs[..|hs| - 1];
      MissesInOrder(p, front, hs[|hs| - 1].now);
    }
  }

  lemma ReachesInFront(p: Policy, ts: seq<nat>, n: nat, i: nat)
    requires i < n <= |ts|
    ensures Reaches(p, ts[..n], i) == Reaches(p, ts, i)
  {
    assert ts[..n][..i + 1] == ts[..i + 1];
  }

  lemma LockedOneMore(p: Policy, ts: seq<nat>, now: nat)
    requires ts != []
    ensures var n := |ts| - 1;
      Locked(p, ts, now) <==> Locked(p, ts[..n], now) || (Reaches(p, ts, n) && now < ts[n] + p.duration)
  {
    var n := |ts| - 1;
    var front := ts[..n];
    if Locked(p, front, now) {
      var i :| 0 <= i < n && Reaches(p, front, i) && now < front[i] + p.duration;
      ReachesInFront(p, ts, n, i);
      assert Reaches(p, ts, i);
    }
    if Locked(p, ts, now) {
      var i :| 0 <= i < |ts| && Reaches(p, ts, i) && now < ts[i] + p.duration;
      if i < n {
        ReachesInFront(p, ts, n, i);
        assert Reaches(p, front, i) && front[i] == ts[i];
      }
    }
  }

  // A lock that is on ends no later than one that would begin with the last miss.
  lemma LockedByLast(p: Policy, ts: seq<nat>, end: nat, now: nat)
    requires ts != [] && Sorted(ts, end) && Locked(p, ts[..|ts| - 1], now)
    ensures now < ts[|ts| - 1] + p.duration
  {
  }

  lemma {:induction false} LockEndIsLatest(p: Policy, ts: seq<nat>, end: nat, now: nat)
    requires Sorted(ts, end)
    ensures now < LockEnd(p, ts) <==> Locked(p, ts, now)
    decreases |ts|
  {
    if ts != [] {
      LockEndIsLatest(p, ts[..|ts| - 1], end, now);
      LockedOneMore(p, ts, now);
      if Locked(p, ts[..|ts| - 1], now) { LockedByLast(p, ts, end, now); }
    }
  }

  // ------------------------------------------------------------------ results

  /** Exactly what a call is answered: locked out if and only if, since the last right
      password, some miss reached the limit of its window less than `duration` before;
      otherwise what its password deserves. */
  lemma AnsweredExactly(p: Policy, hs: seq<Attempt>, a: Attempt)
    requires InOrder(hs + [a])
    ensures Answer(p, hs, a) ==
      if Locked(p, Misses(p, hs), a.now) then LockedOut
      else if a.ok.Some? then Granted(a.ok.value) else BadCredentials
  {
    var all := hs + [a];
    assert InOrder(hs) && (hs != [] ==> hs[|hs| - 1].now <= a.now) by {
      forall i, j | 0 <= i < j < |hs| ensures hs[i].now <= hs[j].now { assert all[i].now <= all[j].now; }
      if hs != [] { assert all[|hs| - 1].now <= all[|hs|].now; }
    }
    RecordIsOfMisses(p, hs);
    MissesInOrder(p, hs, a.now);
    LockEndIsLatest(p, Misses(p, hs), a.now, a.now);
  }

  // Every miss is a wrong guess of the history.
  lemma {:induction false} MissIsAnswered(p: Policy, hs: seq<Attempt>, i: nat) returns (j: nat)
    requires i < |Misses(p, hs)|
    ensures j < |hs| && AnswerAt(p, hs, j) == BadCredentials && hs[j].now == Misses(p, hs)[i]
    decreases |hs|
  {
    var n := |hs| - 1;
    if AnswerAt(p, hs, n).BadCredentials? && i == |Misses(p, hs)| - 1 {
      j := n;
    } else {
      j := MissIsAnswered(p, hs[..n], i);
      assert hs[..n][..j] == hs[..j];
    }
  }

  /** A lock ends: whoever is locked out has had a wrong guess answered less than `duration`
      before.  So the right password is granted whenever none was. */
  lemma LocksEnd(p: Policy, hs: seq<Attempt>, a: Attempt)
    requires InOrder(hs + [a])
    ensures Answer(p, hs, a) == LockedOut ==>
      exists j | 0 <= j < |hs| :: AnswerAt(p, hs, j) == BadCredentials && a.now < hs[j].now + p.duration
    ensures a.ok.Some?
      && (forall j | 0 <= j < |hs| && AnswerAt(p, hs, j) == BadCredentials :: hs[j].now + p.duration <= a.now)
      ==> Answer(p, hs, a) == Granted(a.ok.value)
  {
    AnsweredExactly(p, hs, a);
    var ts := Misses(p, hs);
    if Locked(p, ts, a.now) {
      var i :| 0 <= i < |ts| && Reaches(p, ts, i) && a.now < ts[i] + p.duration;
      var j := MissIsAnswered(p, hs, i);
    }
  }

  lemma {:induction false} AllInOneWindow(p: Policy, ts: seq<nat>)
    requires ts != [] && forall i | 0 <= i < |ts| :: ts[i] - ts[0] <= p.window
    ensures Opening(p, ts) == ts[0] && Count(p, ts) == |ts|
    decreases |ts|
  {
    if |ts| > 1 { AllInOneWindow(p, ts[..|ts| - 1]); }
  }

  /** And it begins: once as many wrong guesses as the limit, on an account without any, have
      been answered within one window, every call before the last of them is `duration` old
      is locked out, right password or not. */
  lemma TheLimitLocks(p: Policy, hs: seq<Attempt>, a: Attempt)
    requires InOrder(hs + [a]) && |Misses(p, hs)| >= 1 && |Misses(p, hs)| >= p.maxFailed
    requires var ts := Misses(p, hs);
      && (forall i | 0 <= i < |ts| :: ts[i] - ts[0] <= p.window) && a.now < ts[|ts| - 1] + p.duration
    ensures Answer(p, hs, a) == LockedOut
  {
    var ts := Misses(p, hs);
    AllInOneWindow(p, ts);
    var n := |ts| - 1;
    assert ts[..n + 1] == ts;
    assert Reaches(p, ts, n);
    AnsweredExactly(p, hs, a);
  }

  /** A right password clears the account: whatever came before, the history starts anew. */
  lemma SuccessClears(p: Policy, hs: seq<Attempt>, a: Attempt, b: Attempt)
    requires InOrder(hs + [a] + [b]) && Answer(p, hs, a).Granted?
    ensures Misses(p, hs + [a]) == []
    ensures Answer(p, hs + [a], b) == if b.ok.Some? then Granted(b.ok.value) else BadCredentials
  {
    var all := hs + [a];
    assert all[..|hs|] == hs;
    AnsweredExactly(p, all, b);
  }

  // --------------------------------------------------- calls that may overlap

  // The i-th event is the check of this call, at this time.
  predicate ChecksAt(es: seq<Event>, i: nat, u: string, id: nat, now: nat)
    requires i < |es|
  {
    es[i].Check? && es[i].user == u && es[i].id == id && es[i].now == now
  }

  ghost predicate CheckedAt(es: seq<Event>, u: string, id: nat, now: nat) {
    exists i | 0 <= i < |es| :: ChecksAt(es, i, u, id, now)
  }

  // A call on the account that read the clock at t has been answered as wrong.
  ghost predicate WrongAt(g: Gate, es: seq<Event>, u: string, t: nat) {
    exists id: nat :: (u, id, BadCredentials) in g.answers && CheckedAt(es, u, id, t)
  }

  // Calls in progress go by the time of their check, and the lock is due to a wrong answer.
  ghost predicate Earned(p: Policy, g: Gate, es: seq<Event>, u: string) {
    && (forall id: nat | (u, id) in g.pending :: CheckedAt(es, u, id, g.pending[(u, id)].now))
    && (u in g.lockouts && g.lockouts[u].lockedUntil > 0 ==>
          exists t: nat :: WrongAt(g, es, u, t) && g.lockouts[u].lockedUntil == t + p.duration)
  }

  lemma CheckedLater(es: seq<Event>, e: Event, u: string, id: nat, now: nat)
    ensures CheckedAt(es, u, id, now) ==> CheckedAt(es + [e], u, id, now)
    ensures e.Check? && e.user == u && e.id == id && e.now == now ==> CheckedAt(es + [e], u, id, now)
  {
    var all := es + [e];
    if CheckedAt(es, u, id, now) {
      var i :| 0 <= i < |es| && ChecksAt(es, i, u, id, now);
      assert ChecksAt(all, i, u, id, now);
    }
    if e.Check? && e.user == u && e.id == id && e.now == now { assert ChecksAt(all, |es|, u, id, now); }
  }

  lemma WrongLater(g: Gate, g': Gate, es: seq<Event>, e: Event, u: string, t: nat)
    requires WrongAt(g, es, u, t) && forall x | x in g.answers :: x in g'.answers
    ensures WrongAt(g', es + [e], u, t)
  {
    var id: nat :| (u, id, BadCredentials) in g.answers && CheckedAt(es, u, id, t);
    CheckedLater(es, e, u, id, t);
  }

  lemma EarnedStep(p: Policy, users: map<string, UserRecord>, verify: Verifier, decoy: string,
                   g: Gate, es: seq<Event>, e: Event, u: string)
    requires Earned(p, g, es, u)
    ensures Earned(p, GateStep(p, users, verify, decoy, g, e), es + [e], u)
  {
    var g', all := GateStep(p, users, verify, decoy, g, e), es + [e];
    forall id: nat | (u, id) in g'.pending ensures CheckedAt(all, u, id, g'.pending[(u, id)].now) {
      CheckedLater(es, e, u, id, g'.pending[(u, id)].now);
    }
    if u in g'.lockouts && g'.lockouts[u].lockedUntil > 0 {
      if u in g.lockouts && g'.lockouts[u].lockedUntil == g.lockouts[u].lockedUntil {
        var t: nat :| WrongAt(g, es, u, t) && g.lockouts[u].lockedUntil == t + p.duration;
        WrongLater(g, g', es, e, u, t);
      } else {
        FailureEarns(p, users, verify, decoy, g, es, e, u);
      }
    }
  }

  lemma FailureEarns(p: Policy, users: map<string, UserRecord>, verify: Verifier, decoy: string,
                     g: Gate, es: seq<Event>, e: Event, u: string)
    requires Earned(p, g, es, u)
    requires var g' := GateStep(p, users, verify, decoy, g, e);
      u in g'.lockouts && g'.lockouts[u].lockedUntil > 0
      && (u !in g.lockouts || g'.lockouts[u].lockedUntil != g.lockouts[u].lockedUntil)
    ensures var g' := GateStep(p, users, verify, decoy, g, e);
      exists t: nat :: WrongAt(g', es + [e], u, t) && g'.lockouts[u].lockedUntil == t + p.duration
  {
    var g' := GateStep(p, users, verify, decoy, g, e);
    assert e.Finish? && e.user == u && (u, e.id) in g.pending;
    var t := g.pending[(u, e.id)].now;
    CheckedLater(es, e, u, e.id, t);
    assert g'.answers == g.answers + [(u, e.id, BadCredentials)];
    assert (u, e.id, BadCredentials) in g'.answers;
    assert WrongAt(g', es + [e], u, t);
  }

  lemma {:induction false} LocksAreEarned(p: Policy, users: map<string, UserRecord>, verify: Verifier, decoy: string,
                                          es: seq<Event>, u: string)
    ensures Earned(p, GateAfter(p, users, verify, decoy, es), es, u)
    decreases |es|
  {
    if es != [] {
      var n := |es| - 1;
      LocksAreEarned(p, users, verify, decoy, es[..n], u);
      EarnedStep(p, users, verify, decoy, GateAfter(p, users, verify, decoy, es[..n]), es[..n], es[n], u);
      assert es[..n] + [es[n]] == es;
    }
  }

  /** In every interleaving of calls on any accounts: whoever is locked out, a wrong password
      for the account was answered to a call that had begun less than `duration` before. */
  lemma OnlyWrongAnswersLock(p: Policy, users: map<string, UserRecord>, verify: Verifier, decoy: string,
                             es: seq<Event>, e: Event)
    requires e.Check?
    requires var g := GateAfter(p, users, verify, decoy, es);
      GateStep(p, users, verify, decoy, g, e).answers == g.answers + [(e.user, e.id, LockedOut)]
    ensures exists t: nat :: WrongAt(GateAfter(p, users, verify, decoy, es), es, e.user, t) && e.now < t + p.duration
  {
    LocksAreEarned(p, users, verify, decoy, es, e.user);
    var g := GateAfter(p, users, verify, decoy, es);
    var answer := Section(p, users, verify, decoy, Get(g.lockouts, e.user), Get(g.pending, (e.user, e.id)), e).2;
    assert answer == Some(LockedOut) by {
      var a := g.answers + [(e.user, e.id, LockedOut)];
      assert a[|a| - 1] == (e.user, e.id, LockedOut) && |a| == |g.answers| + 1;
    }
    assert e.user in g.lockouts && g.lockouts[e.user].lockedUntil > e.now;
  }
}
