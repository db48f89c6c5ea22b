/**
 Password checks with per-account lockout (security/SecurityManager.cpp).
 Argon2 verification is a predicate on password and stored hash; the clock is a
 parameter of each call.
 */
module Security {
  import opened Util
  import opened RightsMask

  datatype Policy = Policy(maxFailed: nat, window: nat, duration: nat)

  // The clock counts from an epoch that is in the past.
  datatype Lockout = Lockout(failures: nat, firstFailure: nat, lockedUntil: nat)

  datatype UserRecord = UserRecord(hash: string, rights: Rights)

  datatype Outcome = Granted(rights: Rights) | BadCredentials | LockedOut

  type Verifier = (string, string) -> bool

  // ---------------------------------------------------- one account's record

  // isLocked: the answer, and the record with a stale failure count dropped.
  function CheckUser(p: Policy, lk: Option<Lockout>, now: nat): (bool, Option<Lockout>) {
    match lk
    case None => (false, None)
    case Some(l) =>
      if l.lockedUntil > now then (true, lk)
      else if now - l.firstFailure > p.window then (false, Some(l.(failures := 0)))
      else (false, lk)
  }

  // recordFailure: a new window when none is open, one more failure, a lock at the limit.
  function FailUser(p: Policy, lk: Option<Lockout>, now: nat): Lockout {
    var l := if lk.Some? then lk.value else Lockout(0, 0, 0);
    var open := if l.failures == 0 || now - l.firstFailure > p.window
                then l.(firstFailure := now, failures := 0) else l;
    var counted := open.(failures := open.failures + 1);
    if counted.failures >= p.maxFailed then counted.(lockedUntil := now + p.duration) else counted
  }

  // A whole call on its own: what it answers, and the record it leaves.
  function TryUser(p: Policy, lk: Option<Lockout>, now: nat, ok: Option<Rights>): (Outcome, Option<Lockout>) {
    var (locked, lk') := CheckUser(p, lk, now);
    if locked then (LockedOut, lk')
    else match ok
         case Some(rights) => (Granted(rights), None)
         case None => (BadCredentials, Some(FailUser(p, lk', now)))
  }

  // ------------------------------------------------------- the guessing rate

  // Guesses that fail, at the given times, one call after another.
  function Failures(p: Policy, lk: Option<Lockout>, times: seq<nat>): nat
    decreases |times|
  {
    if times == [] then 0 else
      var (o, lk') := TryUser(p, lk, times[0], None);
      (if o.BadCredentials? then 1 else 0) + Failures(p, lk', times[1..])
  }

  function RecordAfter(p: Policy, lk: Option<Lockout>, times: seq<nat>): Option<Lockout>
    decreases |times|
  {
    if times == [] then lk else RecordAfter(p, TryUser(p, lk, times[0], None).1, times[1..])
  }

  function Span(p: Policy): nat { if p.window < p.duration then p.window else p.duration }

  // How many guesses can be answered before both limits bite.
  function Burst(p: Policy): nat { if p.maxFailed <= 1 then 1 else 2 * p.maxFailed - 2 }

  ghost predicate Inside(times: seq<nat>, lo: nat, hi: nat) {
    forall i | 0 <= i < |times| :: lo <= times[i] < hi
  }

  lemma {:induction false} LockedAnswersNothing(p: Policy, l: Lockout, times: seq<nat>, t0: nat)
    requires Inside(times, t0, l.lockedUntil)
    ensures Failures(p, Some(l), times) == 0
  {
    if times != [] { LockedAnswersNothing(p, l, times[1..], t0); }
  }

  // A window opened inside the interval cannot expire inside it.
  lemma {:induction false} FreshWindow(p: Policy, l: Lockout, times: seq<nat>, t0: nat)
    requires p.maxFailed >= 1 && Inside(times, t0, t0 + Span(p))
    requires l.failures >= 1 && l.firstFailure >= t0
    ensures Failures(p, Some(l), times) <= if l.failures < p.maxFailed then p.maxFailed - l.failures else 1
    decreases |times|
  {
    if times != [] {
      var (o, lk) := TryUser(p, Some(l), times[0], None);
      if o.BadCredentials? && lk.value.failures >= p.maxFailed {
        LockedAnswersNothing(p, lk.value, times[1..], t0);
      } else {
        FreshWindow(p, lk.value, times[1..], t0);
      }
    }
  }

  lemma {:induction false} AnyWindow(p: Policy, lk: Option<Lockout>, times: seq<nat>, t0: nat)
    requires p.maxFailed >= 1 && Inside(times, t0, t0 + Span(p))
    ensures Failures(p, lk, times) <=
      if lk.None? || lk.value.failures == 0 || lk.value.failures >= p.maxFailed then p.maxFailed
      else 2 * p.maxFailed - 1 - lk.value.failures
    decreases |times|
  {
    if times != [] {
      var (o, lk') := TryUser(p, lk, times[0], None);
      if o.LockedOut? {
        AnyWindow(p, lk', times[1..], t0);
      } else if lk'.value.failures >= p.maxFailed {
        LockedAnswersNothing(p, lk'.value, times[1..], t0);
      } else if lk'.value.firstFailure == times[0] {
        FreshWindow(p, lk'.value, times[1..], t0);
      } else {
        AnyWindow(p, lk', times[1..], t0);
      }
    }
  }

  /** Whatever came before, fewer than min(window, duration) time units see at most
      2 * max - 2 failed guesses (one, when max is 1). */
  lemma GuessesInOneSpan(p: Policy, lk: Option<Lockout>, times: seq<nat>, t0: nat)
    requires p.maxFailed >= 1 && Inside(times, t0, t0 + Span(p))
    ensures Failures(p, lk, times) <= Burst(p)
  {
    AnyWindow(p, lk, times, t0);
  }

  /** So any 2 * max - 1 failed guesses with no success between them (two, when max
      is 1) span at least min(window, duration).  The record at the start is arbitrary:
      a stretch may begin and end with a failed guess, wherever in a run that is. */
  lemma ManyGuessesTakeTime(p: Policy, lk: Option<Lockout>, times: seq<nat>)
    requires p.maxFailed >= 1 && Sorted(times)
    requires Failures(p, lk, times) > Burst(p)
    ensures times != [] && times[|times| - 1] - times[0] >= Span(p)
  {
    if times != [] && times[|times| - 1] - times[0] < Span(p) {
      GuessesInOneSpan(p, lk, times, times[0]);
    }
  }

  lemma {:induction false} FailuresSplit(p: Policy, lk: Option<Lockout>, a: seq<nat>, b: seq<nat>)
    ensures Failures(p, lk, a + b) == Failures(p, lk, a) + Failures(p, RecordAfter(p, lk, a), b)
    decreases |a|
  {
    if a == [] {
      assert a + b == b;
    } else {
      assert (a + b)[1..] == a[1..] + b;
      FailuresSplit(p, TryUser(p, lk, a[0], None).1, a[1..], b);
    }
  }

  ghost predicate Sorted(times: seq<nat>) {
    forall i, j | 0 <= i < j < |times| :: times[i] <= times[j]
  }

  lemma {:induction false} SplitAt(times: seq<nat>, t: nat) returns (k: nat)
    requires Sorted(times)
    ensures k <= |times| && Inside(times[..k], 0, t) && forall i | k <= i < |times| :: times[i] >= t
  {
    k := 0;
    while k < |times| && times[k] < t
      invariant k <= |times| && Inside(times[..k], 0, t)
    {
      assert times[..k + 1] == times[..k] + [times[k]];
      k := k + 1;
    }
  }

  /** The sustained rate: over any run of length `length`, however its attempts are
      spaced, at most Burst failed guesses per span begun. */
  lemma {:induction false} GuessesInARun(p: Policy, lk: Option<Lockout>, times: seq<nat>, t0: nat, length: nat)
    requires p.maxFailed >= 1 && Span(p) > 0
    requires Sorted(times) && Inside(times, t0, t0 + length + 1)
    ensures Failures(p, lk, times) <= Burst(p) * (length / Span(p) + 1)
    decreases length
  {
    var m := Span(p);
    var k := SplitAt(times, t0 + m);
    var a, b := times[..k], times[k..];
    assert times == a + b;
    FailuresSplit(p, lk, a, b);
    forall i | 0 <= i < |a| ensures t0 <= a[i] < t0 + m { assert a[i] == times[i]; }
    GuessesInOneSpan(p, lk, a, t0);
    if length < m {
      assert b == [];
      DivUnique(length, m, 0, length);
    } else {
      forall i | 0 <= i < |b| ensures t0 + m <= b[i] < t0 + m + (length - m) + 1 { assert b[i] == times[k + i]; }
      GuessesInARun(p, RecordAfter(p, lk, a), b, t0 + m, length - m);
      OneMoreSpan(Burst(p), length, m);
    }
  }

  lemma OneMoreSpan(burst: nat, length: nat, m: nat)
    requires 0 < m <= length
    ensures burst * ((length - m) / m + 1) + burst == burst * (length / m + 1)
  {
    var q := (length - m) / m;
    DivUnique(length, m, q + 1, (length - m) % m);
    assert burst * (q + 1) + burst == burst * (q + 2);
  }

  function Repeat(n: nat, t: nat): seq<nat> { if n == 0 then [] else [t] + Repeat(n - 1, t) }

  lemma {:induction false} RepeatCounts(p: Policy, l: Lockout, n: nat, t: nat)
    requires l.failures >= 1 && l.failures + n <= p.maxFailed
    requires l.lockedUntil <= t && l.firstFailure <= t <= l.firstFailure + p.window
    ensures Failures(p, Some(l), Repeat(n, t)) == n
    ensures var r := RecordAfter(p, Some(l), Repeat(n, t));
      r.Some? && r.value.failures == l.failures + n && r.value.firstFailure == l.firstFailure
      && (l.failures + n < p.maxFailed ==> r.value.lockedUntil == l.lockedUntil)
    decreases n
  {
    if n > 0 {
      var l' := TryUser(p, Some(l), t, None).1.value;
      if n > 1 { RepeatCounts(p, l', n - 1, t); }
      assert Repeat(n, t)[1..] == Repeat(n - 1, t);
    }
  }

  /** The bound is reached: after one failure, 2 * max - 2 more are answered
      within two consecutive instants around the end of its window. */
  lemma BurstIsReached(p: Policy) returns (times: seq<nat>)
    requires p.maxFailed >= 2
    ensures Inside(times, p.window, p.window + 2) && Sorted(times)
    ensures Failures(p, RecordAfter(p, None, [0]), times) == Burst(p)
  {
    var first := Lockout(1, 0, 0);
    assert RecordAfter(p, None, [0]) == Some(first) by { OneFailure(p); }
    var w := p.window;
    var before, after := Repeat(p.maxFailed - 2, w), Repeat(p.maxFailed, w + 1);
    RepeatsAre(p.maxFailed - 2, w);
    RepeatsAre(p.maxFailed, w + 1);
    times := before + after;
    RepeatCounts(p, first, p.maxFailed - 2, w);
    FailuresSplit(p, Some(first), before, after);
    ReopenedWindow(p, RecordAfter(p, Some(first), before).value, w + 1);
  }

  lemma OneFailure(p: Policy)
    requires p.maxFailed >= 2
    ensures RecordAfter(p, None, [0]) == Some(Lockout(1, 0, 0))
  {
    assert [0][1..] == [];
  }

  lemma ReopenedWindow(p: Policy, l: Lockout, t: nat)
    requires p.maxFailed >= 2 && l.lockedUntil <= t && t - l.firstFailure > p.window
    ensures Failures(p, Some(l), Repeat(p.maxFailed, t)) == p.maxFailed
  {
    var reopened := TryUser(p, Some(l), t, None).1.value;
    assert reopened == Lockout(1, t, l.lockedUntil);
    RepeatCounts(p, reopened, p.maxFailed - 1, t);
    assert Repeat(p.maxFailed, t)[1..] == Repeat(p.maxFailed - 1, t);
  }

  lemma {:induction false} RepeatsAre(n: nat, t: nat)
    ensures |Repeat(n, t)| == n && forall i | 0 <= i < n :: Repeat(n, t)[i] == t
  {
    if n > 0 { RepeatsAre(n - 1, t); }
  }

  // ------------------------------------------------- calls that may overlap

  type Lockouts = map<string, Lockout>

  function Get<K, V>(m: map<K, V>, key: K): Option<V> {
    if key in m then Some(m[key]) else None
  }

  function Put<K, V>(m: map<K, V>, key: K, v: Option<V>): map<K, V> {
    match v
    case None => m - {key}
    case Some(x) => m[key := x]
  }

  // What the unlocked verification between the two critical sections will find.
  function Verdict(users: map<string, UserRecord>, verify: Verifier, decoy: string, user: string, password: string)
    : Option<Rights>
  {
    var passOk := verify(password, if user in users then users[user].hash else decoy);
    if user in users && passOk then Some(users[user].rights) else None
  }

  // A call past its first critical section: its `now`, and what verification finds.
  datatype Pending = Pending(now: nat, ok: Option<Rights>)

  // Calls are told apart by the account they name and a number.
  datatype Event =
    | Check(user: string, id: nat, password: string, now: nat)
    | Finish(user: string, id: nat)

  datatype Gate = Gate(lockouts: Lockouts, pending: map<(string, nat), Pending>, answers: seq<(string, nat, Outcome)>)

  const OPEN_GATE := Gate(map[], map[], [])

  // One critical section: the account's record, the call in question, and an answer if it gives one.
  function Section(p: Policy, users: map<string, UserRecord>, verify: Verifier, decoy: string,
                   lk: Option<Lockout>, call: Option<Pending>, e: Event)
    : (Option<Lockout>, Option<Pending>, Option<Outcome>)
  {
    match e
    case Check(user, _, password, now) =>
      if call.Some? then (lk, call, None) else
        var (locked, lk') := CheckUser(p, lk, now);
        if locked then (lk', None, Some(LockedOut))
        else (lk', Some(Pending(now, Verdict(users, verify, decoy, user, password))), None)
    case Finish(_, _) =>
      match call
      case None => (lk, None, None)
      case Some(c) =>
        match c.ok
        case Some(rights) => (None, None, Some(Granted(rights)))
        case None => (Some(FailUser(p, lk, c.now)), None, Some(BadCredentials))
  }

  function GateStep(p: Policy, users: map<string, UserRecord>, verify: Verifier, decoy: string,
                    g: Gate, e: Event): Gate
  {
    var key := (e.user, e.id);
    var (lk, call, answer) := Section(p, users, verify, decoy, Get(g.lockouts, e.user), Get(g.pending, key), e);
    Gate(Put(g.lockouts, e.user, lk), Put(g.pending, key, call),
         if answer.Some? then g.answers + [(e.user, e.id, answer.value)] else g.answers)
  }

  function GateAfter(p: Policy, users: map<string, UserRecord>, verify: Verifier, decoy: string, es: seq<Event>): Gate {
    if es == [] then OPEN_GATE else
      GateStep(p, users, verify, decoy, GateAfter(p, users, verify, decoy, es[..|es| - 1]), es[|es| - 1])
  }

  /** A call that no other comes between is TryUser on the record of its account. */
  lemma CallOnItsOwn(p: Policy, users: map<string, UserRecord>, verify: Verifier, decoy: string, g: Gate,
                     user: string, id: nat, password: string, now: nat)
    requires (user, id) !in g.pending
    ensures var g1 := GateStep(p, users, verify, decoy, g, Check(user, id, password, now));
      var g2 := GateStep(p, users, verify, decoy, g1, Finish(user, id));
      var (o, lk) := TryUser(p, Get(g.lockouts, user), now, Verdict(users, verify, decoy, user, password));
      g2 == Gate(Put(g.lockouts, user, lk), g.pending, g.answers + [(user, id, o)])
  {
    var g1 := GateStep(p, users, verify, decoy, g, Check(user, id, password, now));
    assert Put(Put(g.pending, (user, id), Get(g1.pending, (user, id))), (user, id), None) == g.pending;
  }

  // No attempt on the account would verify, were the account there.
  ghost predicate NeverVerifies(users: map<string, UserRecord>, verify: Verifier, user: string, es: seq<Event>) {
    user in users ==>
      forall i | 0 <= i < |es| && es[i].Check? && es[i].user == user :: !verify(es[i].password, users[user].hash)
  }

  /** Guessing does not tell whether an account exists: two user tables that agree
      everywhere else give the same answers, in every interleaving of calls in
      which no attempt on the one account verifies. */
  lemma {:induction false} ExistenceDoesNotShow(p: Policy,
                                                users1: map<string, UserRecord>, users2: map<string, UserRecord>,
                                                verify: Verifier, decoy: string, u: string, es: seq<Event>)
    requires users1 - {u} == users2 - {u}
    requires NeverVerifies(users1, verify, u, es) && NeverVerifies(users2, verify, u, es)
    ensures GateAfter(p, users1, verify, decoy, es) == GateAfter(p, users2, verify, decoy, es)
  {
    if es != [] {
      var front, e := es[..|es| - 1], es[|es| - 1];
      ExistenceDoesNotShow(p, users1, users2, verify, decoy, u, front);
      if e.Check? && e.user != u {
        assert e.user in users1 <==> e.user in users1 - {u};
        assert e.user in users2 <==> e.user in users2 - {u};
        assert e.user in users1 ==> users1[e.user] == (users1 - {u})[e.user] == users2[e.user];
      }
    }
  }

  // What concerns one account.
  function Answers(a: seq<(string, nat, Outcome)>, u: string): seq<(string, nat, Outcome)> {
    if a == [] then [] else
      Answers(a[..|a| - 1], u) + if a[|a| - 1].0 == u then [a[|a| - 1]] else []
  }

  ghost predicate SameFor(g: Gate, h: Gate, u: string) {
    && Get(g.lockouts, u) == Get(h.lockouts, u)
    && (forall id: nat :: Get(g.pending, (u, id)) == Get(h.pending, (u, id)))
    && Answers(g.answers, u) == Answers(h.answers, u)
  }

  lemma AnswersAppend(a: seq<(string, nat, Outcome)>, x: (string, nat, Outcome), u: string)
    ensures Answers(a + [x], u) == Answers(a, u) + if x.0 == u then [x] else []
  {
    assert (a + [x])[..|a|] == a;
  }

  lemma StepOfAnother(p: Policy, users: map<string, UserRecord>, verify: Verifier, decoy: string,
                      g: Gate, e: Event, u: string)
    requires e.user != u
    ensures SameFor(GateStep(p, users, verify, decoy, g, e), g, u)
  {
    var h := GateStep(p, users, verify, decoy, g, e);
    if h.answers != g.answers {
      AnswersAppend(g.answers, h.answers[|h.answers| - 1], u);
    }
  }

  lemma StepOfOwn(p: Policy, users: map<string, UserRecord>, verify: Verifier, decoy: string,
                  g: Gate, h: Gate, e: Event)
    requires SameFor(g, h, e.user)
    ensures SameFor(GateStep(p, users, verify, decoy, g, e), GateStep(p, users, verify, decoy, h, e), e.user)
  {
    var answer := Section(p, users, verify, decoy, Get(g.lockouts, e.user), Get(g.pending, (e.user, e.id)), e).2;
    if answer.Some? {
      AnswersAppend(g.answers, (e.user, e.id, answer.value), e.user);
      AnswersAppend(h.answers, (e.user, e.id, answer.value), e.user);
    }
  }

  function Naming(es: seq<Event>, u: string): seq<Event> {
    if es == [] then [] else
      Naming(es[..|es| - 1], u) + if es[|es| - 1].user == u then [es[|es| - 1]] else []
  }

  /** Attempts on one name never touch another: in every interleaving, an account's
      lockout state, its calls in progress and its answers are those of the run in
      which only the calls naming it took place. */
  lemma {:induction false} AccountsAreIndependent(p: Policy, users: map<string, UserRecord>, verify: Verifier,
                                                  decoy: string, es: seq<Event>, u: string)
    ensures SameFor(GateAfter(p, users, verify, decoy, es), GateAfter(p, users, verify, decoy, Naming(es, u)), u)
  {
    if es != [] {
      var front, e := es[..|es| - 1], es[|es| - 1];
      AccountsAreIndependent(p, users, verify, decoy, front, u);
      var g, h := GateAfter(p, users, verify, decoy, front), GateAfter(p, users, verify, decoy, Naming(front, u));
      if e.user == u {
        StepOfOwn(p, users, verify, decoy, g, h, e);
        assert Naming(es, u)[..|Naming(es, u)| - 1] == Naming(front, u);
      } else {
        StepOfAnother(p, users, verify, decoy, g, e, u);
        assert Naming(es, u) == Naming(front, u);
      }
    }
  }

  // ------------------------------------------------------------- the program

  class SecurityManager {
    const policy: Policy
    const verify: Verifier
    const decoyHash: string
    var users: map<string, UserRecord>
    var lockouts: Lockouts

    constructor (policy: Policy, verify: Verifier, decoyHash: string)
      ensures users == map[] && lockouts == map[]
      ensures this.policy == policy && this.verify == verify && this.decoyHash == decoyHash
    {
      this.policy, this.verify, this.decoyHash := policy, verify, decoyHash;
      users, lockouts := map[], map[];
    }

    method AddUser(name: string, record: UserRecord)
      modifies this`users
      ensures users == old(users)[name := record]
    {
      users := users[name := record];
    }

    method IsLocked(user: string, now: nat) returns (locked: bool)
      modifies this`lockouts
      ensures var (l, lk) := CheckUser(policy, Get(old(lockouts), user), now);
        locked == l && lockouts == Put(old(lockouts), user, lk)
    {
      if user !in lockouts {
        assert lockouts - {user} == lockouts;
        return false;
      }
      var lk := lockouts[user];
      assert lockouts[user := lk] == lockouts;
      if lk.lockedUntil > now { return true; }
      if now - lk.firstFailure > policy.window {
        lockouts := lockouts[user := lk.(failures := 0)];
      }
      return false;
    }

    method RecordFailure(user: string, now: nat)
      modifies this`lockouts
      ensures lockouts == old(lockouts)[user := FailUser(policy, Get(old(lockouts), user), now)]
    {
      var lk := if user in lockouts then lockouts[user] else Lockout(0, 0, 0);
      if lk.failures == 0 || now - lk.firstFailure > policy.window {
        lk := lk.(firstFailure := now);
        lk := lk.(failures := 0);
      }
      lk := lk.(failures := lk.failures + 1);
      if lk.failures >= policy.maxFailed {
        lk := lk.(lockedUntil := now + policy.duration);
      }
      lockouts := lockouts[user := lk];
    }

    method RecordSuccess(user: string)
      modifies this`lockouts
      ensures lockouts == Put(old(lockouts), user, None)
    {
      lockouts := lockouts - {user};
    }

    /** A call that no other overlaps: one TryUser on the account it names. */
    method Authenticate(user: string, password: string, now: nat) returns (o: Outcome)
      modifies this`lockouts
      ensures var found := Verdict(users, verify, decoyHash, user, password);
        var r := TryUser(policy, Get(old(lockouts), user), now, found);
        o == r.0 && lockouts == Put(old(lockouts), user, r.1)
    {
      var locked := IsLocked(user, now);
      if locked { return LockedOut; }
      var known := user in users;
      var hashToCheck := if known then users[user].hash else decoyHash;
      var rights := if known then users[user].rights else {};
      var passOk := verify(password, hashToCheck);
      if known && passOk {
        RecordSuccess(user);
        assert lockouts == old(lockouts) - {user};
        return Granted(rights);
      }
      RecordFailure(user, now);
      return BadCredentials;
    }
  }
}
