/**
 The cap on concurrent sessions (server/ServerApp.cpp, run and the guard in session):
 one accept thread tests and counts with a single atomic increment while any number of
 session threads give their slots back. Every atomic step is a transition of its own, so
 a run is one interleaving of the threads.
 */
module Accept {
  import opened Util

  // Where the accept loop stands: between connections, or after its increment,
  // holding a slot for a connection with the count it read.
  datatype Phase = Waiting | Counted(conn: nat, seen: u32)

  // Connections are numbered as they arrive; `turned` are those the address filter closed,
  // `live` the running sessions, `released` who gave a slot back, in order.
  datatype Server = Server(active: u32, phase: Phase, arrivals: nat, turned: set<nat>, live: set<nat>,
                           released: seq<nat>)

  datatype Event =
    | Arrive(allowed: bool)   // accept returns; the filter; the increment
    | Decide(wrapped: bool)   // the cap test on the count read, then the wrapping of the socket
    | Leave(conn: nat)        // a session ends and its guard decrements

  const IDLE := Server(0, Waiting, 0, {}, {}, [])

  // The counter is an unsigned 32-bit atomic: both operations wrap.
  function Up(n: u32): u32 { if n == 0xFFFF_FFFF then 0 else n + 1 }
  function Down(n: u32): u32 { if n == 0 then 0xFFFF_FFFF else n - 1 }

  function Release(s: Server, conn: nat): Server { s.(active := Down(s.active), released := s.released + [conn]) }

  // None when the thread that would take this step is not at it.
  function Step(max: u32, s: Server, e: Event): Option<Server> {
    match e
    case Arrive(allowed) =>
      if s.phase.Counted? then None
      else if !allowed then Some(s.(arrivals := s.arrivals + 1, turned := s.turned + {s.arrivals}))
      else Some(s.(active := Up(s.active), phase := Counted(s.arrivals, s.active), arrivals := s.arrivals + 1))
    case Decide(wrapped) =>
      if s.phase.Waiting? then None
      else if s.phase.seen >= max then Some(Release(s, s.phase.conn).(phase := Waiting))
      else if !wrapped then Some(Release(s, s.phase.conn).(phase := Waiting))
      else Some(s.(phase := Waiting, live := s.live + {s.phase.conn}))
    case Leave(conn) =>
      if conn !in s.live then None else Some(Release(s, conn).(live := s.live - {conn}))
  }

  // The state after an interleaving, when it is one.
  function Run(max: u32, es: seq<Event>): Option<Server> {
    if es == [] then Some(IDLE) else
      var s :- Run(max, es[..|es| - 1]);
      Step(max, s, es[|es| - 1])
  }

  function Held(s: Server): set<nat> { if s.phase.Counted? then {s.phase.conn} else {} }

  // The slots in use: the running sessions, and the one the accept loop may hold.
  function Slots(s: Server): nat { |s.live| + if s.phase.Counted? then 1 else 0 }

  // What the counter reads when n slots are in use: with the largest cap it can wrap to zero.
  ghost predicate Reads(active: u32, n: nat) { if n == 0x1_0000_0000 then active == 0 else active == n }

  ghost predicate Inv(max: u32, s: Server) {
    && Reads(s.active, Slots(s))
    && |s.live| <= max
    && (s.phase.Counted? && s.phase.seen < max ==> |s.live| < max)
    && forall c :: Accounted(s, c)
  }

  // A slot taken is held, in use, or given back once; a connection without one gives none back.
  ghost predicate Accounted(s: Server, c: nat) {
    && (c in s.live || c in s.turned ==> c < s.arrivals)
    && !(c in s.live && c in s.turned)
    && (c in Held(s) ==> c !in s.live && c !in s.turned && c < s.arrivals)
    && multiset(s.released)[c] == Owed(s, c)
  }

  function Owed(s: Server, c: nat): nat {
    if c < s.arrivals && c !in s.turned && c !in Held(s) && c !in s.live then 1 else 0
  }

  lemma StepCounts(max: u32, s: Server, e: Event)
    requires Inv(max, s) && Step(max, s, e).Some?
    ensures var s' := Step(max, s, e).value;
      && Reads(s'.active, Slots(s')) && |s'.live| <= max
      && (s'.phase.Counted? && s'.phase.seen < max ==> |s'.live| < max)
  {
    match e
    case Decide(_) => assert Accounted(s, s.phase.conn);
    case _ =>
  }

  lemma StepAccounts(max: u32, s: Server, e: Event, c: nat)
    requires Inv(max, s) && Step(max, s, e).Some?
    ensures Accounted(Step(max, s, e).value, c)
  {
    assert Accounted(s, c) && Accounted(s, s.arrivals);
    match e
    case Leave(conn) => assert Accounted(s, conn);
    case _ =>
  }

  lemma StepKeepsInv(max: u32, s: Server, e: Event)
    requires Inv(max, s) && Step(max, s, e).Some?
    ensures Inv(max, Step(max, s, e).value)
  {
    StepCounts(max, s, e);
    forall c: nat ensures Accounted(Step(max, s, e).value, c) { StepAccounts(max, s, e, c); }
  }

  lemma {:induction false} RunKeepsInv(max: u32, es: seq<Event>)
    requires Run(max, es).Some?
    ensures Inv(max, Run(max, es).value)
    decreases |es|
  {
    if es == [] {
      forall c ensures Accounted(IDLE, c) { }
    } else {
      RunKeepsInv(max, es[..|es| - 1]);
      StepKeepsInv(max, Run(max, es[..|es| - 1]).value, es[|es| - 1]);
    }
  }

  /** In every interleaving no more sessions run than the cap allows, and the counter is
      the running sessions plus the one slot the accept loop may hold; it is back at zero
      when nothing runs. */
  lemma TheCapHolds(max: u32, es: seq<Event>)
    requires Run(max, es).Some?
    ensures var s := Run(max, es).value;
      && |s.live| <= max
      && Reads(s.active, Slots(s))
      && (s.phase.Waiting? && s.live == {} ==> s.active == 0)
  {
    RunKeepsInv(max, es);
  }

  /** Whatever becomes of a connection — turned away by the filter, refused at the cap, not
      wrapped, served and gone — the slot it took, if it took one, is given back exactly once. */
  lemma SlotsAreReleasedOnce(max: u32, es: seq<Event>, c: nat)
    requires Run(max, es).Some?
    ensures var s := Run(max, es).value;
      multiset(s.released)[c] ==
      (if c < s.arrivals && c !in s.turned && !(s.phase.Counted? && s.phase.conn == c) && c !in s.live then 1 else 0)
  {
    RunKeepsInv(max, es);
    assert Accounted(Run(max, es).value, c);
  }

  // ------------------------------------------------------------------ refusals

  // Between the increment and the decision only sessions that leave can interfere.
  lemma {:induction false} TheCountReadStays(max: u32, es: seq<Event>, xs: seq<Event>)
    requires Run(max, es).Some? && Run(max, es).value.phase.Waiting?
    requires forall x | x in xs :: x.Leave?
    requires Run(max, es + [Arrive(true)] + xs).Some?
    ensures var (s, s') := (Run(max, es).value, Run(max, es + [Arrive(true)] + xs).value);
      s'.phase == Counted(s.arrivals, s.active) && s'.live <= s.live && s'.arrivals == s.arrivals + 1
    decreases |xs|
  {
    var all := es + [Arrive(true)] + xs;
    if xs == [] {
      assert all[..|all| - 1] == es;
    } else {
      assert all[..|all| - 1] == es + [Arrive(true)] + xs[..|xs| - 1];
      TheCountReadStays(max, es, xs[..|xs| - 1]);
      assert xs[|xs| - 1].Leave? && all[|all| - 1] == xs[|xs| - 1];
    }
  }

  /** No connection is refused by mistake and none slips in: a connection the filter lets in
      gets a session exactly when its socket can be wrapped and fewer sessions than the cap were
      running as it was counted, however many leave before the decision. */
  lemma AdmittedExactlyBelowTheCap(max: u32, es: seq<Event>, xs: seq<Event>, wrapped: bool)
    requires Run(max, es).Some? && Run(max, es).value.phase.Waiting?
    requires forall x | x in xs :: x.Leave?
    requires Run(max, es + [Arrive(true)] + xs).Some?
    ensures var s := Run(max, es).value;
      var end := Run(max, es + [Arrive(true)] + xs + [Decide(wrapped)]);
      && end.Some? && end.value.phase.Waiting?
      && (s.arrivals in end.value.live <==> wrapped && |s.live| < max)
  {
    var mid := es + [Arrive(true)] + xs;
    TheCountReadStays(max, es, xs);
    RunKeepsInv(max, es);
    assert Run(max, es).value.active == |Run(max, es).value.live|;
    assert Accounted(Run(max, es).value, Run(max, es).value.arrivals);
    assert (mid + [Decide(wrapped)])[..|mid|] == mid;
  }

  /** A connection the filter turns away takes no slot, and a connection that has been decided
      on, or turned away, without a session never gets one. */
  lemma TurnedAwayForGood(max: u32, es: seq<Event>, xs: seq<Event>)
    requires Run(max, es).Some? && Run(max, es).value.phase.Waiting?
    requires Run(max, es + [Arrive(false)] + xs).Some?
    ensures var (s, end) := (Run(max, es).value, Run(max, es + [Arrive(false)] + xs).value);
      s.arrivals !in end.live && s.arrivals !in end.released
  {
    var s, all := Run(max, es).value, es + [Arrive(false)];
    assert all[..|all| - 1] == es;
    RunPrefix(max, all, xs);
    RunKeepsInv(max, es);
    assert Accounted(s, s.arrivals);
    NeverAgain(max, all, xs, s.arrivals);
    RunKeepsInv(max, all + xs);
    assert Accounted(Run(max, all + xs).value, s.arrivals);
  }

  lemma {:induction false} RunPrefix(max: u32, es: seq<Event>, xs: seq<Event>)
    requires Run(max, es + xs).Some?
    ensures Run(max, es).Some?
    decreases |xs|
  {
    if xs == [] {
      assert es + xs == es;
    } else {
      assert (es + xs)[..|es + xs| - 1] == es + xs[..|xs| - 1];
      RunPrefix(max, es, xs[..|xs| - 1]);
    }
  }

  lemma {:induction false} NeverAgain(max: u32, es: seq<Event>, xs: seq<Event>, c: nat)
    requires Run(max, es).Some? && Run(max, es + xs).Some?
    requires var s := Run(max, es).value; c < s.arrivals && c !in s.live && c !in Held(s)
    ensures var (s, end) := (Run(max, es).value, Run(max, es + xs).value);
      c < end.arrivals && c !in end.live && c !in Held(end) && (c in s.turned ==> c in end.turned)
    decreases |xs|
  {
    if xs == [] {
      assert es + xs == es;
    } else {
      assert (es + xs)[..|es + xs| - 1] == es + xs[..|xs| - 1];
      NeverAgain(max, es, xs[..|xs| - 1], c);
    }
  }
}
