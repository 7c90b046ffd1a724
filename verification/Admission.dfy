/** Admission, accounting and drain (cmd/mailscript/proxy.go serveSMTP, handleSMTPConnection and
    handleDATA's counters; lifecycle.go drain; grpc_server.go ProcessMessage's counters).

    `Proxy` holds the shared fields; each method is one critical section. The second half is the
    transition system of any number of listeners, sessions and calls, whose steps are exactly
    those critical sections in any order. */
module Admission {
  type Conn = nat
  type ThreadId = nat

  // The variables behind the two locks.
  datatype Shared = Shared(
    total: int, active: int, processed: int, accepted: int, rejected: int,    // stats lock
    draining: bool, conns: set<Conn>, waiting: int)                           // connection lock, WaitGroup

  const FRESH := Shared(0, 0, 0, 0, 0, false, {}, 0)

  // ----------------------------------------------------- the critical sections

  predicate Full(sh: Shared, max: int) {
    max > 0 && sh.active >= max
  }

  function Admit(sh: Shared, max: int): Shared {
    if Full(sh, max) then sh.(total := sh.total + 1)
    else sh.(total := sh.total + 1, active := sh.active + 1)
  }

  function Leave(sh: Shared): Shared {
    sh.(active := sh.active - 1)
  }

  function Register(sh: Shared, c: Conn): Shared {
    if sh.draining then sh else sh.(conns := sh.conns + {c}, waiting := sh.waiting + 1)
  }

  function Count(sh: Shared, delivering: bool): Shared {
    sh.(processed := sh.processed + 1, rejected := sh.rejected + if delivering then 0 else 1)
  }

  function Settle(sh: Shared, ok: bool): Shared {
    if ok then sh.(accepted := sh.accepted + 1) else sh.(rejected := sh.rejected + 1)
  }

  function Delist(sh: Shared, c: Conn): Shared {
    sh.(conns := sh.conns - {c})
  }

  function EndSession(sh: Shared): Shared {
    sh.(waiting := sh.waiting - 1)
  }

  function SetDraining(sh: Shared): Shared {
    sh.(draining := true)
  }

  class Proxy {
    const maxConnections: int
    var total: int
    var active: int
    var processed: int
    var accepted: int
    var rejected: int
    var draining: bool
    var conns: set<Conn>
    var sessions: int

    constructor (max: int)
      ensures maxConnections == max && View() == FRESH
    {
      maxConnections := max;
      total, active, processed, accepted, rejected := 0, 0, 0, 0, 0;
      draining, conns, sessions := false, {}, 0;
    }

    function View(): Shared
      reads this
    {
      Shared(total, active, processed, accepted, rejected, draining, conns, sessions)
    }

    method AdmitConnection() returns (admitted: bool)
      modifies this`total, this`active
      ensures admitted == !Full(old(View()), maxConnections) && View() == Admit(old(View()), maxConnections)
    {
      total := total + 1;
      if maxConnections > 0 && active >= maxConnections { return false; }
      active := active + 1;
      admitted := true;
    }

    method RegisterSession(c: Conn) returns (registered: bool)
      modifies this`conns, this`sessions
      ensures registered == !old(draining) && View() == Register(old(View()), c)
    {
      if draining { return false; }
      conns := conns + {c};
      sessions := sessions + 1;
      registered := true;
    }

    method ReleaseConnection()
      modifies this`active
      ensures View() == Leave(old(View()))
    {
      active := active - 1;
    }

    method CountMessage(acceptedByPolicy: bool)
      modifies this`processed, this`rejected
      ensures View() == Count(old(View()), acceptedByPolicy)
    {
      processed := processed + 1;
      if !acceptedByPolicy {
        rejected := rejected + 1;
      }
    }

    method CountDelivery(ok: bool)
      modifies this`accepted, this`rejected
      ensures View() == Settle(old(View()), ok)
    {
      if ok { accepted := accepted + 1; } else { rejected := rejected + 1; }
    }

    // ProcessMessage settles a call's message under one lock.
    method CountCall(ok: bool)
      modifies this`processed, this`accepted, this`rejected
      ensures View() == Settle(Count(old(View()), true), ok)
    {
      processed := processed + 1;
      if ok { accepted := accepted + 1; } else { rejected := rejected + 1; }
    }

    method ForgetConnection(c: Conn)
      modifies this`conns
      ensures View() == Delist(old(View()), c)
    {
      conns := conns - {c};
    }

    method SessionDone()
      modifies this`sessions
      ensures View() == EndSession(old(View()))
    {
      sessions := sessions - 1;
    }

    method StartDraining()
      modifies this`draining
      ensures View() == SetDraining(old(View()))
    {
      draining := true;
    }
  }

  // ------------------------------------------------------ the transition system

  datatype Listener =
    | Accepting
    | Admitted(conn: Conn)      // counted, not yet registered
    | TurningAway               // found the proxy draining, still counted
    | Stopped

  datatype Session =
    | Serving
    | Delivering                // a message is counted and its delivery is under way
    | Released                  // no longer counted
    | Forgotten                 // no longer in the connection map

  datatype Drain =
    | NotDraining
    | Marked                                          // draining is set
    | Waiting(sessionsDone: bool, callsDone: bool)    // both waits are running
    | Returned(deadline: bool)

  datatype State = State(
    sh: Shared,
    listeners: map<ThreadId, Listener>,
    sessions: map<Conn, Session>,
    calls: set<ThreadId>, callsClosed: bool,
    drain: Drain,
    turnedAway: int, released: int)                   // tallies, for the proof only

  datatype Step =
    | AcceptConn(l: ThreadId, c: Conn)
    | ListenerFails(l: ThreadId)
    | RegisterConn(l: ThreadId)
    | TurnAway(l: ThreadId)
    | Policy(c: Conn, relay: bool)
    | Delivered(c: Conn, ok: bool)
    | Finish(c: Conn)
    | Forget(c: Conn)
    | Done(c: Conn)
    | CallBegins(r: ThreadId)
    | CallCounts(r: ThreadId, ok: bool)
    | CallEnds(r: ThreadId)
    | MarkDraining
    | StartWaits
    | SessionsWaited
    | CallsWaited
    | DrainReturns
    | Deadline

  predicate Enabled(s: State, step: Step) {
    match step
    case AcceptConn(l, c) => l in s.listeners && s.listeners[l].Accepting? && NewConn(s, c)
    case ListenerFails(l) => l in s.listeners && s.listeners[l].Accepting?
    case RegisterConn(l) => l in s.listeners && s.listeners[l].Admitted?
    case TurnAway(l) => l in s.listeners && s.listeners[l].TurningAway?
    case Policy(c, _) => c in s.sessions && s.sessions[c].Serving?
    case Delivered(c, _) => c in s.sessions && s.sessions[c].Delivering?
    case Finish(c) => c in s.sessions && s.sessions[c].Serving?
    case Forget(c) => c in s.sessions && s.sessions[c].Released?
    case Done(c) => c in s.sessions && s.sessions[c].Forgotten?
    case CallBegins(r) => !s.callsClosed && r !in s.calls
    case CallCounts(r, _) => r in s.calls
    case CallEnds(r) => r in s.calls
    case MarkDraining => s.drain.NotDraining?
    case StartWaits => s.drain.Marked?
    case SessionsWaited => s.drain.Waiting? && s.sh.waiting == 0
    case CallsWaited => s.drain.Waiting? && s.calls == {}
    case DrainReturns => s.drain == Waiting(true, true)
    case Deadline => s.drain.Waiting?
  }

  // A connection the operating system has not handed out to anyone still using it.
  predicate NewConn(s: State, c: Conn) {
    c !in s.sessions && forall l | l in s.listeners :: s.listeners[l] != Admitted(c)
  }

  function Apply(s: State, max: int, step: Step): State
    requires Enabled(s, step)
  {
    match step
    case AcceptConn(l, c) =>
      if Full(s.sh, max) then s.(sh := Admit(s.sh, max), turnedAway := s.turnedAway + 1)
      else s.(sh := Admit(s.sh, max), listeners := s.listeners[l := Admitted(c)])
    case ListenerFails(l) => s.(listeners := s.listeners[l := Stopped])
    case RegisterConn(l) =>
      if s.sh.draining then s.(listeners := s.listeners[l := TurningAway])
      else s.(sh := Register(s.sh, s.listeners[l].conn), listeners := s.listeners[l := Accepting],
              sessions := s.sessions[s.listeners[l].conn := Serving])
    case TurnAway(l) => s.(sh := Leave(s.sh), listeners := s.listeners[l := Stopped], released := s.released + 1)
    case Policy(c, relay) =>
      s.(sh := Count(s.sh, relay), sessions := s.sessions[c := if relay then Delivering else Serving])
    case Delivered(c, ok) => s.(sh := Settle(s.sh, ok), sessions := s.sessions[c := Serving])
    case Finish(c) => s.(sh := Leave(s.sh), sessions := s.sessions[c := Released], released := s.released + 1)
    case Forget(c) => s.(sh := Delist(s.sh, c), sessions := s.sessions[c := Forgotten])
    case Done(c) => s.(sh := EndSession(s.sh), sessions := s.sessions - {c})
    case CallBegins(r) => s.(calls := s.calls + {r})
    case CallCounts(r, ok) => s.(sh := Settle(Count(s.sh, true), ok))
    case CallEnds(r) => s.(calls := s.calls - {r})
    case MarkDraining => s.(sh := SetDraining(s.sh), drain := Marked)
    case StartWaits => s.(callsClosed := true, drain := Waiting(false, false))
    case SessionsWaited => s.(drain := s.drain.(sessionsDone := true))
    case CallsWaited => s.(drain := s.drain.(callsDone := true))
    case DrainReturns => s.(drain := Returned(false))
    case Deadline => s.(drain := Returned(true))
  }

  predicate Initial(s: State) {
    && s.sh == FRESH && (forall l | l in s.listeners :: s.listeners[l].Accepting?) && s.sessions == map[]
    && s.calls == {} && !s.callsClosed && s.drain.NotDraining? && s.turnedAway == s.released == 0
  }

  // ---------------------------------------------------------------- invariants

  function Where<V>(m: map<nat, V>, p: V -> bool): set<nat> {
    set k | k in m && p(m[k])
  }

  lemma SizeWithout(a: set<nat>, k: nat)
    ensures |a| == |a - {k}| + if k in a then 1 else 0
  {
    if k in a { assert a == (a - {k}) + {k}; } else { assert a == a - {k}; }
  }

  lemma WherePut<V>(m: map<nat, V>, k: nat, v: V, p: V -> bool)
    ensures |Where(m[k := v], p)| ==
            |Where(m, p)| - (if k in m && p(m[k]) then 1 else 0) + (if p(v) then 1 else 0)
  {
    var before, after := Where(m, p), Where(m[k := v], p);
    assert after - {k} == before - {k};
    SizeWithout(before, k);
    SizeWithout(after, k);
  }

  lemma WhereDrop<V>(m: map<nat, V>, k: nat, p: V -> bool)
    requires k in m && !p(m[k])
    ensures Where(m - {k}, p) == Where(m, p)
  {
  }

  lemma MapSizes<V>(m: map<nat, V>, k: nat, v: V)
    ensures |m[k := v]| == |m| + if k in m then 0 else 1
    ensures k in m ==> |m - {k}| == |m| - 1
  {
    assert m[k := v].Keys == m.Keys + {k};
    assert (m - {k}).Keys == m.Keys - {k};
    if k in m { assert m.Keys == (m.Keys - {k}) + {k}; }
  }

  // Listeners holding a counted connection; sessions still counted; sessions in delivery.
  predicate Holds(l: Listener) { l.Admitted? || l.TurningAway? }

  predicate IsCounted(p: Session) { p.Serving? || p.Delivering? }

  predicate IsDelivering(p: Session) { p.Delivering? }

  predicate IsListed(p: Session) { !p.Forgotten? }

  ghost predicate Accounted(s: State, max: int) {
    && s.sh.active == |Where(s.listeners, Holds)| + |Where(s.sessions, IsCounted)|
    && (max > 0 ==> s.sh.active <= max)
    && s.sh.processed == s.sh.accepted + s.sh.rejected + |Where(s.sessions, IsDelivering)|
    && s.sh.total == s.sh.active + s.turnedAway + s.released
  }

  ghost predicate Tracked(s: State) {
    && s.sh.waiting == |s.sessions| && s.sh.conns == Where(s.sessions, IsListed)
    && (forall l, m | l in s.listeners && m in s.listeners && l != m && s.listeners[l].Admitted? ::
          s.listeners[m] != s.listeners[l])
    && (forall l | l in s.listeners && s.listeners[l].Admitted? :: s.listeners[l].conn !in s.sessions)
  }

  ghost predicate DrainSound(s: State) {
    && (s.sh.draining <==> !s.drain.NotDraining?)
    && (s.callsClosed <==> s.drain.Waiting? || s.drain.Returned?)
    && (s.drain.Waiting? && s.drain.sessionsDone ==> s.sessions == map[])
    && (s.drain.Waiting? && s.drain.callsDone ==> s.calls == {})
    && (s.drain == Returned(false) ==> s.sessions == map[] && s.calls == {})
  }

  ghost predicate Inv(s: State, max: int) {
    Accounted(s, max) && Tracked(s) && DrainSound(s)
  }

  // ------------------------------------------------------------ they are kept

  lemma InitialInv(s: State, max: int)
    requires Initial(s)
    ensures Inv(s, max)
  {
    assert Where(s.listeners, Holds) == {} && Where(s.sessions, IsCounted) == {};
    assert Where(s.sessions, IsDelivering) == {} && Where(s.sessions, IsListed) == {};
  }

  // How the counted sets move when one thread moves.
  lemma ListenerMoves(s: State, l: ThreadId, to: Listener)
    requires l in s.listeners
    ensures |Where(s.listeners[l := to], Holds)| ==
            |Where(s.listeners, Holds)| - (if Holds(s.listeners[l]) then 1 else 0) + (if Holds(to) then 1 else 0)
  {
    WherePut(s.listeners, l, to, Holds);
  }

  lemma SessionMoves(s: State, c: Conn, to: Session)
    ensures var was := c in s.sessions;
      && |Where(s.sessions[c := to], IsCounted)| == |Where(s.sessions, IsCounted)|
           - (if was && IsCounted(s.sessions[c]) then 1 else 0) + (if IsCounted(to) then 1 else 0)
      && |Where(s.sessions[c := to], IsDelivering)| == |Where(s.sessions, IsDelivering)|
           - (if was && IsDelivering(s.sessions[c]) then 1 else 0) + (if IsDelivering(to) then 1 else 0)
      && |s.sessions[c := to]| == |s.sessions| + if was then 0 else 1
  {
    WherePut(s.sessions, c, to, IsCounted);
    WherePut(s.sessions, c, to, IsDelivering);
    MapSizes(s.sessions, c, to);
  }

  lemma AcceptAccounted(s: State, max: int, l: ThreadId, c: Conn)
    requires Accounted(s, max) && Enabled(s, AcceptConn(l, c))
    ensures Accounted(Apply(s, max, AcceptConn(l, c)), max)
  {
    ListenerMoves(s, l, Admitted(c));
  }

  lemma RegisterAccounted(s: State, max: int, l: ThreadId)
    requires Accounted(s, max) && Tracked(s) && Enabled(s, RegisterConn(l))
    ensures Accounted(Apply(s, max, RegisterConn(l)), max)
  {
    if s.sh.draining {
      ListenerMoves(s, l, TurningAway);
    } else {
      ListenerMoves(s, l, Accepting);
      SessionMoves(s, s.listeners[l].conn, Serving);
    }
  }

  lemma ListenerStops(s: State, max: int, l: ThreadId, step: Step)
    requires Accounted(s, max) && Enabled(s, step) && (step == ListenerFails(l) || step == TurnAway(l))
    ensures Accounted(Apply(s, max, step), max)
  {
    ListenerMoves(s, l, Stopped);
  }

  lemma MessageAccounted(s: State, max: int, c: Conn, yes: bool, step: Step)
    requires Accounted(s, max) && Enabled(s, step) && (step == Policy(c, yes) || step == Delivered(c, yes))
    ensures Accounted(Apply(s, max, step), max)
  {
    SessionMoves(s, c, Delivering);
    SessionMoves(s, c, Serving);
  }

  lemma LeaveAccounted(s: State, max: int, c: Conn, step: Step)
    requires Accounted(s, max) && Enabled(s, step) && (step == Finish(c) || step == Forget(c) || step == Done(c))
    ensures Accounted(Apply(s, max, step), max)
  {
    match step
    case Finish(_) => SessionMoves(s, c, Released);
    case Forget(_) => SessionMoves(s, c, Forgotten);
    case Done(_) =>
      WhereDrop(s.sessions, c, IsCounted);
      WhereDrop(s.sessions, c, IsDelivering);
  }

  lemma AccountedStep(s: State, max: int, step: Step)
    requires Accounted(s, max) && Tracked(s) && Enabled(s, step)
    ensures Accounted(Apply(s, max, step), max)
  {
    match step
    case AcceptConn(l, c) => AcceptAccounted(s, max, l, c);
    case ListenerFails(l) => ListenerStops(s, max, l, step);
    case RegisterConn(l) => RegisterAccounted(s, max, l);
    case TurnAway(l) => ListenerStops(s, max, l, step);
    case Policy(c, relay) => MessageAccounted(s, max, c, relay, step);
    case Delivered(c, ok) => MessageAccounted(s, max, c, ok, step);
    case Finish(c) => LeaveAccounted(s, max, c, step);
    case Forget(c) => LeaveAccounted(s, max, c, step);
    case Done(c) => LeaveAccounted(s, max, c, step);
    case _ =>
  }

  lemma AcceptTracked(s: State, max: int, l: ThreadId, c: Conn)
    requires Tracked(s) && Enabled(s, AcceptConn(l, c))
    ensures Tracked(Apply(s, max, AcceptConn(l, c)))
  {
  }

  lemma RegisterTracked(s: State, max: int, l: ThreadId)
    requires Tracked(s) && Enabled(s, RegisterConn(l))
    ensures Tracked(Apply(s, max, RegisterConn(l)))
  {
    var t := Apply(s, max, RegisterConn(l));
    MapSizes(s.sessions, s.listeners[l].conn, Serving);
    if !s.sh.draining {
      assert t.sh.conns == Where(t.sessions, IsListed);
    }
  }

  lemma MessageTracked(s: State, max: int, c: Conn, yes: bool, step: Step)
    requires Tracked(s) && Enabled(s, step) && (step == Policy(c, yes) || step == Delivered(c, yes))
    ensures Tracked(Apply(s, max, step))
  {
    SameListed(s, c, Delivering);
    SameListed(s, c, Serving);
  }

  lemma LeaveTracked(s: State, max: int, c: Conn, step: Step)
    requires Tracked(s) && Enabled(s, step) && (step == Finish(c) || step == Forget(c) || step == Done(c))
    ensures Tracked(Apply(s, max, step))
  {
    var t := Apply(s, max, step);
    match step
    case Finish(_) => SameListed(s, c, Released);
    case Forget(_) =>
      MapSizes(s.sessions, c, Forgotten);
      assert t.sh.conns == Where(t.sessions, IsListed);
    case Done(_) =>
      MapSizes(s.sessions, c, Forgotten);
      WhereDrop(s.sessions, c, IsListed);
  }

  lemma TrackedStep(s: State, max: int, step: Step)
    requires Tracked(s) && Enabled(s, step)
    ensures Tracked(Apply(s, max, step))
  {
    match step
    case AcceptConn(l, c) => AcceptTracked(s, max, l, c);
    case RegisterConn(l) => RegisterTracked(s, max, l);
    case Policy(c, relay) => MessageTracked(s, max, c, relay, step);
    case Delivered(c, ok) => MessageTracked(s, max, c, ok, step);
    case Finish(c) => LeaveTracked(s, max, c, step);
    case Forget(c) => LeaveTracked(s, max, c, step);
    case Done(c) => LeaveTracked(s, max, c, step);
    case _ =>
  }

  lemma SameListed(s: State, c: Conn, to: Session)
    requires c in s.sessions && IsListed(s.sessions[c]) && IsListed(to)
    ensures Where(s.sessions[c := to], IsListed) == Where(s.sessions, IsListed)
    ensures |s.sessions[c := to]| == |s.sessions|
  {
    MapSizes(s.sessions, c, to);
  }

  lemma DrainStep(s: State, max: int, step: Step)
    requires Inv(s, max) && Enabled(s, step)
    ensures DrainSound(Apply(s, max, step))
  {
    match step
    case SessionsWaited =>
      assert |s.sessions| == 0;
    case _ =>
  }

  lemma InvStep(s: State, max: int, step: Step)
    requires Inv(s, max) && Enabled(s, step)
    ensures Inv(Apply(s, max, step), max)
  {
    AccountedStep(s, max, step);
    TrackedStep(s, max, step);
    DrainStep(s, max, step);
  }

  // ----------------------------------------------------------------- all runs

  predicate Next(s: State, max: int, step: Step, t: State) {
    Enabled(s, step) && t == Apply(s, max, step)
  }

  // States and the steps between them, from an initial state.
  ghost predicate Run(states: seq<State>, steps: seq<Step>, max: int) {
    && |states| == |steps| + 1 && Initial(states[0])
    && forall i :: 0 <= i < |steps| ==> Next(states[i], max, steps[i], states[i + 1])
  }

  /** In every interleaving: the gauge counts exactly the connections admitted and not released and
      never passes the limit, and every counted message is settled or still in delivery. */
  lemma {:induction false} RunsKeepInv(states: seq<State>, steps: seq<Step>, max: int, i: nat)
    requires Run(states, steps, max) && i < |states|
    ensures Inv(states[i], max)
  {
    if i == 0 {
      InitialInv(states[0], max);
    } else {
      RunsKeepInv(states, steps, max, i - 1);
      assert Next(states[i - 1], max, steps[i - 1], states[i]);
      InvStep(states[i - 1], max, steps[i - 1]);
    }
  }

  lemma {:induction false} DrainingStays(states: seq<State>, steps: seq<Step>, max: int, i: nat, j: nat)
    requires Run(states, steps, max) && i <= j < |states| && states[i].sh.draining
    ensures states[j].sh.draining && states[j].sessions.Keys <= states[i].sessions.Keys
    ensures states[i].callsClosed ==> states[j].callsClosed && states[j].calls <= states[i].calls
  {
    if i < j {
      DrainingStays(states, steps, max, i, j - 1);
      assert Next(states[j - 1], max, steps[j - 1], states[j]);
    }
  }

  /** Once draining is set no session is ever added; so when drain returns before its deadline,
      every session and every call is gone, and stays gone. */
  lemma DrainedForGood(states: seq<State>, steps: seq<Step>, max: int, i: nat, j: nat)
    requires Run(states, steps, max) && i <= j < |states| && states[i].drain == Returned(false)
    ensures states[j].sessions == map[] && states[j].calls == {}
    ensures states[j].sh.conns == {} && states[j].sh.waiting == 0
    ensures states[j].sh.processed == states[j].sh.accepted + states[j].sh.rejected
    ensures states[j].sh.active == |Where(states[j].listeners, Holds)|
  {
    RunsKeepInv(states, steps, max, i);
    RunsKeepInv(states, steps, max, j);
    DrainingStays(states, steps, max, i, j);
    var t := states[j];
    assert Where(t.sessions, IsListed) == {} && Where(t.sessions, IsDelivering) == {} == Where(t.sessions, IsCounted);
  }

  /** The WaitGroup is used within its contract: nothing is added once a wait is running. */
  lemma NoAddDuringWait(states: seq<State>, steps: seq<Step>, max: int, i: nat)
    requires Run(states, steps, max) && i < |steps| && states[i].drain.Waiting?
    ensures states[i + 1].sh.waiting <= states[i].sh.waiting
  {
    RunsKeepInv(states, steps, max, i);
    assert Next(states[i], max, steps[i], states[i + 1]);
  }

  // ------------------------------------------------------- the proxy makes the steps

  // The critical section of a step, on the proxy itself. Steps of other threads touch none of it.
  method Perform(p: Proxy, s: State, step: Step)
    requires p.View() == s.sh && Enabled(s, step)
    modifies p
    ensures p.View() == Apply(s, p.maxConnections, step).sh
  {
    match step
    case AcceptConn(l, c) => var admitted := p.AdmitConnection();
    case RegisterConn(l) => var registered := p.RegisterSession(s.listeners[l].conn);
    case TurnAway(l) => p.ReleaseConnection();
    case Policy(c, relay) => p.CountMessage(relay);
    case Delivered(c, ok) => p.CountDelivery(ok);
    case Finish(c) => p.ReleaseConnection();
    case Forget(c) => p.ForgetConnection(c);
    case Done(c) => p.SessionDone();
    case CallCounts(r, ok) => p.CountCall(ok);
    case MarkDraining => p.StartDraining();
    case _ =>
  }

  /** Whatever steps the threads of a new proxy take, in whatever order, its own counters and maps
      satisfy the invariant: the gauge, the message counts and the set of connections are right. */
  method PerformAll(max: int, s0: State, steps: seq<Step>) returns (p: Proxy, s: State)
    requires Initial(s0)
    ensures p.maxConnections == max && p.View() == s.sh && Inv(s, max)
  {
    p := new Proxy(max);
    s := s0;
    InitialInv(s, max);
    var i := 0;
    while i < |steps|
      invariant i <= |steps| && fresh(p) && p.maxConnections == max && p.View() == s.sh && Inv(s, max)
    {
      if Enabled(s, steps[i]) {
        InvStep(s, max, steps[i]);
        Perform(p, s, steps[i]);
        s := Apply(s, max, steps[i]);
      }
      i := i + 1;
    }
  }

  // ------------------------------------------------------------------ a concrete run

  lemma ExtendRun(states: seq<State>, steps: seq<Step>, max: int, step: Step, t: State)
    returns (longer: seq<State>, more: seq<Step>)
    requires Run(states, steps, max) && Next(states[|steps|], max, step, t)
    ensures Run(longer, more, max) && |more| == |steps| + 1 && longer[|more|] == t
  {
    longer, more := states + [t], steps + [step];
    forall i | 0 <= i < |more| ensures Next(longer[i], max, more[i], longer[i + 1]) {
      if i < |steps| { assert Next(states[i], max, steps[i], states[i + 1]); }
    }
  }

  // A proxy that admits one connection: the listener holds the one it has.
  function HeldState(l: ThreadId, c: Conn, draining: bool, drain: Drain): State {
    State(FRESH.(total := 1, active := 1, draining := draining), map[l := Admitted(c)], map[], {},
          drain.Waiting? || drain.Returned?, drain, 0, 0)
  }

  lemma HeldAtDrain(l: ThreadId, c: Conn) returns (states: seq<State>, steps: seq<Step>)
    ensures Run(states, steps, 1) && states[|steps|] == HeldState(l, c, true, Marked)
  {
    states, steps := [State(FRESH, map[l := Accepting], map[], {}, false, NotDraining, 0, 0)], [];
    states, steps := ExtendRun(states, steps, 1, AcceptConn(l, c), HeldState(l, c, false, NotDraining));
    states, steps := ExtendRun(states, steps, 1, MarkDraining, HeldState(l, c, true, Marked));
  }

  lemma HeldWhileWaiting(l: ThreadId, c: Conn) returns (states: seq<State>, steps: seq<Step>)
    ensures Run(states, steps, 1) && states[|steps|] == HeldState(l, c, true, Waiting(true, false))
  {
    states, steps := HeldAtDrain(l, c);
    states, steps := ExtendRun(states, steps, 1, StartWaits, HeldState(l, c, true, Waiting(false, false)));
    states, steps := ExtendRun(states, steps, 1, SessionsWaited, HeldState(l, c, true, Waiting(true, false)));
  }

  /** Drain does not wait for the listeners: a connection accepted just before may still be
      counted when drain returns, and it is turned away afterwards. */
  lemma GaugeMayOutliveDrain(l: ThreadId, c: Conn) returns (states: seq<State>, steps: seq<Step>)
    ensures Run(states, steps, 1)
    ensures states[|states| - 1].drain == Returned(false) && states[|states| - 1].sh.active == 1
  {
    states, steps := HeldWhileWaiting(l, c);
    states, steps := ExtendRun(states, steps, 1, CallsWaited, HeldState(l, c, true, Waiting(true, true)));
    states, steps := ExtendRun(states, steps, 1, DrainReturns, HeldState(l, c, true, Returned(false)));
  }
}
