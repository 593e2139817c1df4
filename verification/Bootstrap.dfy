/** The bootstrap state machine of the LwM2M client (bootstrap.c) and the client's own (liblwm2m.c). */
module Bootstrap {
  import opened Servers

  //////////////////////////////////////////////////////////////////////////////
  // One server
  //////////////////////////////////////////////////////////////////////////////

  /** What the calls out of the library give: connecting, making a transaction, and sending it, by server id. */
  datatype Env = Env(nameFits: bool, connect: nat -> Session, created: nat -> bool, sent: nat -> bool)

  /** COAP_EXCHANGE_LIFETIME: 90 + 2 * 100 + 4 seconds. */
  const EXCHANGE_LIFETIME := 294

  function Requested(s: Server, env: Env): Server {
    if !env.nameFits then s.(status := Failing)
    else
      var c := if s.session.Closed? then s.(session := env.connect(s.id)) else s;
      if c.session.Closed? then c.(status := Failed)
      else if !env.created(s.id) then c.(status := Failing)
      else if env.sent(s.id) then c.(status := Initiated)
      else c
  }

  function Stepped(s: Server, now: int, env: Env): Server {
    match s.status
    case Deregistered => s.(registration := now + s.lifetime, status := HoldOff)
    case HoldOff => if s.registration <= now then Requested(s, env) else s
    case Pending => if s.registration <= now then s.(status := Failing) else s
    case Finishing => s.(session := Closed, status := Finished)
    case Failing => s.(session := Closed, status := Failed)
    case _ => s
  }

  function Min(a: int, b: int): int {
    if a < b then a else b
  }

  function TimeoutAfter(s: Server, now: int, timeout: int): int {
    match s.status
    case Deregistered => Min(timeout, s.lifetime)
    case HoldOff => if s.registration <= now then timeout else Min(timeout, s.registration - now)
    case Pending => if s.registration <= now then 0 else Min(timeout, s.registration - now)
    case Finishing => 0
    case Failing => 0
    case _ => timeout
  }

  /** The answer to the bootstrap request: good is an acknowledgement with code 2.04. */
  function Replied(s: Server, good: bool, now: int): Server {
    if s.status != Initiated then s
    else if good then s.(status := Pending, registration := now + EXCHANGE_LIFETIME)
    else s.(status := Failing)
  }

  /** What a command does to a server's status before it is carried out; None when it is ignored. */
  function Checked(s: Server, now: int): Option<Server> {
    match s.status
    case HoldOff => Some(s.(status := Pending))
    case Initiated => Some(s.(status := Pending))
    case Deregistered => Some(s.(registration := now + EXCHANGE_LIFETIME))
    case Pending => Some(s.(registration := now + EXCHANGE_LIFETIME))
    case _ => None
  }

  /** After a command; changed says it deleted or changed something. */
  function Commanded(s: Server, now: int, changed: bool): Server {
    match Checked(s, now)
    case None => s
    case Some(c) => if changed then c.(status := Pending) else c
  }

  function Started(s: Server, connect: nat -> Session): Server {
    s.(status := Deregistered, session := if s.session.Closed? then connect(s.id) else s.session)
  }

  //////////////////////////////////////////////////////////////////////////////
  // The list
  //////////////////////////////////////////////////////////////////////////////

  function AllStepped(list: seq<Server>, now: int, env: Env): (r: seq<Server>)
    ensures |r| == |list|
  {
    seq(|list|, i requires 0 <= i < |list| => Stepped(list[i], now, env))
  }

  function AllTimeout(list: seq<Server>, now: int, timeout: int): int {
    if list == [] then timeout
    else TimeoutAfter(list[|list| - 1], now, AllTimeout(list[..|list| - 1], now, timeout))
  }

  function AllStarted(list: seq<Server>, connect: nat -> Session): (r: seq<Server>)
    ensures |r| == |list|
  {
    seq(|list|, i requires 0 <= i < |list| => Started(list[i], connect))
  }

  /** Marks the servers with these ids dirty. */
  function Tagged(list: seq<Server>, ids: set<nat>): (r: seq<Server>)
    ensures |r| == |list|
  {
    seq(|list|, i requires 0 <= i < |list| => if list[i].id in ids then list[i].(dirty := true) else list[i])
  }

  /** The first server with a session, or the length of the list. */
  function WithSession(list: seq<Server>, session: Session): (i: nat)
    ensures i <= |list|
    ensures i < |list| ==> list[i].session == session
  {
    if list == [] || list[0].session == session then 0 else 1 + WithSession(list[1..], session)
  }

  /** Whether the first server with a session is pending. */
  predicate FromPending(list: seq<Server>, session: Session) {
    WithSession(list, session) < |list| && list[WithSession(list, session)].status == Pending
  }

  predicate InProgress(status: Status) {
    status == HoldOff || status == Initiated || status == Pending || status == Finishing || status == Failing
  }

  /** The joint status: pending, else finished, else failed. */
  function Joint(list: seq<Server>): Status {
    if exists i :: 0 <= i < |list| && InProgress(list[i].status) then Pending
    else if exists i :: 0 <= i < |list| && list[i].status == Finished then Finished
    else Failed
  }

  /** The joint status is failed exactly if no server is in progress and none finished. */
  lemma JointFailedIff(list: seq<Server>)
    ensures Joint(list) == Failed <==> forall s | s in list :: !InProgress(s.status) && s.status != Finished
  {
    hide InProgress;
    if Joint(list) == Failed {
      forall s | s in list
        ensures !InProgress(s.status) && s.status != Finished
      {
        var i :| 0 <= i < |list| && list[i] == s;
      }
    } else {
      var i :| 0 <= i < |list| && (InProgress(list[i].status) || list[i].status == Finished);
      assert list[i] in list;
    }
  }

  /** There are servers, and all of them failed. */
  predicate AllFailed(list: seq<Server>) {
    list != [] && forall s | s in list :: s.status == Failed
  }

  /** Failed means that there are servers and all failed exactly if there are some and all were started. */
  lemma FailedMeansAllFailedIff(list: seq<Server>)
    requires Joint(list) == Failed
    ensures AllFailed(list) <==> list != [] && forall s | s in list :: s.status != Deregistered && s.status != Other
  {
    JointFailedIff(list);
    hide Joint;
  }

  /** Servers that all failed do give failed; so do no server at all and one that has not started. */
  lemma FailedWithoutFailure(list: seq<Server>, s: Server)
    ensures AllFailed(list) ==> Joint(list) == Failed
    ensures Joint([]) == Failed && !AllFailed([])
    ensures s.status == Deregistered ==> Joint([s]) == Failed && !AllFailed([s])
  {
    JointFailedIff(list);
    JointFailedIff([]);
    JointFailedIff([s]);
    hide Joint;
    assert s in [s];
  }

  //////////////////////////////////////////////////////////////////////////////
  // Deadlines
  //////////////////////////////////////////////////////////////////////////////

  predicate Waits(s: Server, now: int) {
    (s.status == HoldOff || s.status == Pending) && s.registration > now
  }

  lemma StepDeadline(s: Server, now: int, env: Env, timeout: int)
    requires 0 <= timeout
    ensures 0 <= TimeoutAfter(s, now, timeout) <= timeout
    ensures Waits(Stepped(s, now, env), now) ==>
      TimeoutAfter(s, now, timeout) <= Stepped(s, now, env).registration - now
  {
  }

  /** A step never raises the timeout, and leaves none longer than the nearest deadline still ahead. */
  lemma {:induction false} TimeoutMeetsDeadlines(list: seq<Server>, now: int, env: Env, timeout: int)
    requires 0 <= timeout
    ensures 0 <= AllTimeout(list, now, timeout) <= timeout
    ensures forall s | s in AllStepped(list, now, env) ::
      Waits(s, now) ==> AllTimeout(list, now, timeout) <= s.registration - now
  {
    hide Stepped, TimeoutAfter, Waits;
    if list != [] {
      var front, last := list[..|list| - 1], list[|list| - 1];
      TimeoutMeetsDeadlines(front, now, env, timeout);
      StepDeadline(last, now, env, AllTimeout(front, now, timeout));
      assert AllStepped(list, now, env) == AllStepped(front, now, env) + [Stepped(last, now, env)];
    }
  }

  //////////////////////////////////////////////////////////////////////////////
  // Runs
  //////////////////////////////////////////////////////////////////////////////

  /** What can happen to the bootstrap list between two restarts. */
  datatype Event =
    | Step(now: int, env: Env)
    | Reply(at: nat, good: bool, when: int)
    | Finish(session: Session, complete: bool)
    | Command(at: nat, changed: bool, when: int, tags: set<nat>)
    | DeleteAll(at: nat, when: int, tags: set<nat>)
    | Restart(connect: nat -> Session)

  /** The list with what a function makes of one of its servers. */
  function Mapped(list: seq<Server>, at: nat, f: Server -> Server): (r: seq<Server>)
    ensures |r| == |list|
  {
    if at < |list| then list[at := f(list[at])] else list
  }

  /** A command that is not ignored: what it does to its server, and which servers it leaves to be dropped. */
  function CommandedAt(list: seq<Server>, at: nat, when: int, changed: bool, tags: set<nat>): (r: seq<Server>)
    ensures |r| == |list|
  {
    if at < |list| && Checked(list[at], when).Some?
    then Tagged(list[at := Commanded(list[at], when, changed)], tags)
    else list
  }

  /** The finish message moves the server it came from on, if discovery would succeed. */
  function Finishes(list: seq<Server>, session: Session, complete: bool): (r: seq<Server>)
    ensures |r| == |list|
  {
    var i := WithSession(list, session);
    if i < |list| && list[i].status == Pending && complete then list[i := list[i].(status := Finishing)] else list
  }

  function After(list: seq<Server>, e: Event): (r: seq<Server>)
    ensures |r| == |list|
  {
    match e
    case Step(now, env) => AllStepped(list, now, env)
    case Reply(at, good, when) => Mapped(list, at, s => Replied(s, good, when))
    case Finish(session, complete) => Finishes(list, session, complete)
    case Command(at, changed, when, tags) => CommandedAt(list, at, when, changed, tags)
    case DeleteAll(at, when, tags) => CommandedAt(list, at, when, false, tags)
    case Restart(connect) => AllStarted(list, connect)
  }

  function Run(list: seq<Server>, events: seq<Event>): (r: seq<Server>)
    ensures |r| == |list|
    decreases |events|
  {
    if events == [] then list else Run(After(list, events[0]), events[1..])
  }

  predicate Terminal(status: Status) {
    status == Finished || status == Failed
  }

  predicate Settled(s: Server) {
    Terminal(s.status) ==> s.session.Closed?
  }

  predicate AllSettled(list: seq<Server>) {
    forall i | 0 <= i < |list| :: Settled(list[i])
  }

  /** How far along a server is. */
  function Rank(status: Status): nat {
    match status
    case Deregistered => 0
    case HoldOff => 1
    case Initiated => 2
    case Pending => 3
    case Finishing => 4
    case Failing => 4
    case Finished => 5
    case Failed => 5
    case Other => 6
  }

  /** A step of one server: settled stays settled, nobody moves back, and the end is the end. */
  predicate MovesOn(was: Server, now: Server) {
    now.id == was.id && (Settled(was) ==> Settled(now)) && Rank(was.status) <= Rank(now.status)
    && (Terminal(was.status) ==> now.status == was.status && now.session == was.session)
  }

  lemma StepMovesOn(s: Server, now: int, env: Env)
    ensures MovesOn(s, Stepped(s, now, env))
  {
  }

  lemma OthersMoveOn(s: Server, good: bool, changed: bool, when: int)
    ensures MovesOn(s, Replied(s, good, when)) && MovesOn(s, Commanded(s, when, changed))
    ensures s.status == Pending ==> MovesOn(s, s.(status := Finishing))
    ensures MovesOn(s, s) && MovesOn(s, s.(dirty := true))
  {
  }

  lemma MovesOnTwice(a: Server, b: Server, c: Server)
    requires MovesOn(a, b) && MovesOn(b, c)
    ensures MovesOn(a, c)
  {
  }

  lemma EventMovesOn(list: seq<Server>, e: Event, i: nat)
    requires i < |list| && !e.Restart?
    ensures MovesOn(list[i], After(list, e)[i])
  {
    var s := list[i];
    match e {
      case Step(now, env) =>
        StepMovesOn(s, now, env);
      case Reply(at, good, when) =>
        OthersMoveOn(s, good, false, when);
      case Finish(session, complete) =>
        OthersMoveOn(s, false, false, 0);
      case Command(at, changed, when, tags) =>
        var c := Commanded(s, when, changed);
        OthersMoveOn(s, false, changed, when);
        OthersMoveOn(c, false, false, 0);
        MovesOnTwice(s, c, c.(dirty := true));
      case DeleteAll(at, when, tags) =>
        var c := Commanded(s, when, false);
        OthersMoveOn(s, false, false, when);
        OthersMoveOn(c, false, false, 0);
        MovesOnTwice(s, c, c.(dirty := true));
    }
  }

  predicate NoRestart(events: seq<Event>) {
    forall i | 0 <= i < |events| :: !events[i].Restart?
  }

  /** Between restarts every server moves on only, and one that finished or failed stays as it is. */
  lemma {:induction false} RunMovesOn(list: seq<Server>, events: seq<Event>, i: nat)
    requires i < |list| && NoRestart(events)
    ensures MovesOn(list[i], Run(list, events)[i])
    decreases |events|
  {
    if events == [] {
      hide After;
    } else {
      assert NoRestart(events[1..]);
      EventMovesOn(list, events[0], i);
      hide After, MovesOn, NoRestart;
      RunMovesOn(After(list, events[0]), events[1..], i);
      MovesOnTwice(list[i], After(list, events[0])[i], Run(list, events)[i]);
    }
  }

  lemma EventSettles(list: seq<Server>, e: Event)
    requires AllSettled(list)
    ensures AllSettled(After(list, e))
  {
    forall i | 0 <= i < |list|
      ensures Settled(After(list, e)[i])
    {
      if !e.Restart? {
        EventMovesOn(list, e, i);
        hide After;
      }
    }
  }

  /** Over every run, restarts included, a server that finished or failed holds no session. */
  lemma {:induction false} RunSettles(list: seq<Server>, events: seq<Event>)
    requires AllSettled(list)
    ensures AllSettled(Run(list, events))
    decreases |events|
  {
    hide After, AllSettled;
    if events != [] {
      EventSettles(list, events[0]);
      RunSettles(After(list, events[0]), events[1..]);
    }
  }

  /** A refresh, even one that fails, starts every bootstrap server over; the new ones have not started either. */
  lemma RefreshRestarts(o: Objects, l: Lists)
    ensures NoneStarted(Discovered(o, Cleaned(l), false).1.bootstrap)
    ensures AllSettled(Discovered(o, Cleaned(l), false).1.bootstrap)
  {
    var c := Cleaned(l);
    var r := Discovered(o, c, false).1;
    RebuiltMembers(l.bootstrap, true);
    hide Rebuilt;
    assert NoneStarted(c.bootstrap);
    DiscoverStartsNone(o, o.security, c);
    hide Discover;
    assert NoneStarted(r.bootstrap);
    assert forall i | 0 <= i < |r.bootstrap| :: r.bootstrap[i] in r.bootstrap;
  }

  /** The deadline of a server that waits for its acknowledgement is over: the request went out at hold-off's end. */
  predicate AllPast(list: seq<Server>, now: int) {
    forall i | 0 <= i < |list| :: list[i].status == Initiated ==> list[i].registration <= now
  }

  /** The time of the last step of a run. */
  function Clock(events: seq<Event>, now: int): int
    decreases |events|
  {
    if events == [] then now else Clock(events[1..], if events[0].Step? then events[0].now else now)
  }

  /** Steps are taken in the order of time. */
  predicate InTime(events: seq<Event>, now: int)
    decreases |events|
  {
    events == []
    || ((events[0].Step? ==> now <= events[0].now) && InTime(events[1..], if events[0].Step? then events[0].now
        else now))
  }

  lemma EventKeepsPast(list: seq<Server>, e: Event, now: int)
    requires AllPast(list, now) && (e.Step? ==> now <= e.now)
    ensures AllPast(After(list, e), if e.Step? then e.now else now)
  {
    hide WithSession;
    forall i | 0 <= i < |list| && After(list, e)[i].status == Initiated
      ensures After(list, e)[i].registration <= if e.Step? then e.now else now
    {
      assert list[i].status == Initiated ==> list[i].registration <= now;
    }
  }

  lemma {:induction false} RunKeepsPast(list: seq<Server>, events: seq<Event>, now: int)
    requires AllPast(list, now) && InTime(events, now)
    ensures AllPast(Run(list, events), Clock(events, now))
    decreases |events|
  {
    hide After, AllPast;
    if events != [] {
      EventKeepsPast(list, events[0], now);
      RunKeepsPast(After(list, events[0]), events[1..], if events[0].Step? then events[0].now else now);
    }
  }

  lemma {:induction false} ClockAhead(events: seq<Event>, now: int)
    requires InTime(events, now)
    ensures now <= Clock(events, now)
    decreases |events|
  {
    if events != [] {
      ClockAhead(events[1..], if events[0].Step? then events[0].now else now);
    }
  }

  /** A server that has asked for nothing, and will not before a deadline if steps come from now on only. */
  predicate Unasked(s: Server, now: int, deadline: int) {
    match s.status
    case Deregistered => deadline <= now + s.lifetime
    case HoldOff => deadline <= s.registration
    case Initiated => false
    case _ => true
  }

  lemma EventHoldsOff(list: seq<Server>, e: Event, i: nat, now: int, deadline: int)
    requires i < |list| && !e.Restart? && Unasked(list[i], now, deadline)
    requires e.Step? ==> now <= e.now < deadline
    ensures Unasked(After(list, e)[i], if e.Step? then e.now else now, deadline)
  {
    hide WithSession, Requested;
  }

  lemma {:induction false} RunHoldsOff(list: seq<Server>, events: seq<Event>, i: nat, now: int, deadline: int)
    requires i < |list| && NoRestart(events) && InTime(events, now) && Unasked(list[i], now, deadline)
    requires Clock(events, now) < deadline
    ensures Unasked(Run(list, events)[i], Clock(events, now), deadline)
    decreases |events|
  {
    hide After, Unasked;
    if events != [] {
      var next := if events[0].Step? then events[0].now else now;
      assert NoRestart(events[1..]);
      ClockAhead(events[1..], next);
      EventHoldsOff(list, events[0], i, now, deadline);
      RunHoldsOff(After(list, events[0]), events[1..], i, next, deadline);
    }
  }

  /**
   A started server holds off: no run that keeps within its hold-off time, whatever else it brings, ends with a
   bootstrap request sent.
   */
  lemma HoldOffRespected(list: seq<Server>, connect: nat -> Session, events: seq<Event>, i: nat, now: int)
    requires i < |list| && NoRestart(events) && InTime(events, now)
    requires Clock(events, now) < now + list[i].lifetime
    ensures Run(AllStarted(list, connect), events)[i].status != Initiated
  {
    var s := AllStarted(list, connect);
    assert Unasked(s[i], now, now + list[i].lifetime);
    hide AllStarted, Run, InTime, Clock, NoRestart;
    RunHoldsOff(s, events, i, now, now + list[i].lifetime);
  }

  /** A server is still pending one step after a command if and only if its deadline after the command is ahead. */
  lemma CommandKeepsPendingIff(s: Server, when: int, changed: bool, now: int, env: Env)
    ensures Stepped(Commanded(s, when, changed), now, env).status == Pending
      <==> (s.status == Deregistered && changed && now < when + EXCHANGE_LIFETIME)
           || (s.status == Pending && now < when + EXCHANGE_LIFETIME)
           || ((s.status == HoldOff || s.status == Initiated) && now < s.registration)
  {
    var c := Commanded(s, when, changed);
    assert c.status == HoldOff ==> s.status == HoldOff;
    hide Requested;
  }

  /** The list after a command to one of its servers and a step. */
  function CommandThenStep(list: seq<Server>, i: nat, changed: bool, when: int, now: int, env: Env): (r: seq<Server>)
    ensures |r| == |list|
  {
    After(After(list, Command(i, changed, when, {})), Step(now, env))
  }

  lemma CommandThenStepAt(list: seq<Server>, i: nat, changed: bool, when: int, now: int, env: Env)
    requires i < |list|
    ensures CommandThenStep(list, i, changed, when, now, env)[i] == Stepped(Commanded(list[i], when, changed), now, env)
  {
    hide Stepped;
    assert After(list, Command(i, changed, when, {}))[i] == Commanded(list[i], when, changed);
  }

  /**
   After any run in time order: a server is pending one step after a command exactly if it was pending, or not
   started and changed, and the new deadline is ahead, or held off with its hold-off time still ahead. A server
   that waits for its acknowledgement never is.
   */
  lemma CommandInRunIff(list: seq<Server>, events: seq<Event>, start: int, i: nat, changed: bool, when: int, now: int,
                        env: Env)
    requires AllPast(list, start) && InTime(events, start) && Clock(events, start) <= now && i < |list|
    ensures CommandThenStep(Run(list, events), i, changed, when, now, env)[i].status == Pending
      <==> (Run(list, events)[i].status == Deregistered && changed && now < when + EXCHANGE_LIFETIME)
           || (Run(list, events)[i].status == Pending && now < when + EXCHANGE_LIFETIME)
           || (Run(list, events)[i].status == HoldOff && now < Run(list, events)[i].registration)
  {
    RunKeepsPast(list, events, start);
    var s := Run(list, events)[i];
    assert s.status == Initiated ==> s.registration <= now;
    hide Run, Clock, InTime, AllPast, CommandThenStep;
    CommandThenStepAt(Run(list, events), i, changed, when, now, env);
    CommandKeepsPendingIff(s, when, changed, now, env);
  }

  /**
   A command that comes while a server waits for its acknowledgement, taken as a sign that the acknowledgement
   was lost, keeps the old deadline. Whatever run came before, the next step fails the server.
   */
  lemma LostAckExpires(list: seq<Server>, events: seq<Event>, start: int, i: nat, changed: bool, when: int, now: int,
                       env: Env)
    requires AllPast(list, start) && InTime(events, start) && Clock(events, start) <= now
    requires i < |list| && Run(list, events)[i].status == Initiated
    ensures CommandThenStep(Run(list, events), i, changed, when, now, env)[i].status == Failing
  {
    RunKeepsPast(list, events, start);
    var r := Run(list, events);
    hide Run, Clock, InTime;
    assert r[i].registration <= now;
    CommandThenStepAt(r, i, changed, when, now, env);
  }

  /** Calls that all succeed. */
  function Obliging(): Env {
    Env(true, _ => Open(1), _ => true, _ => true)
  }

  /** A server that asked for its bootstrap and got a command instead of the acknowledgement. */
  lemma LostAckRun()
    ensures var list := [NewServer(7, 0, 0xFFFF, 0, 0)];
            var asked := [Restart(Obliging().connect), Step(100, Obliging()), Step(101, Obliging())];
            Run(list, asked)[0].status == Initiated
            && CommandThenStep(Run(list, asked), 0, true, 102, 103, Obliging())[0].status == Failing
  {
    var env, s := Obliging(), NewServer(7, 0, 0xFFFF, 0, 0);
    var list := [s];
    var step1, step2 := Step(100, env), Step(101, env);
    var l1 := After(list, Restart(env.connect));
    var l2 := After(l1, step1);
    var l3 := After(l2, step2);
    assert l3[0].status == Initiated && l3[0].registration == 100;
    var asked := [Restart(env.connect), step1, step2];
    assert asked[1..] == [step1, step2] && asked[1..][1..] == [step2] && asked[1..][1..][1..] == [];
    assert Run(list, asked) == l3 by {
      hide After;
      assert Run(l3, []) == l3;
      assert Run(l2, [step2]) == l3;
      assert Run(l1, [step1, step2]) == l3;
    }
    CommandThenStepAt(l3, 0, true, 102, 103, env);
  }

  //////////////////////////////////////////////////////////////////////////////
  // The client
  //////////////////////////////////////////////////////////////////////////////

  datatype ClientState = Initial | BootstrapRequired | Bootstrapping | RegisterRequired | Registering | Ready

  /** What the registration code answers: the result of starting, and the joint status of the servers. */
  datatype Registration = Registration(start: int, status: RegStatus)

  datatype RegStatus = Registered | RegFailed | RegPending

  /** The client's part of the context. */
  datatype Client = Client(state: ClientState, lists: Lists)

  datatype Result = Result(code: int, client: Client, timeout: int)

  /** How many states a single step can still pass through. */
  function Hops(state: ClientState): nat {
    match state
    case Bootstrapping => 2
    case Initial => 1
    case Registering => 1
    case Ready => 1
    case BootstrapRequired => 0
    case RegisterRequired => 0
  }

  /** One step of the client, through all the states it passes at once. */
  function Advance(c: Client, o: Objects, reg: Registration, now: int, env: Env, timeout: int): Result
    decreases Hops(c.state), if c.state.Initial? then 1 else 0
  {
    var l := c.lists;
    match c.state
    case Initial =>
      var d := Discovered(o, Cleaned(l), false);
      if !d.0 then Result(0xA3, Client(Initial, d.1), timeout)
      else Advance(Client(if d.1.servers != [] then RegisterRequired
          else BootstrapRequired, d.1), o, reg, now, env, timeout)
    case BootstrapRequired =>
      if l.bootstrap == [] then Result(0xA3, c, timeout)
      else
        var started := AllStarted(l.bootstrap, env.connect);
        Result(0, Client(Bootstrapping, l.(bootstrap := AllStepped(started, now, env))), AllTimeout(started, now,
            timeout))
    case Bootstrapping =>
      (match Joint(l.bootstrap)
       case Finished => Advance(c.(state := Initial), o, reg, now, env, timeout)
       case Failed => Result(0xA3, c, timeout)
       case _ => Result(0, c.(lists := l.(bootstrap := AllStepped(l.bootstrap, now, env))), AllTimeout(l.bootstrap,
           now, timeout)))
    case RegisterRequired =>
      if reg.start != 0 then Result(reg.start, c, timeout) else Result(0, c.(state := Registering), timeout)
    case Registering =>
      if reg.status.Registered? then Result(0, c.(state := Ready), timeout)
      else if reg.status.RegFailed? then Advance(c.(state := BootstrapRequired), o, reg, now, env, timeout)
      else Result(0, c, timeout)
    case Ready =>
      if reg.status.RegFailed? then Advance(c.(state := BootstrapRequired), o, reg, now, env, timeout)
      else Result(0, c, timeout)
  }

  /** A step that succeeds never rests in a state that only leads on. */
  lemma {:induction false} StepRests(c: Client, o: Objects, reg: Registration, now: int, env: Env, timeout: int)
    ensures var r := Advance(c, o, reg, now, env, timeout);
            r.code == 0 ==> r.client.state.Bootstrapping? || r.client.state.Registering? || r.client.state.Ready?
    decreases Hops(c.state), if c.state.Initial? then 1 else 0
  {
    hide Discovered, Cleaned, AllStepped, AllTimeout, AllStarted, Joint;
    if c.state.Initial? {
      var d := Discovered(o, Cleaned(c.lists), false);
      StepRests(Client(if d.1.servers != [] then RegisterRequired
          else BootstrapRequired, d.1), o, reg, now, env, timeout);
    } else if c.state.Bootstrapping? {
      StepRests(c.(state := Initial), o, reg, now, env, timeout);
    } else if c.state.Registering? || c.state.Ready? {
      StepRests(c.(state := BootstrapRequired), o, reg, now, env, timeout);
    }
  }

  /** Once a bootstrap finished and its servers can be registered with, one step settles the lists and registers. */
  lemma BootstrapLeadsOn(c: Client, o: Objects, reg: Registration, now: int, env: Env, timeout: int)
    requires c.state.Bootstrapping? && Joint(c.lists.bootstrap) == Finished && WellFormed(c.lists)
    requires Discovered(o, Cleaned(c.lists), false).0 && Discovered(o, Cleaned(c.lists), false).1.servers != []
    requires reg.start == 0
    ensures var r := Advance(c, o, reg, now, env, timeout);
            r.code == 0 && r.client.state.Registering? && r.timeout == timeout
            && WellFormed(r.client.lists) && NoneDirty(r.client.lists) && AllSettled(r.client.lists.bootstrap)
  {
    RefreshSettles(o, c.lists);
    RefreshRestarts(o, c.lists);
    hide Discovered, Cleaned, AllStepped, AllTimeout, AllStarted, Joint, WellFormed, AllSettled;
    var d := Discovered(o, Cleaned(c.lists), false);
    assert Advance(Client(RegisterRequired, d.1), o, reg, now, env, timeout)
        == Result(0, Client(Registering, d.1), timeout);
    assert Advance(c.(state := Initial), o, reg, now, env, timeout)
        == Advance(Client(RegisterRequired, d.1), o, reg, now, env, timeout);
  }

  //////////////////////////////////////////////////////////////////////////////
  // Runs of the client
  //////////////////////////////////////////////////////////////////////////////

  /** What can happen to the client: something local to the bootstrap list, a refresh, or a step. */
  datatype ClientEvent =
    | Local(e: Event)
    | Refresh(o: Objects)
    | Tick(objects: Objects, reg: Registration, now: int, env: Env, timeout: int)

  /** Whether an event is a command that is not ignored. */
  predicate Taken(list: seq<Server>, e: Event) {
    (e.Command? || e.DeleteAll?) && e.at < |list| && Checked(list[e.at], e.when).Some?
  }

  /** What an event in the bootstrap list does to the client: commands mark servers of both lists. */
  function AfterLocal(c: Client, e: Event): Client {
    var list := c.lists.bootstrap;
    Client(if e.Command? && Taken(list, e) && e.changed && list[e.at].status == Deregistered then Bootstrapping
           else c.state,
           Lists(After(list, e), if Taken(list, e) then Tagged(c.lists.servers, e.tags) else c.lists.servers))
  }

  function ClientAfter(c: Client, e: ClientEvent): Client {
    match e
    case Local(e) => AfterLocal(c, e)
    case Refresh(o) => c.(lists := Discovered(o, Cleaned(c.lists), false).1)
    case Tick(o, reg, now, env, timeout) => Advance(c, o, reg, now, env, timeout).client
  }

  function ClientRun(c: Client, events: seq<ClientEvent>): Client
    decreases |events|
  {
    if events == [] then c else ClientRun(ClientAfter(c, events[0]), events[1..])
  }

  /** Both lists sorted, no id in both, and no session held by a bootstrap server that finished or failed. */
  predicate Sound(l: Lists) {
    WellFormed(l) && AllSettled(l.bootstrap)
  }

  predicate SameIds(a: seq<Server>, b: seq<Server>) {
    |a| == |b| && forall i | 0 <= i < |a| :: a[i].id == b[i].id
  }

  lemma SameIdsWellFormed(l: Lists, m: Lists)
    requires WellFormed(l) && SameIds(l.bootstrap, m.bootstrap) && SameIds(l.servers, m.servers)
    ensures WellFormed(m)
  {
  }

  lemma EventKeepsIds(list: seq<Server>, e: Event)
    ensures SameIds(list, After(list, e))
  {
    forall i | 0 <= i < |list|
      ensures After(list, e)[i].id == list[i].id
    {
      if !e.Restart? {
        EventMovesOn(list, e, i);
        hide After;
      }
    }
  }

  lemma LocalKeepsSound(c: Client, e: Event)
    requires Sound(c.lists)
    ensures Sound(AfterLocal(c, e).lists)
  {
    var l := AfterLocal(c, e).lists;
    assert SameIds(c.lists.servers, l.servers);
    EventKeepsIds(c.lists.bootstrap, e);
    EventSettles(c.lists.bootstrap, e);
    hide After, Tagged, WellFormed, AllSettled, SameIds;
    SameIdsWellFormed(c.lists, l);
  }

  lemma RefreshSound(o: Objects, l: Lists)
    requires Sound(l)
    ensures Sound(Discovered(o, Cleaned(l), false).1)
  {
    CleanedWellFormed(l);
    DiscoverCompletes(o, o.security, Cleaned(l));
    RefreshRestarts(o, l);
    hide WellFormed, AllSettled, Discover, Cleaned;
  }

  /** Changing the bootstrap list by an event keeps the lists sound. */
  lemma BootstrapKeepsSound(l: Lists, e: Event)
    requires Sound(l)
    ensures Sound(l.(bootstrap := After(l.bootstrap, e)))
  {
    EventKeepsIds(l.bootstrap, e);
    EventSettles(l.bootstrap, e);
    var m := l.(bootstrap := After(l.bootstrap, e));
    assert SameIds(l.servers, m.servers);
    hide After, WellFormed, AllSettled, SameIds;
    SameIdsWellFormed(l, m);
  }

  lemma {:induction false} AdvanceKeepsSound(c: Client, o: Objects, reg: Registration, now: int, env: Env,
                                             timeout: int)
    requires Sound(c.lists)
    ensures Sound(Advance(c, o, reg, now, env, timeout).client.lists)
    decreases Hops(c.state), if c.state.Initial? then 1 else 0
  {
    hide Sound, Discovered, Cleaned, AllTimeout, Joint;
    var l := c.lists;
    match c.state {
      case Initial =>
        RefreshSound(o, l);
        var d := Discovered(o, Cleaned(l), false);
        AdvanceKeepsSound(Client(if d.1.servers != [] then RegisterRequired else BootstrapRequired, d.1),
            o, reg, now, env, timeout);
      case BootstrapRequired =>
        BootstrapKeepsSound(l, Restart(env.connect));
        BootstrapKeepsSound(l.(bootstrap := AllStarted(l.bootstrap, env.connect)), Step(now, env));
      case Bootstrapping =>
        BootstrapKeepsSound(l, Step(now, env));
        AdvanceKeepsSound(c.(state := Initial), o, reg, now, env, timeout);
      case RegisterRequired =>
      case Registering =>
        AdvanceKeepsSound(c.(state := BootstrapRequired), o, reg, now, env, timeout);
      case Ready =>
        AdvanceKeepsSound(c.(state := BootstrapRequired), o, reg, now, env, timeout);
    }
  }

  /**
   Over every run of the client - steps, replies, commands, finishing, restarts, refreshes that succeed or fail -
   the lists stay sorted, no server is in both, and a bootstrap server that finished or failed holds no session.
   */
  lemma {:induction false} ClientRunSound(c: Client, events: seq<ClientEvent>)
    requires Sound(c.lists)
    ensures Sound(ClientRun(c, events).lists)
    decreases |events|
  {
    hide Sound, AfterLocal, Advance;
    if events != [] {
      match events[0] {
        case Local(e) => LocalKeepsSound(c, e);
        case Refresh(o) => RefreshSound(o, c.lists);
        case Tick(o, reg, now, env, timeout) => AdvanceKeepsSound(c, o, reg, now, env, timeout);
      }
      hide Discovered, Cleaned;
      ClientRunSound(ClientAfter(c, events[0]), events[1..]);
    }
  }

  //////////////////////////////////////////////////////////////////////////////
  // The methods
  //////////////////////////////////////////////////////////////////////////////

  /** The client: its state and the context with its server lists. */
  class Machine {
    const context: Context
    var state: ClientState

    constructor ()
      ensures fresh(context) && state == Initial && context.Value() == Lists([], [])
    {
      context := new Context();
      state := Initial;
    }

    ghost function Value(): Client
      reads this, context
    {
      Client(state, context.Value())
    }

    /** Starts all bootstrap servers over. */
    method BootstrapStart(connect: nat -> Session)
      modifies context
      ensures context.bootstrapServerList == AllStarted(old(context.bootstrapServerList), connect)
      ensures context.serverList == old(context.serverList)
    {
      hide Started;
      ghost var list := context.bootstrapServerList;
      var i := 0;
      while i < |context.bootstrapServerList|
        invariant i <= |context.bootstrapServerList| == |list| && context.serverList == old(context.serverList)
        invariant forall k | 0 <= k < |list| ::
          context.bootstrapServerList[k] == if k < i then Started(list[k], connect) else list[k]
      {
        var s := context.bootstrapServerList[i].(status := Deregistered);
        if s.session.Closed? {
          s := s.(session := connect(s.id));
        }
        StartedIs(list[i], connect);
        context.bootstrapServerList := context.bootstrapServerList[i := s];
        i := i + 1;
      }
    }

    /** Requests a bootstrap from one server. */
    method RequestBootstrap(s: Server, env: Env) returns (r: Server)
      ensures r == Requested(s, env)
    {
      r := s;
      if !env.nameFits {
        return r.(status := Failing);
      }
      if r.session.Closed? {
        r := r.(session := env.connect(r.id));
      }
      if !r.session.Closed? {
        if !env.created(r.id) {
          return r.(status := Failing);
        }
        if env.sent(r.id) {
          r := r.(status := Initiated);
        }
      } else {
        r := r.(status := Failed);
      }
    }

    method StepServer(s: Server, now: int, env: Env, timeout: int) returns (r: Server, t: int)
      ensures r == Stepped(s, now, env) && t == TimeoutAfter(s, now, timeout)
    {
      r, t := s, timeout;
      match s.status {
        case Deregistered =>
          r := r.(registration := now + r.lifetime, status := HoldOff);
          if t > r.lifetime {
            t := r.lifetime;
          }
        case HoldOff =>
          if r.registration <= now {
            r := RequestBootstrap(r, env);
          } else if t > r.registration - now {
            t := r.registration - now;
          }
        case Pending =>
          if r.registration <= now {
            r := r.(status := Failing);
            t := 0;
          } else if t > r.registration - now {
            t := r.registration - now;
          }
        case Finishing =>
          if !r.session.Closed? {
            r := r.(session := Closed);
          }
          r := r.(status := Finished);
          t := 0;
        case Failing =>
          if !r.session.Closed? {
            r := r.(session := Closed);
          }
          r := r.(status := Failed);
          t := 0;
        case _ =>
      }
    }

    /** Steps every bootstrap server and cuts the timeout to what they need. */
    method BootstrapStep(now: int, env: Env, timeout: int) returns (t: int)
      modifies context
      ensures context.bootstrapServerList == AllStepped(old(context.bootstrapServerList), now, env)
      ensures context.serverList == old(context.serverList)
      ensures t == AllTimeout(old(context.bootstrapServerList), now, timeout)
    {
      hide Stepped, TimeoutAfter;
      ghost var list := context.bootstrapServerList;
      t := timeout;
      var i := 0;
      while i < |context.bootstrapServerList|
        invariant i <= |context.bootstrapServerList| == |list| && context.serverList == old(context.serverList)
        invariant forall k | 0 <= k < |list| ::
          context.bootstrapServerList[k] == if k < i then Stepped(list[k], now, env) else list[k]
        invariant t == AllTimeout(list[..i], now, timeout)
      {
        assert list[..i + 1][..i] == list[..i];
        var s;
        s, t := StepServer(context.bootstrapServerList[i], now, env, t);
        context.bootstrapServerList := context.bootstrapServerList[i := s];
        i := i + 1;
      }
      assert list[..i] == list;
    }

    /** The joint status of the bootstrap servers. */
    method GetStatus() returns (status: Status)
      ensures status == Joint(context.bootstrapServerList)
    {
      var list := context.bootstrapServerList;
      status := Failed;
      var i := 0;
      while i < |list|
        invariant i <= |list| && status == Joint(list[..i])
      {
        JointNext(list, i);
        if list[i].status == Finished {
          if status == Failed {
            status := Finished;
          }
        } else if InProgress(list[i].status) {
          status := Pending;
        }
        i := i + 1;
      }
      assert list[..i] == list;
    }

    /** Takes the answer to a bootstrap request. */
    method HandleReply(at: nat, good: bool, when: int)
      requires at < |context.bootstrapServerList|
      modifies context
      ensures context.bootstrapServerList == After(old(context.bootstrapServerList), Reply(at, good, when))
      ensures context.serverList == old(context.serverList)
    {
      var s := context.bootstrapServerList[at];
      if s.status == Initiated {
        if good {
          s := s.(status := Pending, registration := when + EXCHANGE_LIFETIME);
        } else {
          s := s.(status := Failing);
        }
        context.bootstrapServerList := context.bootstrapServerList[at := s];
      }
    }

    /** Takes the bootstrap-finish message: 2.04, 4.06 when the servers it left are not usable, or ignored. */
    method HandleFinish(session: Session, o: Objects) returns (code: int)
      requires WellFormed(context.Value())
      modifies context
      ensures context.bootstrapServerList
           == After(old(context.bootstrapServerList), Finish(session, Discovered(o, old(context.Value()), true).0))
      ensures context.serverList == old(context.serverList)
      ensures code == 0x44 <==> context.bootstrapServerList != old(context.bootstrapServerList)
      ensures code == 0x86 <==> FromPending(old(context.bootstrapServerList), session)
                                && !Discovered(o, old(context.Value()), true).0
      ensures code == 0x01 <==> !FromPending(old(context.bootstrapServerList), session)
    {
      hide Discovered, WithSession;
      DryRunAgrees(o, context.Value());
      ghost var before := context.Value();
      var i := WithSession(context.bootstrapServerList, session);
      if i < |context.bootstrapServerList| && context.bootstrapServerList[i].status == Pending {
        var result := context.GetServers(o, true);
        assert context.Value() == before;
        if result == 0 {
          var s := context.bootstrapServerList[i].(status := Finishing);
          context.bootstrapServerList := context.bootstrapServerList[i := s];
          assert context.bootstrapServerList[i] != before.bootstrap[i];
          return 0x44;
        }
        return 0x86;
      }
      code := 0x01;
    }

    /** What a command does to the status of the server it came from. */
    method CheckServerStatus(s: Server, when: int) returns (ignored: bool, r: Server)
      ensures ignored == Checked(s, when).None?
      ensures r == if ignored then s else Checked(s, when).value
    {
      ignored, r := false, s;
      match s.status {
        case HoldOff => r := r.(status := Pending);
        case Initiated => r := r.(status := Pending);
        case Deregistered => r := r.(registration := when + EXCHANGE_LIFETIME);
        case Pending => r := r.(registration := when + EXCHANGE_LIFETIME);
        case _ => ignored := true;
      }
    }

    /** Marks the server of a Security instance to be dropped by the next refresh. */
    method TagServer(id: nat)
      requires WellFormed(context.Value())
      modifies context
      ensures context.bootstrapServerList == Tagged(old(context.bootstrapServerList), {id})
      ensures context.serverList == Tagged(old(context.serverList), {id})
    {
      TagsOne(context.bootstrapServerList, id);
      TagsOne(context.serverList, id);
      TagsElsewhere(context.Value(), id);
      hide Tagged, WithId, WellFormed;
      var i := WithId(context.bootstrapServerList, id);
      if i < |context.bootstrapServerList| {
        context.bootstrapServerList :=
          context.bootstrapServerList[i := context.bootstrapServerList[i].(dirty := true)];
      } else {
        i := WithId(context.serverList, id);
        if i < |context.serverList| {
          context.serverList := context.serverList[i := context.serverList[i].(dirty := true)];
        }
      }
    }

    method TagServers(ids: seq<nat>)
      requires WellFormed(context.Value())
      modifies context
      ensures context.bootstrapServerList == Tagged(old(context.bootstrapServerList), AsSet(ids))
      ensures context.serverList == Tagged(old(context.serverList), AsSet(ids))
    {
      ghost var l := context.Value();
      TagsNone(l.bootstrap);
      TagsNone(l.servers);
      hide WellFormed, Tagged;
      var i := 0;
      while i < |ids|
        invariant i <= |ids| && WellFormed(context.Value())
        invariant context.bootstrapServerList == Tagged(l.bootstrap, AsSet(ids[..i]))
        invariant context.serverList == Tagged(l.servers, AsSet(ids[..i]))
      {
        TagsTwice(l.bootstrap, ids, i);
        TagsTwice(l.servers, ids, i);
        TaggedWellFormed(context.Value(), {ids[i]});
        TagServer(ids[i]);
        i := i + 1;
      }
      assert ids[..i] == ids;
    }

    /** A command: the check before it, the servers of the Security instances it wrote or deleted, and its success. */
    method HandleCommand(at: nat, changed: bool, when: int, tags: seq<nat>) returns (ignored: bool)
      requires at < |context.bootstrapServerList| && WellFormed(context.Value())
      modifies this`state, context
      ensures Value() == AfterLocal(old(Value()), Command(at, changed, when, AsSet(tags)))
      ensures ignored == Checked(old(context.bootstrapServerList)[at], when).None?
    {
      ghost var c := Value();
      var s;
      ignored, s := CheckServerStatus(context.bootstrapServerList[at], when);
      if !ignored {
        context.bootstrapServerList := context.bootstrapServerList[at := s];
        ghost var checked := context.bootstrapServerList;
        SameIdsWellFormed(c.lists, context.Value());
        TagServers(tags);
        if changed && s.status != Pending {
          context.bootstrapServerList :=
            context.bootstrapServerList[at := context.bootstrapServerList[at].(status := Pending)];
          state := Bootstrapping;
        }
        TaggedLater(checked, at, Commanded(c.lists.bootstrap[at], when, changed), AsSet(tags));
      }
    }

    /** One step of the client; the states that lead on are passed in the same step. */
    method ClientStep(o: Objects, reg: Registration, now: int, env: Env, timeout: int) returns (code: int, t: int)
      requires WellFormed(context.Value())
      modifies this`state, context
      ensures Result(code, Value(), t) == Advance(old(Value()), o, reg, now, env, timeout)
    {
      hide Discovered, Cleaned, AllStepped, AllTimeout, AllStarted, Joint, WellFormed;
      ghost var target := Advance(Value(), o, reg, now, env, timeout);
      code, t := 0, timeout;
      while true
        invariant target == Advance(Value(), o, reg, now, env, timeout) && code == 0 && t == timeout
        invariant WellFormed(context.Value())
        decreases Hops(state), if state.Initial? then 1 else 0
      {
        match state {
          case Initial =>
            var result := context.RefreshServerList(o);
            if result != 0 {
              return 0xA3, t;
            }
            state := if context.serverList != [] then RegisterRequired else BootstrapRequired;
          case BootstrapRequired =>
            if context.bootstrapServerList == [] {
              return 0xA3, t;
            }
            BootstrapStart(env.connect);
            state := Bootstrapping;
            t := BootstrapStep(now, env, t);
            return 0, t;
          case Bootstrapping =>
            var status := GetStatus();
            if status == Finished {
              state := Initial;
            } else if status == Failed {
              return 0xA3, t;
            } else {
              t := BootstrapStep(now, env, t);
              return 0, t;
            }
          case RegisterRequired =>
            if reg.start != 0 {
              return reg.start, t;
            }
            state := Registering;
            return 0, t;
          case Registering =>
            if reg.status.Registered? {
              state := Ready;
              return 0, t;
            } else if reg.status.RegFailed? {
              state := BootstrapRequired;
            } else {
              return 0, t;
            }
          case Ready =>
            if reg.status.RegFailed? {
              state := BootstrapRequired;
            } else {
              return 0, t;
            }
        }
      }
    }
  }

  /** The first record with an id, or the length of the list. */
  function WithId(list: seq<Server>, id: nat): (i: nat)
    ensures i <= |list|
    ensures i < |list| ==> list[i].id == id
    ensures i == |list| ==> !Has(list, id)
  {
    if list == [] || list[0].id == id then 0
    else
      assert forall k | 0 < k < |list| :: list[k] == list[1..][k - 1];
      1 + WithId(list[1..], id)
  }

  function AsSet(ids: seq<nat>): set<nat> {
    set id | id in ids
  }

  lemma TagsOne(list: seq<Server>, id: nat)
    requires Ascending(list)
    ensures var i := WithId(list, id);
            Tagged(list, {id}) == if i < |list| then list[i := list[i].(dirty := true)] else list
  {
    hide WithId;
  }

  /** An id of a bootstrap server names no other server. */
  lemma TagsElsewhere(l: Lists, id: nat)
    requires WellFormed(l)
    ensures WithId(l.bootstrap, id) < |l.bootstrap| ==> Tagged(l.servers, {id}) == l.servers
    ensures WithId(l.bootstrap, id) == |l.bootstrap| ==> Tagged(l.bootstrap, {id}) == l.bootstrap
  {
    hide WithId;
  }

  lemma TagsNone(list: seq<Server>)
    ensures Tagged(list, AsSet([])) == list
  {
  }

  lemma TagsTwice(list: seq<Server>, ids: seq<nat>, i: nat)
    requires i < |ids|
    ensures Tagged(Tagged(list, AsSet(ids[..i])), {ids[i]}) == Tagged(list, AsSet(ids[..i + 1]))
  {
    assert ids[..i + 1] == ids[..i] + [ids[i]];
  }

  lemma TaggedWellFormed(l: Lists, ids: set<nat>)
    requires WellFormed(l)
    ensures WellFormed(Lists(Tagged(l.bootstrap, ids), Tagged(l.servers, ids)))
  {
    SameIdsWellFormed(l, Lists(Tagged(l.bootstrap, ids), Tagged(l.servers, ids)));
  }

  /** Marking commutes with what else happens to a server. */
  lemma TaggedLater(list: seq<Server>, at: nat, s: Server, ids: set<nat>)
    requires at < |list| && list[at].id == s.id && list[at].dirty == s.dirty
    requires s == list[at].(status := s.status)
    ensures Tagged(list[at := s], ids) == Tagged(list, ids)[at := Tagged(list, ids)[at].(status := s.status)]
  {
  }

  lemma StartedIs(s: Server, connect: nat -> Session)
    ensures var t := s.(status := Deregistered);
            Started(s, connect) == if t.session.Closed? then t.(session := connect(t.id)) else t
  {
  }

  lemma JointNext(list: seq<Server>, i: nat)
    requires i < |list|
    ensures Joint(list[..i + 1])
         == if InProgress(list[i].status) then Pending
            else if list[i].status == Finished && Joint(list[..i]) == Failed then Finished
            else Joint(list[..i])
  {
    var front, all := list[..i], list[..i + 1];
    assert all[i] == list[i] && forall k | 0 <= k < i :: all[k] == front[k];
    hide InProgress;
    if exists k :: 0 <= k < |front| && InProgress(front[k].status) {
      var k :| 0 <= k < |front| && InProgress(front[k].status);
      assert InProgress(all[k].status);
    }
    if exists k :: 0 <= k < |front| && front[k].status == Finished {
      var k :| 0 <= k < |front| && front[k].status == Finished;
      assert all[k].status == Finished;
    }
  }
}
