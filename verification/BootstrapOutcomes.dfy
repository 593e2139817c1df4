/** How a bootstrap ends and why: what has to happen in a run for a server to get into each of its states. */
module BootstrapOutcomes {
  import opened Servers
  import opened Bootstrap

  //////////////////////////////////////////////////////////////////////////////
  // Single events
  //////////////////////////////////////////////////////////////////////////////

  lemma {:induction false} RunSnoc(list: seq<Server>, events: seq<Event>, e: Event)
    ensures Run(list, events + [e]) == After(Run(list, events), e)
    decreases |events|
  {
    hide After;
    if events == [] {
      assert [] + [e] == [e] && [e][1..] == [];
      assert Run(After(list, e), []) == After(list, e);
    } else {
      assert (events + [e])[0] == events[0] && (events + [e])[1..] == events[1..] + [e];
      RunSnoc(After(list, events[0]), events[1..], e);
    }
  }

  /** The finish message of server i, while it is pending and the servers it left can be used. */
  predicate FinishedBy(list: seq<Server>, e: Event, i: nat)
    requires i < |list|
  {
    e.Finish? && e.complete && WithSession(list, e.session) == i && list[i].status == Pending
  }

  /** A step that finds server i due: it cannot send its request, or its deadline is over. */
  predicate GivenUpBy(list: seq<Server>, e: Event, i: nat)
    requires i < |list|
  {
    e.Step? && list[i].registration <= e.now
    && (list[i].status == Pending || (list[i].status == HoldOff && Unsendable(list[i], e.env)))
  }

  /** No name, no connection, or no transaction. */
  predicate Unsendable(s: Server, env: Env) {
    !env.nameFits || (s.session.Closed? && env.connect(s.id).Closed?) || !env.created(s.id)
  }

  /** The bootstrap server's refusal of the request of server i. */
  predicate RefusedBy(list: seq<Server>, e: Event, i: nat)
    requires i < |list|
  {
    e.Reply? && !e.good && e.at == i && list[i].status == Initiated
  }

  /** The request of server i goes out at the end of its hold-off time. */
  predicate AskedBy(list: seq<Server>, e: Event, i: nat)
    requires i < |list|
  {
    e.Step? && list[i].status == HoldOff && list[i].registration <= e.now
    && !Unsendable(list[i], e.env) && e.env.sent(list[i].id)
  }

  /** Server i is acknowledged, or sends a command while it holds off, is awaited, or was not started. */
  predicate AcknowledgedBy(list: seq<Server>, e: Event, i: nat)
    requires i < |list|
  {
    || (e.Reply? && e.good && e.at == i && list[i].status == Initiated)
    || ((e.Command? || e.DeleteAll?) && e.at == i && (list[i].status == HoldOff || list[i].status == Initiated))
    || (e.Command? && e.changed && e.at == i && list[i].status == Deregistered)
  }

  predicate Succeeded(s: Server) {
    s.status == Finishing || s.status == Finished
  }

  predicate GaveUp(s: Server) {
    s.status == Failing || s.status == Failed
  }

  lemma FirstWithSession(list: seq<Server>, session: Session, i: nat)
    requires i < |list|
    ensures WithSession(list, session) == i
       <==> list[i].session == session && forall j | 0 <= j < i :: list[j].session != session
  {
    WithSessionFirst(list, session);
  }

  lemma {:induction false} WithSessionFirst(list: seq<Server>, session: Session)
    ensures forall j | 0 <= j < WithSession(list, session) :: list[j].session != session
  {
    if list != [] && list[0].session != session {
      WithSessionFirst(list[1..], session);
      assert forall j | 0 < j < |list| :: list[j] == list[1..][j - 1];
    }
  }

  lemma SucceedsIff(list: seq<Server>, e: Event, i: nat)
    requires i < |list| && !e.Restart?
    ensures Succeeded(After(list, e)[i]) <==> Succeeded(list[i]) || FinishedBy(list, e, i)
  {
    hide WithSession;
  }

  lemma GivesUpIff(list: seq<Server>, e: Event, i: nat)
    requires i < |list| && !e.Restart?
    ensures GaveUp(After(list, e)[i]) <==> GaveUp(list[i]) || GivenUpBy(list, e, i) || RefusedBy(list, e, i)
  {
    hide WithSession;
  }

  /** A server waits for its acknowledgement exactly from the moment its request goes out. */
  lemma AsksIff(list: seq<Server>, e: Event, i: nat)
    requires i < |list| && list[i].status != Initiated
    ensures After(list, e)[i].status == Initiated <==> AskedBy(list, e, i)
  {
    hide WithSession;
  }

  lemma PendsIff(list: seq<Server>, e: Event, i: nat)
    requires i < |list| && list[i].status != Pending
    ensures After(list, e)[i].status == Pending <==> AcknowledgedBy(list, e, i)
  {
    hide WithSession;
  }

  /** After a step, a server whose bootstrap succeeded is finished and one that gave up has failed, without session. */
  lemma StepEnds(list: seq<Server>, now: int, env: Env, i: nat)
    requires i < |list|
    ensures var s := After(list, Step(now, env))[i];
            && (s.status == Finished <==> Succeeded(list[i]))
            && (GaveUp(list[i]) ==> s.status == Failed)
            && (list[i].status == Finishing || list[i].status == Failing ==> s.session == Closed)
  {
  }

  /** Failed without a step in between are exactly the servers that are due and cannot be connected to. */
  lemma FailsAtOnceIff(list: seq<Server>, e: Event, i: nat)
    requires i < |list| && !e.Restart? && !GaveUp(list[i])
    ensures After(list, e)[i].status == Failed
       <==> e.Step? && list[i].status == HoldOff && list[i].registration <= e.now && e.env.nameFits
            && list[i].session == Closed && e.env.connect(list[i].id) == Closed
  {
    hide WithSession;
  }

  /** The deadline of a server: its hold-off time from a first step, else the exchange lifetime from a message. */
  lemma DeadlineSet(list: seq<Server>, e: Event, i: nat)
    requires i < |list|
    ensures After(list, e)[i].registration
         == if e.Step? && list[i].status == Deregistered then e.now + list[i].lifetime
            else if e.Reply? && e.at == i && e.good && list[i].status == Initiated then e.when + 294
            else if (e.Command? || e.DeleteAll?) && e.at == i
                    && (list[i].status == Deregistered || list[i].status == Pending) then e.when + 294
            else list[i].registration
  {
    hide WithSession;
  }

  /** What never changes in a server's record, and that only commands mark it. */
  lemma RecordKept(list: seq<Server>, e: Event, i: nat)
    requires i < |list|
    ensures var s, t := list[i], After(list, e)[i];
            && t.id == s.id && t.shortId == s.shortId && t.instance == s.instance
            && t.lifetime == s.lifetime && t.binding == s.binding
            && (t.dirty != s.dirty ==> (e.Command? || e.DeleteAll?) && s.id in e.tags && t.dirty)
  {
    hide WithSession;
  }

  //////////////////////////////////////////////////////////////////////////////
  // Runs
  //////////////////////////////////////////////////////////////////////////////

  /** At the k-th event of a run. */
  predicate FinishedAt(list: seq<Server>, events: seq<Event>, k: nat, i: nat)
    requires i < |list|
  {
    k < |events| && FinishedBy(Run(list, events[..k]), events[k], i)
  }

  predicate EndedAt(list: seq<Server>, events: seq<Event>, k: nat, i: nat)
    requires i < |list|
  {
    k < |events| && (GivenUpBy(Run(list, events[..k]), events[k], i) || RefusedBy(Run(list, events[..k]), events[k], i))
  }

  predicate AcknowledgedAt(list: seq<Server>, events: seq<Event>, k: nat, i: nat)
    requires i < |list|
  {
    k < |events| && AcknowledgedBy(Run(list, events[..k]), events[k], i)
  }

  predicate AskedAt(list: seq<Server>, events: seq<Event>, k: nat, i: nat)
    requires i < |list|
  {
    k < |events| && AskedBy(Run(list, events[..k]), events[k], i)
  }

  /** The events before the last one. */
  lemma LastEvent(list: seq<Server>, events: seq<Event>)
    requires events != []
    ensures Run(list, events) == After(Run(list, events[..|events| - 1]), events[|events| - 1])
  {
    var front, e := events[..|events| - 1], events[|events| - 1];
    assert events == front + [e];
    hide After;
    RunSnoc(list, front, e);
  }

  lemma SamePrefixes(events: seq<Event>, k: nat)
    requires k < |events| - 1
    ensures events[..|events| - 1][..k] == events[..k] && events[..|events| - 1][k] == events[k]
  {
  }

  /** Moments of the front of a run are moments of the run; the last event is the other one. */
  lemma FinishedMoments(list: seq<Server>, events: seq<Event>, front: seq<Event>, e: Event, i: nat)
    requires i < |list| && events == front + [e]
    ensures (exists k: nat :: FinishedAt(list, events, k, i))
       <==> (exists k: nat :: FinishedAt(list, front, k, i)) || FinishedBy(Run(list, front), e, i)
  {
    hide Run, FinishedBy;
    var n := |front|;
    assert events[..n] == front;
    forall k: nat
      ensures FinishedAt(list, events, k, i)
         <==> FinishedAt(list, front, k, i) || (k == n && FinishedBy(Run(list, front), e, i))
    {
      if k < n {
        SamePrefixes(events, k);
      }
    }
    assert FinishedBy(Run(list, front), e, i) ==> FinishedAt(list, events, n, i);
  }

  /**
   Without a restart a server's bootstrap has succeeded exactly if it had before, or at some point the finish message
   came from it while it was pending and what it left could be used.
   */
  lemma {:induction false} SucceededInRunIff(list: seq<Server>, events: seq<Event>, i: nat)
    requires i < |list| && NoRestart(events)
    ensures Succeeded(Run(list, events)[i]) <==> Succeeded(list[i]) || exists k: nat :: FinishedAt(list, events, k, i)
    decreases |events|
  {
    if events == [] {
      assert forall k: nat :: !FinishedAt(list, events, k, i);
    } else {
      var n := |events| - 1;
      var front, e := events[..n], events[n];
      assert NoRestart(front) && !e.Restart?;
      LastEvent(list, events);
      hide *;
      SucceededInRunIff(list, front, i);
      SucceedsIff(Run(list, front), e, i);
      assert events == front + [e];
      FinishedMoments(list, events, front, e, i);
    }
  }

  lemma EndedMoments(list: seq<Server>, events: seq<Event>, front: seq<Event>, e: Event, i: nat)
    requires i < |list| && events == front + [e]
    ensures (exists k: nat :: EndedAt(list, events, k, i))
       <==> (exists k: nat :: EndedAt(list, front, k, i))
            || GivenUpBy(Run(list, front), e, i) || RefusedBy(Run(list, front), e, i)
  {
    hide Run, GivenUpBy, RefusedBy;
    var n := |front|;
    assert events[..n] == front;
    forall k: nat
      ensures EndedAt(list, events, k, i)
         <==> EndedAt(list, front, k, i)
              || (k == n && (GivenUpBy(Run(list, front), e, i) || RefusedBy(Run(list, front), e, i)))
    {
      if k < n {
        SamePrefixes(events, k);
      }
    }
    assert GivenUpBy(Run(list, front), e, i) || RefusedBy(Run(list, front), e, i) ==> EndedAt(list, events, n, i);
  }

  /**
   And it was given up exactly if it had been before, or at some point it was refused, its request could not be sent,
   or a step found its deadline over.
   */
  lemma {:induction false} GaveUpInRunIff(list: seq<Server>, events: seq<Event>, i: nat)
    requires i < |list| && NoRestart(events)
    ensures GaveUp(Run(list, events)[i]) <==> GaveUp(list[i]) || exists k: nat :: EndedAt(list, events, k, i)
    decreases |events|
  {
    if events == [] {
      assert forall k: nat :: !EndedAt(list, events, k, i);
    } else {
      var n := |events| - 1;
      var front, e := events[..n], events[n];
      assert NoRestart(front) && !e.Restart?;
      LastEvent(list, events);
      hide *;
      GaveUpInRunIff(list, front, i);
      GivesUpIff(Run(list, front), e, i);
      assert events == front + [e];
      EndedMoments(list, events, front, e, i);
    }
  }

  lemma StartLacks(list: seq<Server>, events: seq<Event>, i: nat, k: nat)
    requires i < |list| && events != [] && k < |events| - 1
    ensures AcknowledgedAt(list, events[..|events| - 1], k, i) ==> AcknowledgedAt(list, events, k, i)
    ensures AskedAt(list, events[..|events| - 1], k, i) ==> AskedAt(list, events, k, i)
  {
    SamePrefixes(events, k);
    hide Run, AcknowledgedBy, AskedBy;
  }

  /** A pending server was pending before, or became so by an acknowledgement or a command that was taken. */
  lemma {:induction false} PendingHasReason(list: seq<Server>, events: seq<Event>, i: nat)
    requires i < |list| && Run(list, events)[i].status == Pending && list[i].status != Pending
    ensures exists k: nat :: AcknowledgedAt(list, events, k, i)
    decreases |events|
  {
    if events != [] {
      var n := |events| - 1;
      var front, e := events[..n], events[n];
      LastEvent(list, events);
      hide Run, After, AcknowledgedBy;
      if Run(list, front)[i].status == Pending {
        PendingHasReason(list, front, i);
        var k: nat :| AcknowledgedAt(list, front, k, i);
        StartLacks(list, events, i, k);
      } else {
        PendsIff(Run(list, front), e, i);
        assert AcknowledgedAt(list, events, n, i);
      }
    }
  }

  /** A server that is awaited was asked at the end of its hold-off time. */
  lemma {:induction false} AwaitedWasAsked(list: seq<Server>, events: seq<Event>, i: nat)
    requires i < |list| && Run(list, events)[i].status == Initiated && list[i].status != Initiated
    ensures exists k: nat :: AskedAt(list, events, k, i)
    decreases |events|
  {
    if events != [] {
      var n := |events| - 1;
      var front, e := events[..n], events[n];
      LastEvent(list, events);
      hide Run, After, AskedBy;
      if Run(list, front)[i].status == Initiated {
        AwaitedWasAsked(list, front, i);
        var k: nat :| AskedAt(list, front, k, i);
        StartLacks(list, events, i, k);
      } else {
        AsksIff(Run(list, front), e, i);
        assert AskedAt(list, events, n, i);
      }
    }
  }

  /** After a further step a server that had not ended is finished exactly if its finish message came in the run. */
  lemma FinishedAfterStepIff(list: seq<Server>, events: seq<Event>, now: int, env: Env, i: nat)
    requires i < |list| && NoRestart(events) && Rank(list[i].status) <= 3
    ensures Run(list, events + [Step(now, env)])[i].status == Finished
       <==> exists k: nat :: FinishedAt(list, events, k, i)
  {
    assert !Succeeded(list[i]);
    hide *;
    RunSnoc(list, events, Step(now, env));
    SucceededInRunIff(list, events, i);
    StepEnds(Run(list, events), now, env, i);
  }

  //////////////////////////////////////////////////////////////////////////////
  // The timeout
  //////////////////////////////////////////////////////////////////////////////

  /** After what time a server has to be stepped again. */
  predicate WantsStepAfter(s: Server, now: int, t: int) {
    || (s.status == Deregistered && t == s.lifetime)
    || (s.status == HoldOff && s.registration > now && t == s.registration - now)
    || (s.status == Pending && t == if s.registration > now then s.registration - now else 0)
    || ((s.status == Finishing || s.status == Failing) && t == 0)
  }

  lemma TimeoutOfOne(s: Server, now: int, timeout: int)
    requires 0 <= timeout
    ensures TimeoutAfter(s, now, timeout) == timeout || WantsStepAfter(s, now, TimeoutAfter(s, now, timeout))
    ensures forall t | WantsStepAfter(s, now, t) :: TimeoutAfter(s, now, timeout) <= t
    ensures 0 <= TimeoutAfter(s, now, timeout) <= timeout
  {
  }

  /** The timeout becomes the least of the given one and the times after which a server has to be stepped again. */
  lemma {:induction false} TimeoutIsLeast(list: seq<Server>, now: int, timeout: int)
    requires 0 <= timeout
    ensures 0 <= AllTimeout(list, now, timeout) <= timeout
    ensures forall s, t | s in list && WantsStepAfter(s, now, t) :: AllTimeout(list, now, timeout) <= t
    ensures AllTimeout(list, now, timeout) == timeout
            || exists s :: s in list && WantsStepAfter(s, now, AllTimeout(list, now, timeout))
  {
    hide TimeoutAfter, WantsStepAfter;
    if list != [] {
      var front, last := list[..|list| - 1], list[|list| - 1];
      TimeoutIsLeast(front, now, timeout);
      TimeoutOfOne(last, now, AllTimeout(front, now, timeout));
      assert list == front + [last];
    }
  }

  //////////////////////////////////////////////////////////////////////////////
  // The joint status
  //////////////////////////////////////////////////////////////////////////////

  /** Pending while some server is between hold-off and its end; finished if one finished and none is. */
  lemma JointIff(list: seq<Server>)
    ensures Joint(list) == Pending
       <==> exists s :: s in list && s.status in {HoldOff, Initiated, Pending, Finishing, Failing}
    ensures Joint(list) == Finished
       <==> (forall s | s in list :: s.status in {Deregistered, Finished, Failed, Other})
            && exists s :: s in list && s.status == Finished
  {
    InProgressIs();
    hide InProgress;
    assert forall i | 0 <= i < |list| :: list[i] in list;
  }

  lemma InProgressIs()
    ensures forall s: Status :: InProgress(s) <==> s in {HoldOff, Initiated, Pending, Finishing, Failing}
  {
  }

  //////////////////////////////////////////////////////////////////////////////
  // The client
  //////////////////////////////////////////////////////////////////////////////

  /** Whether a step refreshes the server lists. */
  predicate Refreshes(c: Client) {
    c.state.Initial? || (c.state.Bootstrapping? && Joint(c.lists.bootstrap) == Finished)
  }

  /** Whether it starts a bootstrap right away. */
  predicate StartsOver(c: Client, reg: Registration) {
    c.state.BootstrapRequired? || ((c.state.Registering? || c.state.Ready?) && reg.status.RegFailed?)
  }

  function Refreshed(c: Client, o: Objects): (bool, Lists) {
    Discovered(o, Cleaned(c.lists), false)
  }

  lemma AfterRegisterRequired(l: Lists, o: Objects, reg: Registration, now: int, env: Env, timeout: int)
    ensures Advance(Client(RegisterRequired, l), o, reg, now, env, timeout)
         == if reg.start != 0 then Result(reg.start, Client(RegisterRequired, l), timeout)
            else Result(0, Client(Registering, l), timeout)
  {
  }

  lemma AfterBootstrapRequired(l: Lists, o: Objects, reg: Registration, now: int, env: Env, timeout: int)
    ensures var r := Advance(Client(BootstrapRequired, l), o, reg, now, env, timeout);
            if l.bootstrap == [] then r == Result(0xA3, Client(BootstrapRequired, l), timeout)
            else r.code == 0 && r.client.state == Bootstrapping
  {
    hide AllStepped, AllStarted, AllTimeout;
  }

  lemma AfterInitial(l: Lists, o: Objects, reg: Registration, now: int, env: Env, timeout: int)
    ensures var d := Discovered(o, Cleaned(l), false);
            Advance(Client(Initial, l), o, reg, now, env, timeout)
            == if !d.0 then Result(0xA3, Client(Initial, d.1), timeout)
               else Advance(Client(if d.1.servers != [] then RegisterRequired else BootstrapRequired, d.1), o, reg, now,
                            env, timeout)
  {
    hide Discovered, Cleaned, AllStepped, AllStarted, AllTimeout, Joint;
  }

  /** A step of the client ends ready exactly when it was registering and is registered, or ready and still is. */
  lemma ReadyIff(c: Client, o: Objects, reg: Registration, now: int, env: Env, timeout: int)
    ensures Advance(c, o, reg, now, env, timeout).client.state == Ready
       <==> (c.state == Registering && reg.status == Registered) || (c.state == Ready && reg.status != RegFailed)
  {
    var d := Refreshed(c, o);
    AfterInitial(c.lists, o, reg, now, env, timeout);
    AfterRegisterRequired(d.1, o, reg, now, env, timeout);
    AfterBootstrapRequired(d.1, o, reg, now, env, timeout);
    AfterBootstrapRequired(c.lists, o, reg, now, env, timeout);
    hide Discovered, Cleaned, AllStepped, AllTimeout, AllStarted, Joint;
  }

  /** It ends registering exactly when registration goes on, or is started with servers that are known or refreshed. */
  lemma RegisteringIff(c: Client, o: Objects, reg: Registration, now: int, env: Env, timeout: int)
    ensures Advance(c, o, reg, now, env, timeout).client.state == Registering
       <==> (c.state == Registering && reg.status == RegPending)
            || (c.state == RegisterRequired && reg.start == 0)
            || (Refreshes(c) && Refreshed(c, o).0 && Refreshed(c, o).1.servers != [] && reg.start == 0)
  {
    var d := Refreshed(c, o);
    AfterInitial(c.lists, o, reg, now, env, timeout);
    AfterRegisterRequired(d.1, o, reg, now, env, timeout);
    AfterBootstrapRequired(d.1, o, reg, now, env, timeout);
    AfterBootstrapRequired(c.lists, o, reg, now, env, timeout);
    hide Discovered, Cleaned, AllStepped, AllTimeout, AllStarted, Joint;
  }

  /** It fails exactly when a refresh or registration fails, or a bootstrap failed or has no server to start. */
  lemma StepFailsIff(c: Client, o: Objects, reg: Registration, now: int, env: Env, timeout: int)
    ensures Advance(c, o, reg, now, env, timeout).code != 0
       <==> (c.state == Bootstrapping && Joint(c.lists.bootstrap) == Failed)
            || (c.state == RegisterRequired && reg.start != 0)
            || (StartsOver(c, reg) && c.lists.bootstrap == [])
            || (Refreshes(c) && !Refreshed(c, o).0)
            || (Refreshes(c) && Refreshed(c, o).1.servers != [] && reg.start != 0)
            || (Refreshes(c) && Refreshed(c, o).1.servers == [] && Refreshed(c, o).1.bootstrap == [])
  {
    var d := Refreshed(c, o);
    AfterInitial(c.lists, o, reg, now, env, timeout);
    AfterRegisterRequired(d.1, o, reg, now, env, timeout);
    AfterBootstrapRequired(d.1, o, reg, now, env, timeout);
    AfterBootstrapRequired(c.lists, o, reg, now, env, timeout);
    hide Discovered, Cleaned, AllStepped, AllTimeout, AllStarted, Joint;
  }

  /** It ends bootstrapping exactly when a bootstrap goes on, is started over, or is started after a refresh. */
  lemma BootstrappingIff(c: Client, o: Objects, reg: Registration, now: int, env: Env, timeout: int)
    ensures Advance(c, o, reg, now, env, timeout).code == 0
            && Advance(c, o, reg, now, env, timeout).client.state == Bootstrapping
       <==> (c.state == Bootstrapping && Joint(c.lists.bootstrap) == Pending)
            || (StartsOver(c, reg) && c.lists.bootstrap != [])
            || (Refreshes(c) && Refreshed(c, o).0 && Refreshed(c, o).1.servers == []
                && Refreshed(c, o).1.bootstrap != [])
  {
    var d := Refreshed(c, o);
    AfterInitial(c.lists, o, reg, now, env, timeout);
    AfterRegisterRequired(d.1, o, reg, now, env, timeout);
    AfterBootstrapRequired(d.1, o, reg, now, env, timeout);
    AfterBootstrapRequired(c.lists, o, reg, now, env, timeout);
    JointValues(c.lists.bootstrap);
    hide Discovered, Cleaned, AllStepped, AllTimeout, AllStarted, Joint;
  }

  lemma JointValues(list: seq<Server>)
    ensures Joint(list) in {Pending, Finished, Failed}
  {
  }

  /** A bootstrap that is started over leaves every server holding off for its lifetime, with a session if it can. */
  lemma StartedOver(c: Client, o: Objects, reg: Registration, now: int, env: Env, timeout: int)
    requires StartsOver(c, reg) && c.lists.bootstrap != []
    ensures var was, l := c.lists.bootstrap, Advance(c, o, reg, now, env, timeout).client.lists;
            && l.servers == c.lists.servers && |l.bootstrap| == |was|
            && forall i | 0 <= i < |was| ::
                 && l.bootstrap[i].status == HoldOff && l.bootstrap[i].registration == now + was[i].lifetime
                 && (was[i].session != Closed ==> l.bootstrap[i].session == was[i].session)
                 && (was[i].session == Closed ==> l.bootstrap[i].session == env.connect(was[i].id))
  {
    hide AllTimeout;
  }

  /** A step that ends in a failure reports 5.03, or the error of the registration it tried. */
  lemma FailureCode(c: Client, o: Objects, reg: Registration, now: int, env: Env, timeout: int)
    ensures var r := Advance(c, o, reg, now, env, timeout);
            r.code != 0 ==> r.code == if r.client.state == RegisterRequired then reg.start else 0xA3
  {
    var d := Refreshed(c, o);
    AfterInitial(c.lists, o, reg, now, env, timeout);
    AfterRegisterRequired(d.1, o, reg, now, env, timeout);
    AfterBootstrapRequired(d.1, o, reg, now, env, timeout);
    AfterBootstrapRequired(c.lists, o, reg, now, env, timeout);
    hide Discovered, Cleaned, AllStepped, AllTimeout, AllStarted, Joint;
  }

  //////////////////////////////////////////////////////////////////////////////
  // Sessions, marks and restarts
  //////////////////////////////////////////////////////////////////////////////

  /** A session is opened for a request that is due, and closed at the end; nothing else but a restart changes it. */
  lemma SessionSet(list: seq<Server>, e: Event, i: nat)
    requires i < |list| && !e.Restart?
    ensures After(list, e)[i].session
         == if e.Step? && list[i].status == HoldOff && list[i].registration <= e.now && e.env.nameFits
               && list[i].session == Closed then e.env.connect(list[i].id)
            else if e.Step? && (list[i].status == Finishing || list[i].status == Failing) then Closed
            else list[i].session
  {
    hide WithSession;
  }

  /** A restart puts every server back to its start, and opens the sessions that are closed. */
  lemma RestartIs(list: seq<Server>, connect: nat -> Session, i: nat)
    requires i < |list|
    ensures var s, t := list[i], After(list, Restart(connect))[i];
            t == s.(status := Deregistered, session := if s.session == Closed then connect(s.id) else s.session)
  {
  }

  /** Marked are exactly those that were, and those named by a command of a server in one of four states. */
  lemma MarkedIff(list: seq<Server>, e: Event, i: nat)
    requires i < |list|
    ensures After(list, e)[i].dirty
       <==> list[i].dirty
            || ((e.Command? || e.DeleteAll?) && list[i].id in e.tags && e.at < |list|
                && list[e.at].status in {Deregistered, HoldOff, Initiated, Pending})
  {
    hide WithSession;
  }
}
