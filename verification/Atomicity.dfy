/**
 The quota-checked add is not made under one lock, but it acts as if it were: when, and when not.

 Every run of a `System` is compared with its log, the list of effects in the order in which they
 happened. `Replay` carries the same effects out one after the other with nothing in between.
 */
module Atomicity {
  import opened Bytes
  import opened Registry
  import opened Quota

  /** None when an add would have been decided, or a search have ended, otherwise than it did. */
  function Replay<T(==)>(limit: int, clients: seq<T>, log: seq<Entry<T>>): Option<seq<T>> {
    if log == [] then Some(clients)
    else
      match Replay(limit, clients, log[..|log| - 1])
      case None => None
      case Some(before) => ReplayOne(limit, before, log[|log| - 1])
  }

  function ReplayOne<T(==)>(limit: int, clients: seq<T>, entry: Entry<T>): Option<seq<T>> {
    match entry
    case Admitted(a) =>
      if a.added == HasRoom(limit, clients) then Some(Admit(limit, clients, a.client)) else None
    case Did(op) => Some(DirectEffect(clients, op))
    case Found(wanted, found) => if found == FirstIn(clients, wanted) then Some(clients) else None
  }

  lemma ReplaySnoc<T>(limit: int, clients: seq<T>, log: seq<Entry<T>>, e: Entry<T>)
    ensures Replay(limit, clients, log + [e])
         == match Replay(limit, clients, log)
            case None => None
            case Some(before) => ReplayOne(limit, before, e)
  {
    assert (log + [e])[..|log|] == log;
  }

  // ---------- When a run can be replayed ----------

  /** Each time a client was appended through the user, there was room for it at that very moment. */
  predicate AppendsFindRoom<T(==)>(limit: int, s: System<T>, steps: seq<Step<T>>)
    decreases |steps|
  {
    steps == [] ||
    match Do(limit, s, steps[0])
    case None => true
    case Some(next) => (steps[0].Append? ==> HasRoom(limit, s.clients)) && AppendsFindRoom(limit, next, steps[1..])
  }

  /**
   What a step adds to the log, at most one entry, and what that says: how the entry replays, which
   change it is, and whether a result has come up with it.
   */
  lemma LogStep<T>(limit: int, s: System<T>, step: Step<T>)
    requires Do(limit, s, step).Some?
    ensures var s' := Do(limit, s, step).value;
            var locked := InUserLock(PcOf(s, step.thread)) <==> s.userLock == Some(step.thread);
            if s'.log == s.log then !step.Append? && s'.clients == s.clients && (locked ==> Entered(s, s') == [])
            else
              var e := s'.log[|s'.log| - 1];
              && s'.log == s.log + [e]
              && ReplayOne(limit, s.clients, e)
                 == (if step.Append? && !HasRoom(limit, s.clients) then None else Some(s'.clients))
              && s'.clients == (if ChangeOf(e) == [] then s.clients else Effect(s.clients, ChangeOf(e)[0]))
              && (locked ==> Entered(s, s') == if e.Admitted? then [e.admission] else [])
              && (e.Found? ==> e.found == FirstIn(s.clients, e.wanted))
  {
  }

  lemma ReplayStep<T>(limit: int, initially: seq<T>, s: System<T>, step: Step<T>)
    requires Do(limit, s, step).Some?
    ensures var s' := Do(limit, s, step).value;
            && (Replay(limit, initially, s.log) == None ==> Replay(limit, initially, s'.log) == None)
            && (Replay(limit, initially, s.log) == Some(s.clients) ==>
                  Replay(limit, initially, s'.log)
                    == if step.Append? && !HasRoom(limit, s.clients) then None else Some(s'.clients))
  {
    LogStep(limit, s, step);
    var s' := Do(limit, s, step).value;
    if s'.log != s.log {
      ReplaySnoc(limit, initially, s.log, s'.log[|s'.log| - 1]);
    }
  }

  lemma {:induction false} NoReplayRun<T>(limit: int, initially: seq<T>, s: System<T>, steps: seq<Step<T>>)
    requires Exec(limit, s, steps).Some? && Replay(limit, initially, s.log) == None
    ensures Replay(limit, initially, Exec(limit, s, steps).value.log) == None
    decreases |steps|
  {
    if steps == [] {
    } else {
      ReplayStep(limit, initially, s, steps[0]);
      NoReplayRun(limit, initially, Do(limit, s, steps[0]).value, steps[1..]);
    }
  }

  lemma {:induction false} ReplayRun<T>(limit: int, initially: seq<T>, s: System<T>, steps: seq<Step<T>>)
    requires Exec(limit, s, steps).Some? && Replay(limit, initially, s.log) == Some(s.clients)
    ensures var s' := Exec(limit, s, steps).value;
            Replay(limit, initially, s'.log) == if AppendsFindRoom(limit, s, steps) then Some(s'.clients) else None
    decreases |steps|
  {
    if steps == [] {
    } else {
      var next := Do(limit, s, steps[0]).value;
      ReplayStep(limit, initially, s, steps[0]);
      if steps[0].Append? && !HasRoom(limit, s.clients) {
        NoReplayRun(limit, initially, next, steps[1..]);
      } else {
        ReplayRun(limit, initially, next, steps[1..]);
      }
    }
  }

  /**
   Exactly when an interleaving is equivalent to its operations one at a time, in the order of the
   log, with every add decided and every search ended as it was: when every append found room.
   */
  lemma AtomicIffAppendsFindRoom<T>(limit: int, initially: seq<T>, steps: seq<Step<T>>)
    requires Exec(limit, Start(initially), steps).Some?
    ensures var s := Exec(limit, Start(initially), steps).value;
            Replay(limit, initially, s.log) == Some(s.clients) <==> AppendsFindRoom(limit, Start(initially), steps)
  {
    ReplayRun(limit, initially, Start(initially), steps);
  }

  // ---------- When every append finds room ----------

  /** Some thread has passed the check and has not appended yet. */
  predicate GrantPending<T>(s: System<T>) {
    s.userLock.Some? && MayAppend(PcOf(s, s.userLock.value))
  }

  predicate IsUncheckedAdd<T>(s: System<T>, step: Step<T>) {
    step.DoDirect? && PcOf(s, step.thread).DirectEntered? && PcOf(s, step.thread).op.AddSocket?
  }

  /** No client is registered past the user between a check that was passed and its append. */
  predicate NoUncheckedAddInWindow<T(==)>(limit: int, s: System<T>, steps: seq<Step<T>>)
    decreases |steps|
  {
    steps == [] ||
    match Do(limit, s, steps[0])
    case None => true
    case Some(next) =>
      (IsUncheckedAdd(s, steps[0]) ==> !GrantPending(s)) && NoUncheckedAddInWindow(limit, next, steps[1..])
  }

  lemma RoomStep<T>(limit: int, s: System<T>, step: Step<T>)
    requires LocksHeld(s) && Do(limit, s, step).Some?
    requires GrantPending(s) ==> HasRoom(limit, s.clients)
    requires limit == NO_LIMIT || (IsUncheckedAdd(s, step) ==> !GrantPending(s))
    ensures var s' := Do(limit, s, step).value; GrantPending(s') ==> HasRoom(limit, s'.clients)
  {
    var s', t := Do(limit, s, step).value, step.thread;
    assert InUserLock(PcOf(s, t)) <==> s.userLock == Some(t);
    assert forall u: Tid :: u != t ==> PcOf(s', u) == PcOf(s, u);
    if step.DoDirect? && PcOf(s, t).op.Delete? {
      RemoveFirstLength(s.clients, PcOf(s, t).op.client);
    }
  }

  lemma {:induction false} RoomRun<T>(limit: int, s: System<T>, steps: seq<Step<T>>)
    requires LocksHeld(s) && Exec(limit, s, steps).Some?
    requires GrantPending(s) ==> HasRoom(limit, s.clients)
    requires limit == NO_LIMIT || NoUncheckedAddInWindow(limit, s, steps)
    ensures AppendsFindRoom(limit, s, steps)
    decreases |steps|
  {
    if steps == [] {
    } else {
      LocksStep(limit, s, steps[0]);
      RoomStep(limit, s, steps[0]);
      assert steps[0].Append? ==> s.userLock == Some(steps[0].thread) && GrantPending(s) by {
        assert InUserLock(PcOf(s, steps[0].thread)) <==> s.userLock == Some(steps[0].thread);
      }
      RoomRun(limit, Do(limit, s, steps[0]).value, steps[1..]);
    }
  }

  /**
   The checked add is atomic in every run in which nobody registers a client past the user while a
   thread is between its check and its append, and in every run without a limit.
   */
  lemma AddIsAtomic<T>(limit: int, initially: seq<T>, steps: seq<Step<T>>)
    requires Exec(limit, Start(initially), steps).Some?
    requires limit == NO_LIMIT || NoUncheckedAddInWindow(limit, Start(initially), steps)
    ensures var s := Exec(limit, Start(initially), steps).value;
            Replay(limit, initially, s.log) == Some(s.clients)
  {
    StartLocks(initially);
    RoomRun(limit, Start(initially), steps);
    AtomicIffAppendsFindRoom(limit, initially, steps);
  }

  ghost predicate NoSocketEntered<T>(s: System<T>) {
    forall t: Tid :: PcOf(s, t).DirectEntered? ==> !PcOf(s, t).op.AddSocket?
  }

  lemma {:induction false} NoSocketsRun<T>(limit: int, s: System<T>, steps: seq<Step<T>>)
    requires NoSocketEntered(s) && Exec(limit, s, steps).Some?
    requires forall step :: step in steps ==> !StartsUncheckedAdd(step)
    ensures NoUncheckedAddInWindow(limit, s, steps)
    decreases |steps|
  {
    if steps == [] {
    } else {
      var s' := Do(limit, s, steps[0]).value;
      assert !StartsUncheckedAdd(steps[0]);
      assert forall u: Tid :: u != steps[0].thread ==> PcOf(s', u) == PcOf(s, u);
      NoSocketsRun(limit, s', steps[1..]);
    }
  }

  /** In particular it is atomic when all clients come in through the user, as they do in this server. */
  lemma AddIsAtomicWithoutSockets<T>(limit: int, initially: seq<T>, steps: seq<Step<T>>)
    requires Exec(limit, Start(initially), steps).Some?
    requires forall step :: step in steps ==> !StartsUncheckedAdd(step)
    ensures var s := Exec(limit, Start(initially), steps).value;
            Replay(limit, initially, s.log) == Some(s.clients)
  {
    NoSocketsRun(limit, Start(initially), steps);
    AddIsAtomic(limit, initially, steps);
  }

  // ---------- When it is not atomic ----------

  lemma TwoOrders<E>(log: seq<E>, a: E, b: E)
    requires a != b && multiset(log) == multiset([a, b])
    ensures log == [a, b] || log == [b, a]
  {
    assert |log| == |multiset(log)| == 2;
    assert log[0] in multiset(log) && log[1] in multiset(log);
    assert log == [log[0], log[1]];
    assert multiset(log)[a] == 1 && multiset(log)[b] == 1;
  }

  lemma ReplayOfTwo<T>(limit: int, clients: seq<T>, a: Entry<T>, b: Entry<T>)
    ensures Replay(limit, clients, [a, b])
         == match ReplayOne(limit, clients, a)
            case None => None
            case Some(between) => ReplayOne(limit, between, b)
  {
    var none: seq<Entry<T>> := [];
    assert none + [a] == [a] && [a] + [b] == [a, b];
    ReplaySnoc(limit, clients, none, a);
    ReplaySnoc(limit, clients, [a], b);
  }

  lemma NoOrderExplains<T>(one: T, other: T, log: seq<Entry<T>>)
    requires one != other
    requires multiset(log) == multiset([Did(AddSocket(other)), Admitted(Admission(0, one, true))])
    ensures Replay(1, [], log) != Some([other, one])
  {
    var socket, added := Did(AddSocket(other)), Admitted(Admission(0, one, true));
    TwoOrders(log, socket, added);
    ReplayOfTwo(1, [], socket, added);
    ReplayOfTwo(1, [], added, socket);
    assert [one, other] != [other, one] by {
      assert [one, other][0] != [other, one][0];
    }
  }

  /** A run with an unchecked add between a check and its append. */
  lemma LateRun<T>(one: T, other: T) returns (steps: seq<Step<T>>)
    ensures Exec(1, Start<T>([]), steps).Some?
    ensures var s := Exec(1, Start<T>([]), steps).value;
            && s.clients == [other, one]
            && s.log == [Did(AddSocket(other)), Admitted(Admission(0, one, true))]
  {
    var start := Start<T>([]);
    var checked := [EnterAdd(0, one), Check(0)];
    TwoSteps(1, start, EnterAdd(0, one), Check(0));
    var s1 := Exec(1, start, checked).value;
    var unchecked := [EnterDirect(1, AddSocket(other)), DoDirect(1), LeaveDirect(1)];
    OneDirect(1, s1, 1, AddSocket(other));
    var s2 := Exec(1, s1, unchecked).value;
    var appended := [EnterManager(0), Append(0)];
    assert PcOf(s1, 0) == AddGranted(one) && PcOf(s2, 0) == PcOf(s1, 0);
    TwoSteps(1, s2, EnterManager(0), Append(0));
    ExecConcat(1, start, checked, unchecked);
    ExecConcat(1, start, checked + unchecked, appended);
    steps := checked + unchecked + appended;
  }

  /**
   The window matters. An unchecked add between a check and its append comes too late for the check,
   and no order of the two operations at all leads to the list it leaves.
   */
  lemma UncheckedAddBreaksAtomicity<T(!new)>(one: T, other: T) returns (steps: seq<Step<T>>)
    requires one != other
    ensures Exec(1, Start<T>([]), steps).Some?
    ensures var s := Exec(1, Start<T>([]), steps).value;
            && s.clients == [other, one]
            && forall log :: multiset(log) == multiset(s.log) ==> Replay(1, [], log) != Some(s.clients)
  {
    steps := LateRun(one, other);
    var s := Exec(1, Start<T>([]), steps).value;
    forall log | multiset(log) == multiset(s.log)
      ensures Replay(1, [], log) != Some(s.clients)
    {
      NoOrderExplains(one, other, log);
    }
  }

  // ---------- Every sequence of operations is a run ----------

  predicate IsEntry<T>(e: Entry<T>) {
    e.Did? ==> !e.op.Find?
  }

  /** Nobody is in the middle of anything. */
  ghost predicate AllQuiet<T>(s: System<T>) {
    forall t: Tid :: Quiet(s, t)
  }

  /** One whole operation that takes effect as the entry says. */
  lemma EntryIsARun<T>(limit: int, s: System<T>, e: Entry<T>) returns (steps: seq<Step<T>>)
    requires AllQuiet(s) && IsEntry(e) && ReplayOne(limit, s.clients, e).Some?
    ensures Exec(limit, s, steps).Some?
    ensures var s' := Exec(limit, s, steps).value;
            AllQuiet(s') && s'.log == s.log + [e] && Some(s'.clients) == ReplayOne(limit, s.clients, e)
  {
    var t := if e.Admitted? then e.admission.thread else 0;
    assert Quiet(s, t);
    if e.Admitted? {
      if e.admission.added {
        steps := OneAdd(limit, s, t, e.admission.client);
      } else {
        steps := [EnterAdd(t, e.admission.client), Check(t), LeaveAdd(t)];
        OneRefusal(limit, s, t, e.admission.client);
      }
    } else {
      var op := if e.Did? then e.op else Find(e.wanted);
      steps := [EnterDirect(t, op), DoDirect(t), LeaveDirect(t)];
      DirectRun(limit, s, t, op);
      assert DirectEntry(s.clients, op) == e;
    }
    var s' := Exec(limit, s, steps).value;
    assert forall u: Tid :: Quiet(s, u) && (u == t || PcOf(s', u) == PcOf(s, u));
  }

  /**
   The other direction: whatever sequence of adds, refusals, deletes, clearings and searches makes
   sense one at a time, some run has exactly these effects and ends with that list.
   */
  lemma {:induction false} EverySequenceIsARun<T>(limit: int, initially: seq<T>, log: seq<Entry<T>>)
    returns (steps: seq<Step<T>>)
    requires Replay(limit, initially, log).Some? && forall e :: e in log ==> IsEntry(e)
    ensures Exec(limit, Start(initially), steps).Some?
    ensures var s := Exec(limit, Start(initially), steps).value;
            AllQuiet(s) && s.log == log && Some(s.clients) == Replay(limit, initially, log)
  {
    if log == [] {
      steps := [];
    } else {
      var before, e := log[..|log| - 1], log[|log| - 1];
      SplitLast(log);
      var first := EverySequenceIsARun(limit, initially, before);
      var s := Exec(limit, Start(initially), first).value;
      var last := EntryIsARun(limit, s, e);
      ExecConcat(limit, Start(initially), first, last);
      steps := first + last;
    }
  }

  // ---------- Results ----------

  function Admissions<T>(log: seq<Entry<T>>): seq<Admission<T>> {
    if log == [] then []
    else
      var e := log[|log| - 1];
      Admissions(log[..|log| - 1]) + if e.Admitted? then [e.admission] else []
  }

  lemma AdmissionsSnoc<T>(log: seq<Entry<T>>, e: Entry<T>)
    ensures Admissions(log + [e]) == Admissions(log) + if e.Admitted? then [e.admission] else []
  {
    assert (log + [e])[..|log|] == log;
  }

  /** The add that took effect but has not returned yet. */
  function Unreturned<T>(s: System<T>): seq<Admission<T>> {
    match s.userLock
    case None => []
    case Some(t) =>
      match PcOf(s, t)
      case AddAppended(client) => [Admission(t, client, true)]
      case AddDone(client, added) => [Admission(t, client, added)]
      case _ => []
  }

  /** The results a step adds to those still to be returned. */
  function Entered<T>(s: System<T>, s': System<T>): seq<Admission<T>> {
    if s.userLock.Some? && Unreturned(s) == [] then Unreturned(s') else []
  }

  /** Results still to be returned: one appears when an add takes effect, and goes when it is returned. */
  lemma UnreturnedStep<T>(limit: int, s: System<T>, step: Step<T>)
    requires Do(limit, s, step).Some?
    requires InUserLock(PcOf(s, step.thread)) <==> s.userLock == Some(step.thread)
    ensures var s' := Do(limit, s, step).value;
            s'.returned + Unreturned(s') == s.returned + Unreturned(s) + Entered(s, s')
  {
    var s' := Do(limit, s, step).value;
    assert step.LeaveAdd? ==> Unreturned(s') == [] && s'.returned == s.returned + Unreturned(s);
    assert !step.LeaveAdd? ==> s'.returned == s.returned;
  }

  lemma AdmissionsStep<T>(limit: int, s: System<T>, step: Step<T>)
    requires LocksHeld(s) && Do(limit, s, step).Some?
    requires Admissions(s.log) == s.returned + Unreturned(s)
    ensures var s' := Do(limit, s, step).value; Admissions(s'.log) == s'.returned + Unreturned(s')
  {
    UnreturnedStep(limit, s, step);
    LogStep(limit, s, step);
    var s' := Do(limit, s, step).value;
    if s'.log != s.log {
      AdmissionsSnoc(s.log, s'.log[|s'.log| - 1]);
    }
  }

  lemma {:induction false} AdmissionsRun<T>(limit: int, s: System<T>, steps: seq<Step<T>>)
    requires LocksHeld(s) && Exec(limit, s, steps).Some?
    requires Admissions(s.log) == s.returned + Unreturned(s)
    ensures var s' := Exec(limit, s, steps).value; Admissions(s'.log) == s'.returned + Unreturned(s')
    decreases |steps|
  {
    if steps == [] {
    } else {
      LocksStep(limit, s, steps[0]);
      AdmissionsStep(limit, s, steps[0]);
      AdmissionsRun(limit, Do(limit, s, steps[0]).value, steps[1..]);
    }
  }

  /**
   In every run the adds return in the order in which they took effect, each what was decided then;
   at most the last has not returned yet.
   */
  lemma ResultsInOrder<T>(limit: int, initially: seq<T>, steps: seq<Step<T>>)
    requires Exec(limit, Start(initially), steps).Some?
    ensures var s := Exec(limit, Start(initially), steps).value;
            Admissions(s.log) == s.returned + Unreturned(s) && |Unreturned(s)| <= 1
  {
    StartLocks(initially);
    AdmissionsRun(limit, Start(initially), steps);
  }

  // ---------- The registry's history ----------

  function ChangeOf<T>(entry: Entry<T>): seq<Change<T>> {
    match entry
    case Admitted(a) => if a.added then [Added(a.client)] else []
    case Did(Delete(client)) => [Removed(client)]
    case Did(DeleteAll) => [Cleared]
    case Did(AddSocket(client)) => [Added(client)]
    case Did(Find(_)) => []
    case Found(_, _) => []
  }

  /** The registrations of the clients there were to begin with, and then the changes of the log. */
  function ChangesOf<T>(initially: seq<T>, log: seq<Entry<T>>): seq<Change<T>> {
    if log == [] then AddedAll(initially) else ChangesOf(initially, log[..|log| - 1]) + ChangeOf(log[|log| - 1])
  }

  lemma ChangesSnoc<T>(initially: seq<T>, log: seq<Entry<T>>, e: Entry<T>)
    ensures var before := ListAfter(ChangesOf(initially, log));
            ListAfter(ChangesOf(initially, log + [e]))
              == if ChangeOf(e) == [] then before else Effect(before, ChangeOf(e)[0])
  {
    var changes := ChangesOf(initially, log);
    assert (log + [e])[..|log|] == log;
    if ChangeOf(e) == [] {
      assert changes + ChangeOf(e) == changes;
    } else {
      assert ChangeOf(e) == [ChangeOf(e)[0]];
      TakeBeforeLast(changes, ChangeOf(e)[0]);
    }
  }

  lemma ChangesStep<T>(limit: int, initially: seq<T>, s: System<T>, step: Step<T>)
    requires Do(limit, s, step).Some? && s.clients == ListAfter(ChangesOf(initially, s.log))
    ensures var s' := Do(limit, s, step).value; s'.clients == ListAfter(ChangesOf(initially, s'.log))
  {
    var s' := Do(limit, s, step).value;
    LogStep(limit, s, step);
    if s'.log != s.log {
      ChangesSnoc(initially, s.log, s'.log[|s'.log| - 1]);
    }
  }

  lemma {:induction false} ChangesRun<T>(limit: int, initially: seq<T>, s: System<T>, steps: seq<Step<T>>)
    requires Exec(limit, s, steps).Some? && s.clients == ListAfter(ChangesOf(initially, s.log))
    ensures var s' := Exec(limit, s, steps).value; s'.clients == ListAfter(ChangesOf(initially, s'.log))
    decreases |steps|
  {
    if steps == [] {
    } else {
      ChangesStep(limit, initially, s, steps[0]);
      ChangesRun(limit, initially, Do(limit, s, steps[0]).value, steps[1..]);
    }
  }

  /** After any interleaving the list holds the registrations still alive, in the order of their effects. */
  lemma RegistryAgrees<T>(limit: int, initially: seq<T>, steps: seq<Step<T>>)
    requires Exec(limit, Start(initially), steps).Some?
    ensures var s := Exec(limit, Start(initially), steps).value;
            var changes := ChangesOf(initially, s.log);
            && s.clients == ListAfter(changes) == Clients(Tickets(changes))
            && InOrder(Tickets(changes), |changes|)
            && (forall t :: 0 <= t < |changes| && changes[t].Added? ==>
                  (Ticket(t, changes[t].client) in Tickets(changes) <==> Alive(changes, t)))
  {
    ListAfterAddedAll(initially);
    ChangesRun(limit, initially, Start(initially), steps);
    ListIsAliveInOrder(ChangesOf(initially, Exec(limit, Start(initially), steps).value.log));
  }

  /** Every search so far ended as a search of the list its log calls for. */
  predicate SearchesEndRight<T(==)>(initially: seq<T>, log: seq<Entry<T>>) {
    forall i :: 0 <= i < |log| && log[i].Found? ==>
      log[i].found == FirstIn(ListAfter(ChangesOf(initially, log[..i])), log[i].wanted)
  }

  lemma SearchesStep<T>(limit: int, initially: seq<T>, s: System<T>, step: Step<T>)
    requires Do(limit, s, step).Some? && s.clients == ListAfter(ChangesOf(initially, s.log))
    requires SearchesEndRight(initially, s.log)
    ensures SearchesEndRight(initially, Do(limit, s, step).value.log)
  {
    var log := Do(limit, s, step).value.log;
    LogStep(limit, s, step);
    if log != s.log {
      forall i | 0 <= i < |log| && log[i].Found?
        ensures log[i].found == FirstIn(ListAfter(ChangesOf(initially, log[..i])), log[i].wanted)
      {
        assert log[..i] == s.log[..i];
        assert i == |s.log| ==> s.log[..i] == s.log;
      }
    }
  }

  lemma {:induction false} SearchesRun<T>(limit: int, initially: seq<T>, s: System<T>, steps: seq<Step<T>>)
    requires Exec(limit, s, steps).Some? && s.clients == ListAfter(ChangesOf(initially, s.log))
    requires SearchesEndRight(initially, s.log)
    ensures SearchesEndRight(initially, Exec(limit, s, steps).value.log)
    decreases |steps|
  {
    if steps == [] {
    } else {
      ChangesStep(limit, initially, s, steps[0]);
      SearchesStep(limit, initially, s, steps[0]);
      SearchesRun(limit, initially, Do(limit, s, steps[0]).value, steps[1..]);
    }
  }

  /**
   In every interleaving a search for a handle ends with the earliest registration that is alive at
   that moment among the clients with the handle, and without one exactly when none is alive.
   */
  lemma SearchFindsEarliestAlive<T>(limit: int, initially: seq<T>, steps: seq<Step<T>>, i: nat)
    requires Exec(limit, Start(initially), steps).Some?
    requires var log := Exec(limit, Start(initially), steps).value.log; i < |log| && log[i].Found?
    ensures var log := Exec(limit, Start(initially), steps).value.log;
            IsEarliestAlive(ChangesOf(initially, log[..i]), log[i].wanted, log[i].found)
  {
    ListAfterAddedAll(initially);
    SearchesRun(limit, initially, Start(initially), steps);
    var log := Exec(limit, Start(initially), steps).value.log;
    FirstIsEarliestAlive(ChangesOf(initially, log[..i]), log[i].wanted);
  }

  // ---------- Progress ----------

  /** The two locks cannot deadlock: while any thread is busy, some busy thread can move on. */
  lemma SomeThreadCanMove<T>(limit: int, initially: seq<T>, steps: seq<Step<T>>, busy: Tid)
    requires Exec(limit, Start(initially), steps).Some?
    requires PcOf(Exec(limit, Start(initially), steps).value, busy) != Idle
    ensures var s := Exec(limit, Start(initially), steps).value;
            exists t: Tid :: PcOf(s, t) != Idle && Do(limit, s, NextStep(s, t)).Some?
  {
    StartLocks(initially);
    LocksRun(limit, Start(initially), steps);
    var s := Exec(limit, Start(initially), steps).value;
    var t := match s.managerLock case Some(holder) => holder case None => busy;
    assert InUserLock(PcOf(s, busy)) || InManagerLock(PcOf(s, busy));
    assert InManagerLock(PcOf(s, t)) <==> s.managerLock == Some(t);
    assert PcOf(s, t) != Idle && Do(limit, s, NextStep(s, t)).Some?;
  }
}
