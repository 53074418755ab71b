/**
 Threads adding clients through a user and changing the user's registry behind its back.

 The user's `add_client` holds the user's lock around a check and an append, but the append is made
 under the registry's own lock, and the check reads the number of clients without that lock. All
 other registry operations take the registry's lock only. A `Step` is one thread's next move
 between two such points; a run is any interleaving.
 */
module Quota {
  import opened Bytes
  import opened Registry

  type Tid = nat

  /**
   Registry operations that do not go through the user. `Find` is given the clients that have the
   handle it looks for.
   */
  datatype Direct<T> = Delete(client: T) | DeleteAll | AddSocket(client: T) | Find(wanted: set<T>)

  /** Where a thread is. Idle threads may start anything. */
  datatype Pc<T> =
    | Idle
    | AddEntered(client: T)
    | AddGranted(client: T)
    | AddInManager(client: T)
    | AddAppended(client: T)
    | AddDone(client: T, added: bool)
    | DirectEntered(op: Direct<T>)
    | DirectDone

  predicate InUserLock<T>(pc: Pc<T>) {
    pc.AddEntered? || pc.AddGranted? || pc.AddInManager? || pc.AddAppended? || pc.AddDone?
  }

  predicate InManagerLock<T>(pc: Pc<T>) {
    pc.AddInManager? || pc.AddAppended? || pc.DirectEntered? || pc.DirectDone?
  }

  /** What took effect, and what came of it: of a call of the user's `add_client`, and of a search. */
  datatype Entry<T> = Admitted(admission: Admission<T>) | Did(op: Direct<T>) | Found(wanted: set<T>, found: Option<T>)
  datatype Admission<T> = Admission(thread: Tid, client: T, added: bool)

  /**
   `unchecked`, `log` and `returned` are history: which entries of the list were registered past the
   user, the effects in order, and the results in order.
   */
  datatype System<T> = System(
    clients: seq<T>, userLock: Option<Tid>, managerLock: Option<Tid>, pcs: map<Tid, Pc<T>>,
    unchecked: seq<bool>, log: seq<Entry<T>>, returned: seq<Admission<T>>)

  function Start<T>(clients: seq<T>): System<T> {
    System(clients, None, None, map[], seq(|clients|, _ => false), [], [])
  }

  function PcOf<T>(s: System<T>, t: Tid): Pc<T> {
    if t in s.pcs then s.pcs[t] else Idle
  }

  function Goto<T>(s: System<T>, t: Tid, pc: Pc<T>): System<T> {
    s.(pcs := s.pcs[t := pc])
  }

  // ---------- Steps ----------

  datatype Step<T> =
    | EnterAdd(thread: Tid, client: T)
    | Check(thread: Tid)
    | EnterManager(thread: Tid)
    | Append(thread: Tid)
    | LeaveManager(thread: Tid)
    | LeaveAdd(thread: Tid)
    | EnterDirect(thread: Tid, op: Direct<T>)
    | DoDirect(thread: Tid)
    | LeaveDirect(thread: Tid)

  function DirectEffect<T(==)>(clients: seq<T>, op: Direct<T>): seq<T> {
    match op
    case Delete(client) => RemoveFirst(clients, client)
    case DeleteAll => []
    case AddSocket(client) => clients + [client]
    case Find(_) => clients
  }

  function DirectEntry<T(==)>(clients: seq<T>, op: Direct<T>): Entry<T> {
    match op
    case Find(wanted) => Found(wanted, FirstIn(clients, wanted))
    case _ => Did(op)
  }

  /** What the same operation does to the marks that go with the list. */
  function DirectMarks<T(==)>(clients: seq<T>, marks: seq<bool>, op: Direct<T>): seq<bool> {
    match op
    case Delete(client) => RemoveAt(marks, IndexOf(clients, client))
    case DeleteAll => []
    case AddSocket(_) => marks + [true]
    case Find(_) => marks
  }

  /** None when the thread cannot make this move now. */
  function Do<T(==)>(limit: int, s: System<T>, step: Step<T>): Option<System<T>> {
    var t := step.thread;
    var pc := PcOf(s, t);
    match step
    case EnterAdd(_, client) =>
      if pc.Idle? && s.userLock == None then Some(Goto(s, t, AddEntered(client)).(userLock := Some(t))) else None
    case Check(_) =>
      if !pc.AddEntered? then None
      else if HasRoom(limit, s.clients) then Some(Goto(s, t, AddGranted(pc.client)))
      else Some(Goto(s, t, AddDone(pc.client, false)).(log := s.log + [Admitted(Admission(t, pc.client, false))]))
    case EnterManager(_) =>
      if pc.AddGranted? && s.managerLock == None
      then Some(Goto(s, t, AddInManager(pc.client)).(managerLock := Some(t))) else None
    case Append(_) =>
      if pc.AddInManager?
      then Some(Goto(s, t, AddAppended(pc.client)).(clients := s.clients + [pc.client],
                                                    unchecked := s.unchecked + [false],
                                                    log := s.log + [Admitted(Admission(t, pc.client, true))]))
      else None
    case LeaveManager(_) =>
      if pc.AddAppended? then Some(Goto(s, t, AddDone(pc.client, true)).(managerLock := None)) else None
    case LeaveAdd(_) =>
      if pc.AddDone?
      then Some(Goto(s, t, Idle).(userLock := None, returned := s.returned + [Admission(t, pc.client, pc.added)]))
      else None
    case EnterDirect(_, op) =>
      if pc.Idle? && s.managerLock == None then Some(Goto(s, t, DirectEntered(op)).(managerLock := Some(t))) else None
    case DoDirect(_) =>
      if pc.DirectEntered?
      then Some(Goto(s, t, DirectDone).(clients := DirectEffect(s.clients, pc.op),
                                        log := s.log + [DirectEntry(s.clients, pc.op)],
                                        unchecked := DirectMarks(s.clients, s.unchecked, pc.op)))
      else None
    case LeaveDirect(_) =>
      if pc.DirectDone? then Some(Goto(s, t, Idle).(managerLock := None)) else None
  }

  /** The move a thread makes next when it is in the middle of something. */
  function NextStep<T>(s: System<T>, t: Tid): Step<T>
    requires PcOf(s, t) != Idle
  {
    match PcOf(s, t)
    case AddEntered(_) => Check(t)
    case AddGranted(_) => EnterManager(t)
    case AddInManager(_) => Append(t)
    case AddAppended(_) => LeaveManager(t)
    case AddDone(_, _) => LeaveAdd(t)
    case DirectEntered(_) => DoDirect(t)
    case DirectDone => LeaveDirect(t)
  }

  /**
   When a thread can move, and how. An idle one can start any operation whose lock is free. A busy one
   has one way to go, and only waits for the registry's lock, after a check it has passed.
   */
  lemma MovesIff<T>(limit: int, s: System<T>, step: Step<T>)
    ensures Do(limit, s, step).Some? <==>
              if PcOf(s, step.thread) == Idle then
                (step.EnterAdd? && s.userLock == None) || (step.EnterDirect? && s.managerLock == None)
              else
                step == NextStep(s, step.thread) && (PcOf(s, step.thread).AddGranted? ==> s.managerLock == None)
  {
  }

  function Exec<T(==)>(limit: int, s: System<T>, steps: seq<Step<T>>): Option<System<T>>
    decreases |steps|
  {
    if steps == [] then Some(s)
    else
      match Do(limit, s, steps[0])
      case None => None
      case Some(next) => Exec(limit, next, steps[1..])
  }

  lemma {:induction false} ExecConcat<T>(limit: int, s: System<T>, a: seq<Step<T>>, b: seq<Step<T>>)
    requires Exec(limit, s, a).Some?
    ensures Exec(limit, s, a + b) == Exec(limit, Exec(limit, s, a).value, b)
    decreases |a|
  {
    if a == [] {
      assert a + b == b;
    } else {
      assert (a + b)[1..] == a[1..] + b;
      ExecConcat(limit, Do(limit, s, a[0]).value, a[1..], b);
    }
  }

  lemma TwoSteps<T>(limit: int, s: System<T>, a: Step<T>, b: Step<T>)
    requires Do(limit, s, a).Some?
    ensures Exec(limit, s, [a, b]) == Do(limit, Do(limit, s, a).value, b)
  {
    assert [a, b][1..] == [b] && [b][1..] == [];
    assert Exec(limit, Do(limit, s, a).value, [b]) == Do(limit, Do(limit, s, a).value, b);
  }

  lemma ThreeSteps<T>(limit: int, s: System<T>, a: Step<T>, b: Step<T>, c: Step<T>)
    requires Do(limit, s, a).Some? && Do(limit, Do(limit, s, a).value, b).Some?
    ensures Exec(limit, s, [a, b, c]) == Do(limit, Do(limit, Do(limit, s, a).value, b).value, c)
  {
    assert [a, b, c][1..] == [b, c];
    TwoSteps(limit, Do(limit, s, a).value, b, c);
  }

  // ---------- Locks ----------

  /** A lock is held by the thread that is inside, and by no other. */
  ghost predicate LocksHeld<T>(s: System<T>) {
    && (forall t: Tid :: InUserLock(PcOf(s, t)) <==> s.userLock == Some(t))
    && (forall t: Tid :: InManagerLock(PcOf(s, t)) <==> s.managerLock == Some(t))
  }

  lemma StartLocks<T>(clients: seq<T>)
    ensures LocksHeld(Start(clients))
  {
  }

  lemma LocksStep<T>(limit: int, s: System<T>, step: Step<T>)
    requires LocksHeld(s) && Do(limit, s, step).Some?
    ensures LocksHeld(Do(limit, s, step).value)
  {
    var s', t := Do(limit, s, step).value, step.thread;
    assert forall u: Tid :: u != t ==> PcOf(s', u) == PcOf(s, u);
  }

  lemma {:induction false} LocksRun<T>(limit: int, s: System<T>, steps: seq<Step<T>>)
    requires LocksHeld(s) && Exec(limit, s, steps).Some?
    ensures LocksHeld(Exec(limit, s, steps).value)
    decreases |steps|
  {
    if steps == [] {
    } else {
      LocksStep(limit, s, steps[0]);
      LocksRun(limit, Do(limit, s, steps[0]).value, steps[1..]);
    }
  }

  // ---------- Counting entries by how they came in ----------

  function Tally(marks: seq<bool>, mark: bool): nat {
    if marks == [] then 0 else (if marks[0] == mark then 1 else 0) + Tally(marks[1..], mark)
  }

  lemma {:induction false} TallyConcat(a: seq<bool>, b: seq<bool>, mark: bool)
    ensures Tally(a + b, mark) == Tally(a, mark) + Tally(b, mark)
  {
    if a == [] {
      assert a + b == b;
    } else {
      assert (a + b)[1..] == a[1..] + b;
      TallyConcat(a[1..], b, mark);
    }
  }

  lemma TallyAppend(marks: seq<bool>, mark: bool, counted: bool)
    ensures Tally(marks + [mark], counted) == Tally(marks, counted) + if mark == counted then 1 else 0
  {
    TallyConcat(marks, [mark], counted);
    assert [mark][1..] == [];
  }

  lemma {:induction false} TallyAll(marks: seq<bool>)
    ensures Tally(marks, false) + Tally(marks, true) == |marks|
  {
    if marks == [] {
    } else {
      TallyAll(marks[1..]);
    }
  }

  lemma {:induction false} TallyNone(n: nat)
    ensures Tally(seq(n, _ => false), true) == 0
  {
    if n == 0 {
    } else {
      TallyNone(n - 1);
      assert seq(n, _ => false)[1..] == seq(n - 1, _ => false);
    }
  }

  lemma TallyRemove(marks: seq<bool>, k: nat, mark: bool)
    ensures Tally(RemoveAt(marks, k), mark) <= Tally(marks, mark)
  {
    if k < |marks| {
      TallyConcat(marks[..k], marks[k + 1..], mark);
      TallyConcat(marks[..k], [marks[k]] + marks[k + 1..], mark);
      TallyConcat([marks[k]], marks[k + 1..], mark);
      assert marks == marks[..k] + ([marks[k]] + marks[k + 1..]);
    }
  }

  // ---------- The quota ----------

  predicate MayAppend<T>(pc: Pc<T>) {
    pc.AddGranted? || pc.AddInManager?
  }

  /**
   Permission once given stays good, counting the entries that came in through the user: nobody but
   the holder of the user's lock adds to those.
   */
  ghost predicate GrantsStand<T>(limit: int, s: System<T>) {
    && |s.unchecked| == |s.clients|
    && forall t: Tid :: MayAppend(PcOf(s, t)) ==> limit == NO_LIMIT || Tally(s.unchecked, false) < limit
  }

  lemma AdmittedStep<T>(limit: int, s: System<T>, step: Step<T>)
    requires |s.unchecked| == |s.clients| && Do(limit, s, step).Some?
    ensures var s' := Do(limit, s, step).value;
            && |s'.unchecked| == |s'.clients|
            && Tally(s'.unchecked, false) <= Tally(s.unchecked, false) + if step.Append? then 1 else 0
  {
    TallyAppend(s.unchecked, step.DoDirect?, false);
    if step.DoDirect? && PcOf(s, step.thread).op.Delete? {
      TallyRemove(s.unchecked, IndexOf(s.clients, PcOf(s, step.thread).op.client), false);
    }
  }

  lemma GrantsStep<T>(limit: int, s: System<T>, step: Step<T>)
    requires LocksHeld(s) && GrantsStand(limit, s) && Do(limit, s, step).Some?
    ensures GrantsStand(limit, Do(limit, s, step).value)
  {
    var s', t := Do(limit, s, step).value, step.thread;
    AdmittedStep(limit, s, step);
    TallyAll(s.unchecked);
    assert forall u: Tid :: u != t ==> PcOf(s', u) == PcOf(s, u);
    if step.Append? {
      assert forall u: Tid :: MayAppend(PcOf(s, u)) ==> s.userLock == Some(u);
    }
  }

  /** The most clients there can be: the limit, or those there were to begin with if these are more. */
  function Cap(limit: int, initially: nat): nat {
    if limit > initially then limit else initially
  }

  ghost predicate WithinQuota<T>(limit: int, cap: nat, s: System<T>) {
    LocksHeld(s) && GrantsStand(limit, s) && Tally(s.unchecked, false) <= cap
  }

  lemma QuotaStep<T>(limit: int, cap: nat, s: System<T>, step: Step<T>)
    requires limit != NO_LIMIT && limit <= cap
    requires WithinQuota(limit, cap, s) && Do(limit, s, step).Some?
    ensures WithinQuota(limit, cap, Do(limit, s, step).value)
  {
    LocksStep(limit, s, step);
    GrantsStep(limit, s, step);
    AdmittedStep(limit, s, step);
    assert step.Append? ==> MayAppend(PcOf(s, step.thread));
  }

  lemma {:induction false} QuotaRun<T>(limit: int, cap: nat, s: System<T>, steps: seq<Step<T>>)
    requires limit != NO_LIMIT && limit <= cap
    requires WithinQuota(limit, cap, s) && Exec(limit, s, steps).Some?
    ensures WithinQuota(limit, cap, Exec(limit, s, steps).value)
    decreases |steps|
  {
    if steps == [] {
    } else {
      QuotaStep(limit, cap, s, steps[0]);
      QuotaRun(limit, cap, Do(limit, s, steps[0]).value, steps[1..]);
    }
  }

  lemma StartMarks<T>(clients: seq<T>)
    ensures Tally(Start(clients).unchecked, false) == |clients| && Tally(Start(clients).unchecked, true) == 0
  {
    TallyNone(|clients|);
    TallyAll(Start(clients).unchecked);
  }

  /**
   Whatever the interleaving of any number of threads, a user never has more clients than its limit
   (or than it started with), but for those in the list now that were registered without going
   through the user.
   */
  lemma QuotaHolds<T>(limit: int, initially: seq<T>, steps: seq<Step<T>>)
    requires limit != NO_LIMIT && Exec(limit, Start(initially), steps).Some?
    ensures var s := Exec(limit, Start(initially), steps).value;
            |s.clients| <= Cap(limit, |initially|) + Tally(s.unchecked, true)
  {
    StartLocks(initially);
    StartMarks(initially);
    QuotaRun(limit, Cap(limit, |initially|), Start(initially), steps);
    TallyAll(Exec(limit, Start(initially), steps).value.unchecked);
  }

  // ---------- The quota in terms of the steps ----------

  predicate StartsUncheckedAdd<T>(step: Step<T>) {
    step.EnterDirect? && step.op.AddSocket?
  }

  function UncheckedAdds<T>(steps: seq<Step<T>>): nat {
    if steps == [] then 0 else (if StartsUncheckedAdd(steps[0]) then 1 else 0) + UncheckedAdds(steps[1..])
  }

  /** An unchecked add that was started and has not taken effect. */
  function UncheckedUnderWay<T>(s: System<T>): nat {
    if s.managerLock == None then 0
    else
      var pc := PcOf(s, s.managerLock.value);
      if pc.DirectEntered? && pc.op.AddSocket? then 1 else 0
  }

  lemma UncheckedStep<T>(limit: int, s: System<T>, step: Step<T>)
    requires LocksHeld(s) && Do(limit, s, step).Some?
    ensures var s' := Do(limit, s, step).value;
            Tally(s'.unchecked, true) + UncheckedUnderWay(s')
              <= Tally(s.unchecked, true) + UncheckedUnderWay(s) + if StartsUncheckedAdd(step) then 1 else 0
  {
    assert InManagerLock(PcOf(s, step.thread)) <==> s.managerLock == Some(step.thread);
    TallyAppend(s.unchecked, step.DoDirect?, true);
    if step.DoDirect? && PcOf(s, step.thread).op.Delete? {
      TallyRemove(s.unchecked, IndexOf(s.clients, PcOf(s, step.thread).op.client), true);
    }
  }

  lemma {:induction false} UncheckedRun<T>(limit: int, s: System<T>, steps: seq<Step<T>>)
    requires LocksHeld(s) && Exec(limit, s, steps).Some?
    ensures var s' := Exec(limit, s, steps).value;
            Tally(s'.unchecked, true) + UncheckedUnderWay(s')
              <= Tally(s.unchecked, true) + UncheckedUnderWay(s) + UncheckedAdds(steps)
    decreases |steps|
  {
    if steps == [] {
    } else {
      LocksStep(limit, s, steps[0]);
      UncheckedStep(limit, s, steps[0]);
      UncheckedRun(limit, Do(limit, s, steps[0]).value, steps[1..]);
    }
  }

  /** What a run can do, read off its steps: the limit is exceeded at most by the unchecked adds it starts. */
  lemma QuotaInSteps<T>(limit: int, initially: seq<T>, steps: seq<Step<T>>)
    requires limit != NO_LIMIT && Exec(limit, Start(initially), steps).Some?
    ensures var s := Exec(limit, Start(initially), steps).value;
            && Tally(s.unchecked, true) <= UncheckedAdds(steps)
            && |s.clients| <= Cap(limit, |initially|) + UncheckedAdds(steps)
  {
    StartLocks(initially);
    StartMarks(initially);
    UncheckedRun(limit, Start(initially), steps);
    QuotaHolds(limit, initially, steps);
  }

  lemma {:induction false} NoUncheckedAdds<T>(steps: seq<Step<T>>)
    requires forall step :: step in steps ==> !StartsUncheckedAdd(step)
    ensures UncheckedAdds(steps) == 0
  {
    if steps == [] {
    } else {
      assert steps[0] in steps;
      NoUncheckedAdds(steps[1..]);
    }
  }

  /**
   The quota itself. When clients are added through the user, whatever else is done by any number of
   threads in any interleaving, there are never more of them than the limit (or than at first).
   */
  lemma QuotaThroughUser<T>(limit: int, initially: seq<T>, steps: seq<Step<T>>)
    requires limit != NO_LIMIT && Exec(limit, Start(initially), steps).Some?
    requires forall step :: step in steps ==> !StartsUncheckedAdd(step)
    ensures |Exec(limit, Start(initially), steps).value.clients| <= Cap(limit, |initially|)
  {
    NoUncheckedAdds(steps);
    QuotaInSteps(limit, initially, steps);
  }

  // ---------- The bound is reached ----------

  /** No thread is in the middle of anything that a new operation of thread `t` has to wait for. */
  ghost predicate Quiet<T>(s: System<T>, t: Tid) {
    PcOf(s, t) == Idle && s.userLock == None && s.managerLock == None
  }

  /** What a direct operation leaves behind: the list, the marks that go with it, and what is logged. */
  ghost predicate Left<T>(before: System<T>, op: Direct<T>, after: System<T>) {
    match op
    case Delete(client) =>
      && IsWithoutFirst(before.clients, client, after.clients) && after.log == before.log + [Did(op)]
      && (forall k :: 0 <= k < |before.clients| == |before.unchecked| && before.clients[k] == client
                      && client !in before.clients[..k] ==>
                      after.unchecked == before.unchecked[..k] + before.unchecked[k + 1..])
    case DeleteAll =>
      after.clients == [] && after.unchecked == [] && after.log == before.log + [Did(op)]
    case AddSocket(client) =>
      && after.clients == before.clients + [client] && after.unchecked == before.unchecked + [true]
      && after.log == before.log + [Did(op)]
    case Find(wanted) =>
      && after.clients == before.clients && after.unchecked == before.unchecked
      && |after.log| == |before.log| + 1
      && var e := after.log[|before.log|];
         && after.log == before.log + [e]
         && e.Found? && e.wanted == wanted && IsFirstOf(before.clients, wanted, e.found)
  }

  /** Nothing moved but thread `t`. */
  ghost predicate OthersStay<T>(s: System<T>, t: Tid, s': System<T>) {
    forall u: Tid :: u != t ==> PcOf(s', u) == PcOf(s, u)
  }

  lemma DirectRun<T>(limit: int, s: System<T>, t: Tid, op: Direct<T>)
    requires PcOf(s, t) == Idle && s.managerLock == None
    ensures var steps := [EnterDirect(t, op), DoDirect(t), LeaveDirect(t)];
            && Exec(limit, s, steps).Some?
            && var s' := Exec(limit, s, steps).value;
               && s'.clients == DirectEffect(s.clients, op) && s'.log == s.log + [DirectEntry(s.clients, op)]
               && s'.unchecked == DirectMarks(s.clients, s.unchecked, op) && s'.returned == s.returned
               && s'.userLock == s.userLock && s'.managerLock == None
               && PcOf(s', t) == Idle && OthersStay(s, t, s')
  {
    ThreeSteps(limit, s, EnterDirect(t, op), DoDirect(t), LeaveDirect(t));
  }

  lemma DeleteLeaves<T>(clients: seq<T>, marks: seq<bool>, client: T)
    ensures IsWithoutFirst(clients, client, DirectEffect(clients, Delete(client)))
    ensures forall k :: 0 <= k < |clients| == |marks| && clients[k] == client && client !in clients[..k] ==>
              DirectMarks(clients, marks, Delete(client)) == marks[..k] + marks[k + 1..]
  {
    RemoveFirstIsWithoutFirst(clients, client);
    forall k | 0 <= k < |clients| && clients[k] == client && client !in clients[..k]
      ensures IndexOf(clients, client) == k
    {
      IndexOfIsFirst(clients, client, k);
    }
  }

  lemma EffectIsLeft<T>(s: System<T>, op: Direct<T>, s': System<T>)
    requires s'.clients == DirectEffect(s.clients, op) && s'.log == s.log + [DirectEntry(s.clients, op)]
    requires s'.unchecked == DirectMarks(s.clients, s.unchecked, op)
    ensures Left(s, op, s')
  {
    match op
    case Delete(client) => DeleteLeaves(s.clients, s.unchecked, client);
    case Find(wanted) => FirstInIsFirst(s.clients, wanted);
    case _ =>
  }

  /** Any direct operation can be carried out whenever the registry's lock is free, and does what it should. */
  lemma OneDirect<T>(limit: int, s: System<T>, t: Tid, op: Direct<T>)
    requires PcOf(s, t) == Idle && s.managerLock == None
    ensures var steps := [EnterDirect(t, op), DoDirect(t), LeaveDirect(t)];
            && Exec(limit, s, steps).Some?
            && var s' := Exec(limit, s, steps).value;
               && Left(s, op, s') && s'.returned == s.returned
               && s'.userLock == s.userLock && s'.managerLock == None
               && PcOf(s', t) == Idle && OthersStay(s, t, s')
  {
    DirectRun(limit, s, t, op);
    EffectIsLeft(s, op, Exec(limit, s, [EnterDirect(t, op), DoDirect(t), LeaveDirect(t)]).value);
  }

  /** With room, an add can be carried out when both locks are free. */
  lemma OneAdd<T>(limit: int, s: System<T>, t: Tid, client: T) returns (steps: seq<Step<T>>)
    requires Quiet(s, t) && HasRoom(limit, s.clients)
    ensures Exec(limit, s, steps).Some?
    ensures var s', added := Exec(limit, s, steps).value, Admission(t, client, true);
            && Quiet(s', t) && OthersStay(s, t, s')
            && s'.clients == s.clients + [client] && s'.unchecked == s.unchecked + [false]
            && s'.log == s.log + [Admitted(added)] && s'.returned == s.returned + [added]
  {
    var first := [EnterAdd(t, client), Check(t), EnterManager(t)];
    var second := [Append(t), LeaveManager(t), LeaveAdd(t)];
    ThreeSteps(limit, s, EnterAdd(t, client), Check(t), EnterManager(t));
    var s1 := Exec(limit, s, first).value;
    assert PcOf(s1, t) == AddInManager(client);
    ThreeSteps(limit, s1, Append(t), LeaveManager(t), LeaveAdd(t));
    ExecConcat(limit, s, first, second);
    steps := first + second;
  }

  /** Without room it is refused, whoever holds the registry's lock, and changes nothing. */
  lemma OneRefusal<T>(limit: int, s: System<T>, t: Tid, client: T)
    requires PcOf(s, t) == Idle && s.userLock == None && !HasRoom(limit, s.clients)
    ensures var steps := [EnterAdd(t, client), Check(t), LeaveAdd(t)];
            && Exec(limit, s, steps).Some?
            && var s', refused := Exec(limit, s, steps).value, Admission(t, client, false);
               && s'.clients == s.clients && s'.unchecked == s.unchecked
               && s'.log == s.log + [Admitted(refused)] && s'.returned == s.returned + [refused]
               && s'.userLock == None && s'.managerLock == s.managerLock
               && PcOf(s', t) == Idle && OthersStay(s, t, s')
  {
    ThreeSteps(limit, s, EnterAdd(t, client), Check(t), LeaveAdd(t));
  }

  lemma {:induction false} ManyAdds<T>(limit: int, s: System<T>, t: Tid, client: T, n: nat)
    returns (steps: seq<Step<T>>)
    requires Quiet(s, t) && (limit == NO_LIMIT || |s.clients| + n <= limit)
    ensures Exec(limit, s, steps).Some?
    ensures var s' := Exec(limit, s, steps).value;
            Quiet(s', t) && |s'.clients| == |s.clients| + n && Tally(s'.unchecked, true) == Tally(s.unchecked, true)
  {
    if n == 0 {
      steps := [];
    } else {
      var init := ManyAdds(limit, s, t, client, n - 1);
      var s1 := Exec(limit, s, init).value;
      var last := OneAdd(limit, s1, t, client);
      TallyAppend(s1.unchecked, false, true);
      ExecConcat(limit, s, init, last);
      steps := init + last;
    }
  }

  lemma {:induction false} ManySockets<T>(limit: int, s: System<T>, t: Tid, client: T, n: nat)
    returns (steps: seq<Step<T>>)
    requires Quiet(s, t)
    ensures Exec(limit, s, steps).Some?
    ensures var s' := Exec(limit, s, steps).value;
            && Quiet(s', t) && |s'.clients| == |s.clients| + n
            && Tally(s'.unchecked, true) == Tally(s.unchecked, true) + n
  {
    if n == 0 {
      steps := [];
    } else {
      var init := ManySockets(limit, s, t, client, n - 1);
      var s1 := Exec(limit, s, init).value;
      var last := [EnterDirect(t, AddSocket(client)), DoDirect(t), LeaveDirect(t)];
      OneDirect(limit, s1, t, AddSocket(client));
      TallyAppend(s1.unchecked, true, true);
      ExecConcat(limit, s, init, last);
      steps := init + last;
    }
  }

  /**
   The bound cannot be improved: for every limit, every beginning and every number of unchecked
   entries it is reached.
   */
  lemma QuotaIsTight<T>(limit: int, initially: seq<T>, n: nat, client: T) returns (steps: seq<Step<T>>)
    requires limit != NO_LIMIT
    ensures Exec(limit, Start(initially), steps).Some?
    ensures var s := Exec(limit, Start(initially), steps).value;
            Tally(s.unchecked, true) == n && |s.clients| == Cap(limit, |initially|) + n
  {
    var start := Start(initially);
    StartMarks(initially);
    var adds := if limit > |initially| then limit - |initially| else 0;
    var first := [];
    if adds > 0 {
      first := ManyAdds(limit, start, 0, client, adds);
    }
    var second := ManySockets(limit, Exec(limit, start, first).value, 0, client, n);
    ExecConcat(limit, start, first, second);
    steps := first + second;
  }

  /** And the limit -1 is none: any number of clients can be reached through the user. */
  lemma NoLimitIsNone<T>(initially: seq<T>, n: nat, client: T) returns (steps: seq<Step<T>>)
    ensures Exec(-1, Start(initially), steps).Some?
    ensures var s := Exec(-1, Start(initially), steps).value;
            |s.clients| == |initially| + n && Tally(s.unchecked, true) == 0
  {
    StartMarks(initially);
    steps := ManyAdds(NO_LIMIT, Start(initially), 0, client, n);
  }
}
