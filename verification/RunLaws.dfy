/** What holds of every run of a parser, whatever the chunks, the calls and the login changes. */
module RunLaws {
  import opened Bytes
  import opened Framing
  import opened Commands
  import opened Runs

  function Min(a: nat, b: nat): nat {
    if a <= b then a else b
  }

  // ---------- Draining ----------

  /** Calls that bring no bytes. */
  function Drains(n: nat): (es: seq<Event>)
    ensures |es| == n && forall i :: 0 <= i < n ==> es[i] == Receive([])
  {
    if n == 0 then [] else Drains(n - 1) + [Receive([])]
  }

  lemma DrainOnce(cfg: Config, es: seq<Event>)
    ensures var p := After(cfg, es);
            && After(cfg, es + [Receive([])]) == p.(queue := p.queue[Min(1, |p.queue|)..])
            && Next(cfg, p, Receive([])).outcome
                 == (if p.queue == [] then None else Some(cfg.dispatch(p.queue[0], p.loggedon)))
    ensures Received(es + [Receive([])]) == Received(es)
  {
    Snoc(cfg, es, Receive([]));
    assert Received(es) + [] == Received(es);
    assert After(cfg, es).queue + [] == After(cfg, es).queue;
  }

  lemma DropOneMore<T>(q: seq<T>, n: nat)
    ensures q[Min(0, |q|)..] == q
    ensures var r := q[Min(n, |q|)..];
            r[Min(1, |r|)..] == q[Min(n + 1, |q|)..]
  {
  }

  lemma DrainsSnoc(es: seq<Event>, n: nat)
    ensures es + Drains(0) == es
    ensures es + Drains(n + 1) == es + Drains(n) + [Receive([])]
  {
  }

  lemma DrainedStep(cfg: Config, es: seq<Event>, p: Parser, n: nat)
    requires After(cfg, es) == p.(queue := p.queue[Min(n, |p.queue|)..])
    ensures After(cfg, es + [Receive([])]) == p.(queue := p.queue[Min(n + 1, |p.queue|)..])
  {
    DrainOnce(cfg, es);
    DropOneMore(p.queue, n);
  }

  lemma {:induction false} DrainedState(cfg: Config, es: seq<Event>, n: nat)
    ensures var p := After(cfg, es);
            After(cfg, es + Drains(n)) == p.(queue := p.queue[Min(n, |p.queue|)..])
    ensures Received(es + Drains(n)) == Received(es)
  {
    if n == 0 {
      DrainsSnoc(es, 0);
      DropOneMore(After(cfg, es).queue, 0);
    } else {
      DrainedState(cfg, es, n - 1);
      DrainedStep(cfg, es + Drains(n - 1), After(cfg, es), n - 1);
      DrainOnce(cfg, es + Drains(n - 1));
      DrainsSnoc(es, n - 1);
    }
  }

  /** Draining deals with the waiting lines one by one, in order, and then only asks for more data. */
  lemma DrainIsExact(cfg: Config, es: seq<Event>, n: nat, j: nat)
    requires j < n
    ensures var p := After(cfg, es);
            OutcomeAt(cfg, es + Drains(n), |es| + j)
              == if j < |p.queue| then Some(cfg.dispatch(p.queue[j], p.loggedon)) else None
  {
    var run, init := es + Drains(n), es + Drains(j);
    assert run[..|es| + j] == init && run[|es| + j] == Receive([]);
    DrainedState(cfg, es, j);
    DrainOnce(cfg, init);
  }

  // ---------- Confluence ----------

  /** Every call from position `m` on is made under login status `b`. */
  predicate SteadyFrom(es: seq<Event>, m: nat, b: bool) {
    forall k :: m <= k < |es| && es[k].Receive? ==> Login(es[..k]) == b
  }

  lemma {:induction false} PopLoginsWhenSteady(cfg: Config, es: seq<Event>, m: nat, b: bool)
    requires m <= |es| && SteadyFrom(es, m, b)
    ensures Popped(cfg, es[..m]) <= Popped(cfg, es)
    ensures forall i :: Popped(cfg, es[..m]) <= i < Popped(cfg, es) ==> PopLogins(cfg, es)[i] == b
    decreases |es|
  {
    if m == |es| {
      assert es[..m] == es;
    } else {
      var init, e := es[..|es| - 1], es[|es| - 1];
      assert init[..m] == es[..m] && es == init + [e];
      forall k | m <= k < |init| && init[k].Receive?
        ensures Login(init[..k]) == b
      {
        assert init[..k] == es[..k];
      }
      PopLoginsWhenSteady(cfg, init, m, b);
      OutcomesSnoc(cfg, init, e);
    }
  }

  function DispatchAll(dispatch: (Line, bool) -> Outcome, lines: seq<Line>, loggedon: bool): seq<Outcome> {
    seq(|lines|, i requires 0 <= i < |lines| => dispatch(lines[i], loggedon))
  }

  lemma MatchUnderOneLogin(dispatch: (Line, bool) -> Outcome, lines: seq<Line>, logins: seq<bool>,
                           outcomes: seq<Outcome>, b: bool)
    requires Match(dispatch, lines, logins, outcomes) && forall i :: 0 <= i < |logins| ==> logins[i] == b
    ensures outcomes == DispatchAll(dispatch, lines[..|outcomes|], b)
  {
  }

  lemma SteadyOutcomes(cfg: Config, es: seq<Event>, b: bool)
    requires SteadyFrom(es, 0, b)
    ensures Popped(cfg, es) <= |Lines(cfg, es)|
    ensures Outcomes(cfg, es) == DispatchAll(cfg.dispatch, Lines(cfg, es)[..Popped(cfg, es)], b)
  {
    assert es[..0] == [];
    PopLoginsWhenSteady(cfg, es, 0, b);
    OutcomesAreDispatchedLines(cfg, es);
    MatchUnderOneLogin(cfg.dispatch, Lines(cfg, es), PopLogins(cfg, es), Outcomes(cfg, es), b);
  }

  lemma DrainedQueue(cfg: Config, es: seq<Event>, n: nat)
    requires n >= |After(cfg, es).queue|
    ensures After(cfg, es + Drains(n)) == Parser(Rest(cfg, es), [], Login(es))
    ensures Lines(cfg, es + Drains(n)) == Lines(cfg, es) && Popped(cfg, es + Drains(n)) == |Lines(cfg, es)|
  {
    DrainedState(cfg, es, n);
    RunInvariant(cfg, es);
    QueueIsRest(cfg, es + Drains(n));
  }

  /**
   With one login status throughout, a run that is drained at the end gives the outcomes of the
   lines of its byte stream and leaves its unfinished line: how the stream was cut into chunks, and
   where empty calls came in between, has left no trace.
   */
  lemma DrainedRun(cfg: Config, es: seq<Event>, n: nat, b: bool)
    requires n >= |After(cfg, es).queue| && SteadyFrom(es + Drains(n), 0, b)
    ensures Outcomes(cfg, es + Drains(n)) == DispatchAll(cfg.dispatch, Lines(cfg, es), b)
    ensures After(cfg, es + Drains(n)) == Parser(Rest(cfg, es), [], Login(es))
  {
    DrainedQueue(cfg, es, n);
    SteadyOutcomes(cfg, es + Drains(n), b);
    TakeDrop(Lines(cfg, es), |Lines(cfg, es)|);
  }

  lemma Confluence(cfg: Config, es: seq<Event>, n: nat, fs: seq<Event>, m: nat, b: bool)
    requires Received(es) == Received(fs)
    requires n >= |After(cfg, es).queue| && SteadyFrom(es + Drains(n), 0, b)
    requires m >= |After(cfg, fs).queue| && SteadyFrom(fs + Drains(m), 0, b)
    ensures Outcomes(cfg, es + Drains(n)) == Outcomes(cfg, fs + Drains(m))
    ensures After(cfg, es + Drains(n)).scanner == After(cfg, fs + Drains(m)).scanner
    ensures After(cfg, es + Drains(n)).queue == After(cfg, fs + Drains(m)).queue == []
  {
    DrainedRun(cfg, es, n, b);
    DrainedRun(cfg, fs, m, b);
  }

  // ---------- Backlog ----------

  function Calls(es: seq<Event>): nat {
    if es == [] then 0 else Calls(es[..|es| - 1]) + if es[|es| - 1].Receive? then 1 else 0
  }

  /** Lines completed from position `i` on, less the calls made from there on. */
  function Surplus(cfg: Config, es: seq<Event>, i: nat): int
    requires i <= |es|
  {
    (|Lines(cfg, es)| - |Lines(cfg, es[..i])|) - (Calls(es) - Calls(es[..i]))
  }

  lemma SurplusSnoc(cfg: Config, es: seq<Event>, e: Event, i: nat)
    requires i <= |es|
    ensures Surplus(cfg, es + [e], i)
         == Surplus(cfg, es, i) + |Lines(cfg, es + [e])| - |Lines(cfg, es)| - (if e.Receive? then 1 else 0)
  {
    assert (es + [e])[..|es|] == es && (es + [e])[..i] == es[..i];
  }

  lemma BacklogSnoc(cfg: Config, es: seq<Event>, e: Event)
    ensures var waiting := |After(cfg, es).queue| + |Lines(cfg, es + [e])| - |Lines(cfg, es)|;
            |After(cfg, es + [e]).queue| == (if e.Receive? && waiting > 0 then waiting - 1 else waiting)
    ensures |Lines(cfg, es + [e])| >= |Lines(cfg, es)|
    ensures e.SetStatus? ==> |Lines(cfg, es + [e])| == |Lines(cfg, es)|
  {
    RunInvariant(cfg, es);
    RunInvariant(cfg, es + [e]);
    Snoc(cfg, es, e);
    LinesGrow(cfg, es, [e]);
  }

  lemma {:induction false} BacklogAtLeast(cfg: Config, es: seq<Event>, i: nat)
    requires i <= |es|
    ensures |After(cfg, es).queue| >= Surplus(cfg, es, i)
    decreases |es|
  {
    if i == |es| {
      assert es[..i] == es;
    } else {
      var init, e := es[..|es| - 1], es[|es| - 1];
      assert es == init + [e];
      BacklogAtLeast(cfg, init, i);
      BacklogSnoc(cfg, init, e);
      SurplusSnoc(cfg, init, e, i);
    }
  }

  lemma {:induction false} BacklogReached(cfg: Config, es: seq<Event>) returns (i: nat)
    ensures i <= |es| && |After(cfg, es).queue| == Surplus(cfg, es, i)
    decreases |es|
  {
    i := |es|;
    assert es[..i] == es;
    if es == [] {
    } else {
      var init, e := es[..|es| - 1], es[|es| - 1];
      assert es == init + [e];
      var j := BacklogReached(cfg, init);
      BacklogSnoc(cfg, init, e);
      SurplusSnoc(cfg, init, e, j);
      if |After(cfg, es).queue| != 0 {
        i := j;
      }
    }
  }

  /**
   How many lines are waiting: the largest surplus of completed lines over calls in any final stretch
   of the run. A client that sends several commands at once is behind by that many replies until
   it sends something else.
   */
  lemma BacklogFormula(cfg: Config, es: seq<Event>)
    ensures forall i :: 0 <= i <= |es| ==> |After(cfg, es).queue| >= Surplus(cfg, es, i)
    ensures exists i :: 0 <= i <= |es| && |After(cfg, es).queue| == Surplus(cfg, es, i)
  {
    forall i | 0 <= i <= |es|
      ensures |After(cfg, es).queue| >= Surplus(cfg, es, i)
    {
      BacklogAtLeast(cfg, es, i);
    }
    var i := BacklogReached(cfg, es);
  }

  /** No call completes more than one line. */
  predicate OneLinePerCall(cfg: Config, es: seq<Event>) {
    forall k :: 0 <= k < |es| ==> |Lines(cfg, es[..k + 1])| <= |Lines(cfg, es[..k])| + 1
  }

  ghost predicate NeverWaiting(cfg: Config, es: seq<Event>) {
    forall k :: 0 <= k <= |es| ==> After(cfg, es[..k]).queue == []
  }

  lemma OneLineLeavesNone(cfg: Config, es: seq<Event>, e: Event)
    requires After(cfg, es).queue == [] && |Lines(cfg, es + [e])| <= |Lines(cfg, es)| + 1
    ensures After(cfg, es + [e]).queue == []
  {
    BacklogSnoc(cfg, es, e);
  }

  lemma AtMostOneLine(cfg: Config, es: seq<Event>, k: nat)
    requires k < |es| && OneLinePerCall(cfg, es)
    ensures |Lines(cfg, es[..k + 1])| <= |Lines(cfg, es[..k])| + 1
  {
  }

  lemma {:induction false} OneLinePerCallKeepsUp(cfg: Config, es: seq<Event>, k: nat)
    requires k <= |es| && OneLinePerCall(cfg, es)
    ensures After(cfg, es[..k]).queue == []
  {
    if k == 0 {
    } else {
      OneLinePerCallKeepsUp(cfg, es, k - 1);
      AtMostOneLine(cfg, es, k - 1);
      TakeOneMore(es, k - 1);
      OneLineLeavesNone(cfg, es[..k - 1], es[k - 1]);
    }
  }

  lemma NothingWaitingAfterCall(cfg: Config, es: seq<Event>, e: Event)
    requires After(cfg, es).queue == [] && After(cfg, es + [e]).queue == []
    ensures |Lines(cfg, es + [e])| <= |Lines(cfg, es)| + 1
  {
    BacklogSnoc(cfg, es, e);
  }

  lemma KeepingUpNeedsOneLinePerCall(cfg: Config, es: seq<Event>)
    requires NeverWaiting(cfg, es)
    ensures OneLinePerCall(cfg, es)
  {
    forall k | 0 <= k < |es|
      ensures |Lines(cfg, es[..k + 1])| <= |Lines(cfg, es[..k])| + 1
    {
      assert After(cfg, es[..k]).queue == [] && After(cfg, es[..k + 1]).queue == [];
      TakeOneMore(es, k);
      NothingWaitingAfterCall(cfg, es[..k], es[k]);
    }
  }

  /** Replies keep up with the commands exactly when no single call brings in two line ends that matter. */
  lemma KeepsUpIff(cfg: Config, es: seq<Event>)
    ensures NeverWaiting(cfg, es) <==> OneLinePerCall(cfg, es)
  {
    if NeverWaiting(cfg, es) {
      KeepingUpNeedsOneLinePerCall(cfg, es);
    }
    if OneLinePerCall(cfg, es) {
      forall k | 0 <= k <= |es|
        ensures After(cfg, es[..k]).queue == []
      {
        OneLinePerCallKeepsUp(cfg, es, k);
      }
    }
  }

  lemma FirstCall(cfg: Config, data: seq<byte>)
    ensures var f, s := cfg.scan(IDLE, data), Next(cfg, START, Receive(data));
            && s.parser == Parser(f.scanner, if f.lines == [] then [] else f.lines[1..], false)
            && s.outcome == if f.lines == [] then None else Some(cfg.dispatch(f.lines[0], false))
  {
    var lines := cfg.scan(IDLE, data).lines;
    assert START.queue + lines == lines;
  }

  // ---------- One more request ----------

  lemma {:induction false} OutcomesOfPrefix(cfg: Config, a: seq<Event>, b: seq<Event>)
    ensures Outcomes(cfg, a) <= Outcomes(cfg, a + b)
    decreases |b|
  {
    if b == [] {
      assert a + b == a;
    } else {
      var init, e := b[..|b| - 1], b[|b| - 1];
      ConcatSplitLast(a, b);
      OutcomesOfPrefix(cfg, a, init);
      OutcomesSnoc(cfg, a + init, e);
    }
  }

  lemma {:induction false} OneLineIsDealtWith(cfg: Config, a: seq<Event>, b: seq<Event>)
    requires After(cfg, a).queue == []
    requires |Lines(cfg, a + b)| <= |Lines(cfg, a)| + 1
    ensures After(cfg, a + b).queue == []
    decreases |b|
  {
    if b == [] {
      assert a + b == a;
    } else {
      var init, e := b[..|b| - 1], b[|b| - 1];
      ConcatSplitLast(a, b);
      LinesOnlyGrow(cfg, a + init, [e]);
      OneLineIsDealtWith(cfg, a, init);
      LinesOnlyGrow(cfg, a, init);
      OneLineLeavesNone(cfg, a + init, e);
    }
  }

  lemma LinesOnlyGrow(cfg: Config, a: seq<Event>, b: seq<Event>)
    ensures |Lines(cfg, a)| <= |Lines(cfg, a + b)|
  {
    LinesGrow(cfg, a, b);
  }

  /**
   From a parser that has nothing waiting, a further stretch `b` of any shape that completes one line
   produces that line's outcome, and no other, under the login status held during the stretch.
   */
  lemma OneLineOneOutcome(cfg: Config, a: seq<Event>, b: seq<Event>, line: Line, loggedon: bool)
    requires After(cfg, a).queue == []
    requires Lines(cfg, a + b) == Lines(cfg, a) + [line]
    requires SteadyFrom(a + b, |a|, loggedon)
    ensures Outcomes(cfg, a + b) == Outcomes(cfg, a) + [cfg.dispatch(line, loggedon)]
    ensures After(cfg, a + b).queue == []
  {
    OneLineIsDealtWith(cfg, a, b);
    OutcomesWithoutQueue(cfg, a);
    OutcomesWithoutQueue(cfg, a + b);
    OutcomesOfPrefix(cfg, a, b);
    LastOutcome(cfg, a, b, loggedon);
    ExtendedByOne(Outcomes(cfg, a), Outcomes(cfg, a + b));
  }

  lemma OutcomesWithoutQueue(cfg: Config, es: seq<Event>)
    requires After(cfg, es).queue == []
    ensures |Outcomes(cfg, es)| == Popped(cfg, es) == |Lines(cfg, es)|
  {
    Conservation(cfg, es);
    OutcomesCount(cfg, es);
  }

  lemma LastOutcome(cfg: Config, a: seq<Event>, b: seq<Event>, loggedon: bool)
    requires SteadyFrom(a + b, |a|, loggedon)
    ensures |Outcomes(cfg, a + b)| <= |Lines(cfg, a + b)|
    ensures forall i :: Popped(cfg, a) <= i < |Outcomes(cfg, a + b)| ==>
              Outcomes(cfg, a + b)[i] == cfg.dispatch(Lines(cfg, a + b)[i], loggedon)
  {
    assert (a + b)[..|a|] == a;
    PopLoginsWhenSteady(cfg, a + b, |a|, loggedon);
    OutcomesAreDispatchedLines(cfg, a + b);
  }
}
