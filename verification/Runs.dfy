/**
 Runs of a parser: any mix of `parse` calls and `set_status` calls.

 `Next` is one call as a function on values, `After` a whole run. `Received`, `Login`, `Lines` and
 `Popped` describe the same run without looking at parser states; `RunInvariant` and
 `RunRefinement` say that they determine the state and the outcome of every call.

 Nothing here depends on how a chunk is cut into lines, only on chunk boundaries not mattering for
 it (`Chunkwise`), nor on what becomes of a line. RequestRuns puts the real functions in.
 */
module Runs {
  import opened Bytes
  import opened Framing
  import opened Commands

  /** `scan` takes a chunk through the framing; `dispatch` says what becomes of a line under a login status. */
  datatype Functions = Functions(scan: (Scanner, seq<byte>) -> Fed, dispatch: (Line, bool) -> Outcome)

  ghost predicate Chunkwise(scan: (Scanner, seq<byte>) -> Fed) {
    && (forall sc :: scan(sc, []) == Fed(sc, []))
    && (forall sc, a, b ::
          var f := scan(sc, a);
          var g := scan(f.scanner, b);
          scan(sc, a + b) == Fed(g.scanner, f.lines + g.lines))
  }

  type Config = c: Functions | Chunkwise(c.scan)
    ghost witness Functions((sc, s) => Fed(sc, []), (line, loggedon) => Silent)

  datatype Parser = Parser(scanner: Scanner, queue: seq<Line>, loggedon: bool)

  const START := Parser(IDLE, [], false)

  datatype Event = Receive(data: seq<byte>) | SetStatus(loggedon: bool)

  /** `outcome` is None when more data is needed. */
  datatype Stepped = Stepped(parser: Parser, outcome: Option<Outcome>)

  function Next(cfg: Config, p: Parser, e: Event): Stepped {
    match e
    case SetStatus(loggedon) => Stepped(p.(loggedon := loggedon), None)
    case Receive(data) =>
      var f := cfg.scan(p.scanner, data);
      var queue := p.queue + f.lines;
      if queue == [] then Stepped(Parser(f.scanner, [], p.loggedon), None)
      else Stepped(Parser(f.scanner, queue[1..], p.loggedon), Some(cfg.dispatch(queue[0], p.loggedon)))
  }

  function After(cfg: Config, es: seq<Event>): Parser {
    if es == [] then START else Next(cfg, After(cfg, es[..|es| - 1]), es[|es| - 1]).parser
  }

  function OutcomeAt(cfg: Config, es: seq<Event>, k: nat): Option<Outcome>
    requires k < |es|
  {
    Next(cfg, After(cfg, es[..k]), es[k]).outcome
  }

  /** The outcomes of a run, in order. */
  function Outcomes(cfg: Config, es: seq<Event>): seq<Outcome> {
    if es == [] then []
    else
      var init := es[..|es| - 1];
      var o := Next(cfg, After(cfg, init), es[|es| - 1]).outcome;
      Outcomes(cfg, init) + if o.Some? then [o.value] else []
  }

  // ---------- The run seen from outside ----------

  /** All bytes received, chunk boundaries forgotten. */
  function Received(es: seq<Event>): seq<byte> {
    if es == [] then []
    else
      var e := es[|es| - 1];
      Received(es[..|es| - 1]) + if e.Receive? then e.data else []
  }

  function Login(es: seq<Event>): bool {
    if es == [] then false
    else
      var e := es[|es| - 1];
      if e.SetStatus? then e.loggedon else Login(es[..|es| - 1])
  }

  /** The lines of everything received so far. */
  function Lines(cfg: Config, es: seq<Event>): seq<Line> {
    cfg.scan(IDLE, Received(es)).lines
  }

  /** What is left of it after the last line. */
  function Rest(cfg: Config, es: seq<Event>): Scanner {
    cfg.scan(IDLE, Received(es)).scanner
  }

  /** How many lines have been dealt with: each call deals with one if there is one. */
  function Popped(cfg: Config, es: seq<Event>): nat {
    if es == [] then 0
    else
      var before := Popped(cfg, es[..|es| - 1]);
      if es[|es| - 1].Receive? && before < |Lines(cfg, es)| then before + 1 else before
  }

  /** The login status under which each of these lines was dealt with. */
  function PopLogins(cfg: Config, es: seq<Event>): (logins: seq<bool>)
    ensures |logins| == Popped(cfg, es)
  {
    if es == [] then []
    else
      var init := es[..|es| - 1];
      PopLogins(cfg, init)
        + if es[|es| - 1].Receive? && Popped(cfg, init) < |Lines(cfg, es)| then [Login(init)] else []
  }

  // ---------- Prefixes ----------

  lemma {:induction false} ReceivedConcat(a: seq<Event>, b: seq<Event>)
    ensures Received(a + b) == Received(a) + Received(b)
    decreases |b|
  {
    if b == [] {
      assert a + b == a;
    } else {
      assert (a + b)[..|a + b| - 1] == a + b[..|b| - 1];
      ReceivedConcat(a, b[..|b| - 1]);
    }
  }

  lemma LinesGrow(cfg: Config, a: seq<Event>, b: seq<Event>)
    ensures Lines(cfg, a + b) == Lines(cfg, a) + cfg.scan(Rest(cfg, a), Received(b)).lines
    ensures Rest(cfg, a + b) == cfg.scan(Rest(cfg, a), Received(b)).scanner
  {
    ReceivedConcat(a, b);
  }

  lemma LinesOfPrefix(cfg: Config, es: seq<Event>, k: nat)
    requires k <= |es|
    ensures Lines(cfg, es[..k]) <= Lines(cfg, es)
  {
    assert es[..k] + es[k..] == es;
    LinesGrow(cfg, es[..k], es[k..]);
  }

  // ---------- Refinement ----------

  /** The state a run should end in, from the outside description alone. */
  function Expected(cfg: Config, es: seq<Event>): Parser
    requires Popped(cfg, es) <= |Lines(cfg, es)|
  {
    Parser(Rest(cfg, es), Lines(cfg, es)[Popped(cfg, es)..], Login(es))
  }

  lemma QueueAfterPop<T>(lines: seq<T>, more: seq<T>, n: nat)
    requires n <= |lines|
    ensures lines[n..] + more == (lines + more)[n..]
    ensures n < |lines + more| ==> (lines[n..] + more)[0] == (lines + more)[n]
    ensures n < |lines + more| ==> (lines[n..] + more)[1..] == (lines + more)[n + 1..]
    ensures n == |lines + more| ==> (lines + more)[n..] == []
  {
  }

  /** What one event adds to the outside description. */
  lemma Snoc(cfg: Config, es: seq<Event>, e: Event)
    ensures Received(es + [e]) == Received(es) + (if e.Receive? then e.data else [])
    ensures Login(es + [e]) == if e.SetStatus? then e.loggedon else Login(es)
    ensures After(cfg, es + [e]) == Next(cfg, After(cfg, es), e).parser
    ensures Popped(cfg, es + [e]) ==
            if e.Receive? && Popped(cfg, es) < |Lines(cfg, es + [e])| then Popped(cfg, es) + 1 else Popped(cfg, es)
  {
    assert (es + [e])[..|es|] == es;
  }

  lemma ReceiveStep(cfg: Config, es: seq<Event>, data: seq<byte>)
    requires Popped(cfg, es) <= |Lines(cfg, es)|
    ensures var es' := es + [Receive(data)];
            var s := Next(cfg, Expected(cfg, es), Receive(data));
            && Popped(cfg, es') <= |Lines(cfg, es')|
            && s.parser == Expected(cfg, es')
            && s.outcome == (if Popped(cfg, es) < |Lines(cfg, es')|
                             then Some(cfg.dispatch(Lines(cfg, es')[Popped(cfg, es)], Login(es)))
                             else None)
  {
    Snoc(cfg, es, Receive(data));
    QueueAfterPop(Lines(cfg, es), cfg.scan(Rest(cfg, es), data).lines, Popped(cfg, es));
  }

  lemma RunInvariantStep(cfg: Config, es: seq<Event>, e: Event)
    requires Popped(cfg, es) <= |Lines(cfg, es)| && After(cfg, es) == Expected(cfg, es)
    ensures Popped(cfg, es + [e]) <= |Lines(cfg, es + [e])|
    ensures After(cfg, es + [e]) == Expected(cfg, es + [e])
  {
    Snoc(cfg, es, e);
    if e.Receive? {
      ReceiveStep(cfg, es, e.data);
    } else {
      assert Received(es + [e]) == Received(es);
    }
  }

  /** State of every run: leftover bytes, waiting lines and login status are what the stream says. */
  lemma {:induction false} RunInvariant(cfg: Config, es: seq<Event>)
    ensures Popped(cfg, es) <= |Lines(cfg, es)|
    ensures After(cfg, es) == Expected(cfg, es)
  {
    if es == [] {
    } else {
      var init, e := es[..|es| - 1], es[|es| - 1];
      SplitLast(es);
      RunInvariant(cfg, init);
      RunInvariantStep(cfg, init, e);
    }
  }

  /**
   Outcome of every call of every run: it is that of the next undealt line of the whole stream, under
   the login status at the time of the call, and nothing exactly when no such line has arrived yet.
   */
  lemma RunRefinement(cfg: Config, es: seq<Event>, k: nat)
    requires k < |es| && es[k].Receive?
    ensures var n := Popped(cfg, es[..k]);
            && (OutcomeAt(cfg, es, k) == None <==> n == |Lines(cfg, es[..k + 1])|)
            && (OutcomeAt(cfg, es, k) != None ==>
                  && n < |Lines(cfg, es)|
                  && OutcomeAt(cfg, es, k) == Some(cfg.dispatch(Lines(cfg, es)[n], Login(es[..k]))))
  {
    TakeOneMore(es, k);
    RunInvariant(cfg, es[..k]);
    RunInvariant(cfg, es[..k + 1]);
    ReceiveStep(cfg, es[..k], es[k].data);
    LinesOfPrefix(cfg, es, k + 1);
  }

  /** `outcomes` are those of the first lines, each under its own login status. */
  predicate Match(dispatch: (Line, bool) -> Outcome, lines: seq<Line>, logins: seq<bool>, outcomes: seq<Outcome>) {
    && |outcomes| == |logins| <= |lines|
    && forall i :: 0 <= i < |outcomes| ==> outcomes[i] == dispatch(lines[i], logins[i])
  }

  lemma MatchGrows(dispatch: (Line, bool) -> Outcome, lines: seq<Line>, more: seq<Line>, logins: seq<bool>,
                   outcomes: seq<Outcome>, login: bool)
    requires Match(dispatch, lines, logins, outcomes)
    ensures Match(dispatch, lines + more, logins, outcomes)
    ensures |outcomes| < |lines + more| ==>
              var o := dispatch((lines + more)[|outcomes|], login);
              Match(dispatch, lines + more, logins + [login], outcomes + [o])
  {
  }

  lemma OutcomesSnoc(cfg: Config, es: seq<Event>, e: Event)
    ensures var o := Next(cfg, After(cfg, es), e).outcome;
            Outcomes(cfg, es + [e]) == Outcomes(cfg, es) + (if o.Some? then [o.value] else [])
    ensures PopLogins(cfg, es + [e])
         == PopLogins(cfg, es)
            + (if e.Receive? && Popped(cfg, es) < |Lines(cfg, es + [e])| then [Login(es)] else [])
  {
    assert (es + [e])[..|es|] == es;
  }

  lemma OutcomesStep(cfg: Config, es: seq<Event>, e: Event)
    requires Match(cfg.dispatch, Lines(cfg, es), PopLogins(cfg, es), Outcomes(cfg, es))
    ensures Match(cfg.dispatch, Lines(cfg, es + [e]), PopLogins(cfg, es + [e]), Outcomes(cfg, es + [e]))
  {
    OutcomesSnoc(cfg, es, e);
    LinesGrow(cfg, es, [e]);
    RunInvariant(cfg, es);
    if e.Receive? {
      ReceiveStep(cfg, es, e.data);
    }
    MatchGrows(cfg.dispatch, Lines(cfg, es), cfg.scan(Rest(cfg, es), Received([e])).lines,
               PopLogins(cfg, es), Outcomes(cfg, es), Login(es));
  }

  /** All outcomes of a run at once: one for each line dealt with, in stream order. */
  lemma {:induction false} OutcomesAreDispatchedLines(cfg: Config, es: seq<Event>)
    ensures Match(cfg.dispatch, Lines(cfg, es), PopLogins(cfg, es), Outcomes(cfg, es))
  {
    if es == [] {
    } else {
      var init, e := es[..|es| - 1], es[|es| - 1];
      SplitLast(es);
      OutcomesAreDispatchedLines(cfg, init);
      OutcomesStep(cfg, init, e);
    }
  }

  lemma OutcomesCount(cfg: Config, es: seq<Event>)
    ensures |Outcomes(cfg, es)| == Popped(cfg, es) <= |Lines(cfg, es)|
  {
    OutcomesAreDispatchedLines(cfg, es);
  }

  lemma QueueIsRest(cfg: Config, es: seq<Event>)
    ensures Popped(cfg, es) <= |Lines(cfg, es)| && After(cfg, es).queue == Lines(cfg, es)[Popped(cfg, es)..]
  {
    RunInvariant(cfg, es);
  }

  /**
   Nothing gets lost between the socket and the dispatcher: the lines dealt with and those waiting
   make up the stream.
   */
  lemma Conservation(cfg: Config, es: seq<Event>)
    ensures Popped(cfg, es) <= |Lines(cfg, es)|
    ensures Lines(cfg, es)[..Popped(cfg, es)] + After(cfg, es).queue == Lines(cfg, es)
    ensures |Outcomes(cfg, es)| + |After(cfg, es).queue| == |Lines(cfg, es)|
  {
    QueueIsRest(cfg, es);
    OutcomesCount(cfg, es);
    TakeDrop(Lines(cfg, es), Popped(cfg, es));
  }
}
