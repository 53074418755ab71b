/** The laws of runs for the real framing and the real dispatch. */
module RequestRuns {
  import opened Bytes
  import opened Framing
  import opened FramingLaws
  import opened Commands
  import opened CommandLaws
  import opened Runs
  import opened RunLaws

  lemma FeedIsChunkwise(charSigned: bool, scan: (Scanner, seq<byte>) -> Fed)
    requires forall sc, s :: scan(sc, s) == Feed(charSigned, sc, s)
    ensures Chunkwise(scan)
  {
    forall sc: Scanner, a: seq<byte>, b: seq<byte>
      ensures scan(sc, a + b)
           == Fed(scan(scan(sc, a).scanner, b).scanner, scan(sc, a).lines + scan(scan(sc, a).scanner, b).lines)
    {
      FeedConcat(charSigned, sc, a, b);
    }
  }

  function ParserConfig(charSigned: bool, decode: Decoder): (cfg: Config)
    ensures forall sc, s :: cfg.scan(sc, s) == Feed(charSigned, sc, s)
    ensures forall line, loggedon :: cfg.dispatch(line, loggedon) == Dispatch(decode, line, loggedon)
  {
    var scan := (sc, s) => Feed(charSigned, sc, s);
    var dispatch := (line, loggedon) => Dispatch(decode, line, loggedon);
    FeedIsChunkwise(charSigned, scan);
    Functions(scan, dispatch)
  }

  lemma ConfigFrames(charSigned: bool, decode: Decoder, es: seq<Event>)
    ensures Lines(ParserConfig(charSigned, decode), es) == Frames(charSigned, Received(es))
    ensures Rest(ParserConfig(charSigned, decode), es) == Residual(charSigned, Received(es))
  {
    FeedIsFraming(charSigned, Received(es));
  }

  // ---------- The main refinement ----------

  /**
   Every call of every run: with n lines of the byte stream dealt with before it, the call answers line
   n of the stream, under the login status it is made with, and asks for more data exactly when the
   bytes so far hold no such line.
   */
  lemma EveryCallAnswersTheNextLine(charSigned: bool, decode: Decoder, es: seq<Event>, k: nat)
    requires k < |es| && es[k].Receive?
    ensures var cfg := ParserConfig(charSigned, decode);
            var n := Popped(cfg, es[..k]);
            var o := OutcomeAt(cfg, es, k);
            && (o == None <==> n == |Frames(charSigned, Received(es[..k + 1]))|)
            && (o != None ==>
                  && n < |Frames(charSigned, Received(es))|
                  && o == Some(Dispatch(decode, Frames(charSigned, Received(es))[n], Login(es[..k]))))
  {
    RunRefinement(ParserConfig(charSigned, decode), es, k);
    ConfigFrames(charSigned, decode, es);
    ConfigFrames(charSigned, decode, es[..k + 1]);
  }

  /** With one login status and a drain at the end, the byte stream alone decides all outcomes. */
  lemma StreamDecidesOutcomes(charSigned: bool, decode: Decoder, es: seq<Event>, n: nat, b: bool)
    requires n >= |After(ParserConfig(charSigned, decode), es).queue| && SteadyFrom(es + Drains(n), 0, b)
    ensures var cfg := ParserConfig(charSigned, decode);
            && Outcomes(cfg, es + Drains(n)) == DispatchAll(cfg.dispatch, Frames(charSigned, Received(es)), b)
            && After(cfg, es + Drains(n)) == Parser(Residual(charSigned, Received(es)), [], Login(es))
  {
    DrainedRun(ParserConfig(charSigned, decode), es, n, b);
    ConfigFrames(charSigned, decode, es);
  }

  /** Any list of legal lines, sent with CRLF in chunks of any shape, comes out line by line. */
  lemma PipelineRoundTrip(charSigned: bool, decode: Decoder, lines: seq<Line>, es: seq<Event>, n: nat, b: bool)
    requires LegalLines(charSigned, lines) && Received(es) == Encode(lines)
    requires n >= |After(ParserConfig(charSigned, decode), es).queue| && SteadyFrom(es + Drains(n), 0, b)
    ensures var cfg := ParserConfig(charSigned, decode);
            && Outcomes(cfg, es + Drains(n)) == DispatchAll(cfg.dispatch, lines, b)
            && After(cfg, es + Drains(n)) == Parser(IDLE, [], Login(es))
  {
    FramesOfEncode(charSigned, lines);
    StreamDecidesOutcomes(charSigned, decode, es, n, b);
  }

  /**
   A client that sends several lines in one chunk gets an answer to the first; all others are left
   waiting until there are further calls.
   */
  lemma OneChunkOneAnswer(charSigned: bool, decode: Decoder, lines: seq<Line>)
    requires lines != [] && LegalLines(charSigned, lines)
    ensures var cfg := ParserConfig(charSigned, decode);
            var s := Next(cfg, START, Receive(Encode(lines)));
            && s.outcome == Some(cfg.dispatch(lines[0], false))
            && s.parser == Parser(IDLE, lines[1..], false)
  {
    FramesOfEncode(charSigned, lines);
    FeedIsFraming(charSigned, Encode(lines));
    FirstCall(ParserConfig(charSigned, decode), Encode(lines));
  }

  /** For instance the second of two NOOP lines. */
  lemma SecondNoopWaits(charSigned: bool, decode: Decoder)
    ensures var cfg, noop := ParserConfig(charSigned, decode), Ascii("NOOP");
            var s := Next(cfg, START, Receive(Encode([noop, noop])));
            s.outcome == Some(cfg.dispatch(noop, false)) && s.parser.queue == [noop]
  {
    var noop := Ascii("NOOP");
    assert NoEol(noop) && LegalLine(charSigned, noop);
    OneChunkOneAnswer(charSigned, decode, [noop, noop]);
    assert [noop, noop][1..] == [noop];
  }

  // ---------- Login gating ----------

  /** Both gates hold of every command of every run, judged when its line is dealt with and not when it came in. */
  lemma CommandsAreGated(charSigned: bool, decode: Decoder, es: seq<Event>, k: nat, command: Command)
    requires k < |es| && es[k].Receive?
    requires OutcomeAt(ParserConfig(charSigned, decode), es, k) == Some(Accepted(command))
    ensures Login(es[..k]) || command.beforeLogon
    ensures command.hasArgs ==> command.args != ""
    ensures command.id != Invalid
  {
    EveryCallAnswersTheNextLine(charSigned, decode, es, k);
    var n := Popped(ParserConfig(charSigned, decode), es[..k]);
    AcceptedIsGated(decode, Frames(charSigned, Received(es))[n], Login(es[..k]));
  }

  lemma {:induction false} NotLoggedOn(es: seq<Event>, k: nat)
    requires k <= |es| && forall i :: 0 <= i < k ==> es[i] != SetStatus(true)
    ensures !Login(es[..k])
  {
    if k == 0 {
    } else {
      assert es[..k][..k - 1] == es[..k - 1];
      NotLoggedOn(es, k - 1);
    }
  }

  /** Until `set_status(true)`, whatever a client sends and however often, only the pre-login verbs come through. */
  lemma OnlyLoginVerbsBeforeLogon(charSigned: bool, decode: Decoder, es: seq<Event>, k: nat, command: Command)
    requires k < |es| && es[k].Receive?
    requires forall i :: 0 <= i < k ==> es[i] != SetStatus(true)
    requires OutcomeAt(ParserConfig(charSigned, decode), es, k) == Some(Accepted(command))
    ensures exists verb :: verb in BEFORE_LOGON && verb in VerbsOf(command.id)
  {
    NotLoggedOn(es, k);
    EveryCallAnswersTheNextLine(charSigned, decode, es, k);
    var line := Frames(charSigned, Received(es))[Popped(ParserConfig(charSigned, decode), es[..k])];
    AcceptedIsGated(decode, line, false);
    BeforeLogonVerbs(Upper(RawVerb(decode(line).value)));
  }

  // ---------- End to end ----------

  /** UTF-8 reads ASCII bytes as the characters they are. */
  ghost predicate DecodesAscii(decode: Decoder) {
    forall t: string :: IsAsciiText(t) ==> decode(Ascii(t)) == Some(t)
  }

  predicate LegalText(t: string) {
    IsAsciiText(t) && NoEol(Ascii(t))
  }

  lemma TypedVerbIsLegal(typed: string, verb: string)
    requires Lookup(verb).Some? && IsCaseVariant(typed, verb)
    ensures LegalText(typed) && 3 <= |typed| <= 4 && ' ' !in typed
  {
    TableVerbs(verb);
    forall i | 0 <= i < |typed|
      ensures 32 < typed[i] as int < 128
    {
      assert VerbChar(verb[i]) && SameLetter(typed[i], verb[i]);
    }
  }

  /** The line a client sends for a command, with or without the space. */
  function RequestLine(verb: string, spaced: bool, args: string): Line
    requires LegalText(verb) && LegalText(args)
  {
    Ascii(Compose(verb, spaced, args))
  }

  lemma RequestIsLegal(charSigned: bool, verb: string, spaced: bool, args: string)
    requires LegalText(verb) && LegalText(args) && verb != "" && |verb| + 1 + |args| <= MAX_LINE
    ensures LegalLines(charSigned, [RequestLine(verb, spaced, args)])
  {
    var line := RequestLine(verb, spaced, args);
    assert line == Ascii(verb) + if spaced then [SPACE] + Ascii(args) else [];
    assert NoEol(line);
  }

  /** On an idle parser a legal line completes exactly itself. */
  lemma SentLineArrives(charSigned: bool, decode: Decoder, before: seq<Event>, es: seq<Event>, line: Line)
    requires After(ParserConfig(charSigned, decode), before).scanner == IDLE
    requires LegalLines(charSigned, [line]) && Received(es) == line + [13, 10]
    ensures var cfg := ParserConfig(charSigned, decode);
            && Lines(cfg, before + es) == Lines(cfg, before) + [line]
            && After(cfg, before + es).scanner == IDLE
  {
    var cfg := ParserConfig(charSigned, decode);
    assert Encode([line]) == line + [13, 10];
    FramesOfEncode(charSigned, [line]);
    FeedIsFraming(charSigned, Received(es));
    RunInvariant(cfg, before);
    LinesGrow(cfg, before, es);
    RunInvariant(cfg, before + es);
  }

  /** A legal line on a parser that is idle and has nothing waiting gives its own outcome and no other. */
  lemma OneRequest(charSigned: bool, decode: Decoder, before: seq<Event>, es: seq<Event>, line: Line, loggedon: bool)
    requires var p := After(ParserConfig(charSigned, decode), before); p.scanner == IDLE && p.queue == []
    requires LegalLines(charSigned, [line]) && Received(es) == line + [13, 10]
    requires SteadyFrom(before + es, |before|, loggedon)
    ensures var cfg := ParserConfig(charSigned, decode);
            && Outcomes(cfg, before + es) == Outcomes(cfg, before) + [Dispatch(decode, line, loggedon)]
            && After(cfg, before + es).scanner == IDLE && After(cfg, before + es).queue == []
  {
    SentLineArrives(charSigned, decode, before, es, line);
    OneLineOneOutcome(ParserConfig(charSigned, decode), before, es, line, loggedon);
  }

  lemma RequestIsText(decode: Decoder, typed: string, spaced: bool, args: string, loggedon: bool)
    requires DecodesAscii(decode) && LegalText(typed) && LegalText(args)
    ensures Dispatch(decode, RequestLine(typed, spaced, args), loggedon)
         == DispatchText(Compose(typed, spaced, args), loggedon)
  {
    assert decode(RequestLine(typed, spaced, args)) == Some(Compose(typed, spaced, args));
    UndecodableIff(decode, RequestLine(typed, spaced, args), loggedon);
  }

  /**
   From a parser with nothing buffered and nothing waiting, whatever happened to it before: the bytes
   of a verb in any letter case, a space and ASCII arguments if there are any, and CRLF, in chunks of
   any shape, give exactly one outcome. It is the command the verb stands for with exactly those
   arguments when the argument gate and the login gate pass, and the refusal of the gate when one
   does not. The parser is idle again afterwards.
   */
  lemma RequestRoundTrip(charSigned: bool, decode: Decoder, before: seq<Event>, es: seq<Event>,
                         verb: string, id: CommandId, typed: string, spaced: bool, args: string, loggedon: bool)
    requires DecodesAscii(decode)
    requires verb in VerbsOf(id) && IsCaseVariant(typed, verb)
    requires LegalText(typed) && LegalText(args) && |typed| + 1 + |args| <= 2000
    requires !spaced ==> args == ""
    requires var p := After(ParserConfig(charSigned, decode), before); p.scanner == IDLE && p.queue == []
    requires Received(es) == RequestLine(typed, spaced, args) + [13, 10]
    requires SteadyFrom(before + es, |before|, loggedon)
    ensures var cfg := ParserConfig(charSigned, decode);
            && Outcomes(cfg, before + es) == Outcomes(cfg, before) + [Due(verb, id, args, loggedon)]
            && After(cfg, before + es).scanner == IDLE && After(cfg, before + es).queue == []
  {
    var line := RequestLine(typed, spaced, args);
    LookupIffVerbOf(verb, id);
    TypedVerbIsLegal(typed, verb);
    RequestIsLegal(charSigned, typed, spaced, args);
    OneRequest(charSigned, decode, before, es, line, loggedon);
    OutcomeIsDue(verb, id, typed, spaced, args, loggedon);
    RequestIsText(decode, typed, spaced, args, loggedon);
  }

  /** The same for a line that opens with no verb at all: it is refused, and the parser goes on. */
  lemma UnknownRequest(charSigned: bool, decode: Decoder, before: seq<Event>, es: seq<Event>,
                       typed: string, spaced: bool, args: string, loggedon: bool)
    requires DecodesAscii(decode)
    requires typed != "" && ' ' !in typed && IsVerbOfNone(typed)
    requires LegalText(typed) && LegalText(args) && |typed| + 1 + |args| <= 2000
    requires !spaced ==> args == ""
    requires var p := After(ParserConfig(charSigned, decode), before); p.scanner == IDLE && p.queue == []
    requires Received(es) == RequestLine(typed, spaced, args) + [13, 10]
    requires SteadyFrom(before + es, |before|, loggedon)
    ensures var cfg := ParserConfig(charSigned, decode);
            && Outcomes(cfg, before + es)
               == Outcomes(cfg, before) + [Refused(500, "Syntax error, command unrecognized.")]
            && After(cfg, before + es).scanner == IDLE && After(cfg, before + es).queue == []
  {
    var line := RequestLine(typed, spaced, args);
    RequestIsLegal(charSigned, typed, spaced, args);
    OneRequest(charSigned, decode, before, es, line, loggedon);
    UnrecognizedIff(typed, spaced, args, loggedon);
    RequestIsText(decode, typed, spaced, args, loggedon);
  }
}
