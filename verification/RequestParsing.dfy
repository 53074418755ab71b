/** The parser object: a fixed receive buffer, a queue of lines and a login flag, updated in place. */
module RequestParsing {
  import opened Bytes
  import opened Framing
  import opened Commands
  import opened CommandLaws
  import opened Runs
  import opened RequestRuns
  import opened Replies

  const BUFFER_SIZE := 2048

  /** Three-valued answer of `parse`; `Thrown` when decoding the line throws. */
  datatype ParseStatus = Indeterminate | False | True | Thrown

  /** The fields of a reply. */
  datatype ReplyState = ReplyState(code: ushort, codeType: CodeType, content: seq<byte>)

  ghost function StateOf(result: Reply): ReplyState
    reads result
  {
    ReplyState(result.code, result.codeType, result.content)
  }

  /** How a line's outcome shows in the reply. Only a refusal writes to it. */
  ghost predicate Reported(o: Outcome, encode: Encoder, before: ReplyState, after: ReplyState) {
    match o
    case Refused(code, text) =>
      && code < 0x1_0000
      && after == ReplyState(code, before.codeType, Render(code, encode(before.codeType, text)))
    case _ => after == before
  }

  /**
   How an outcome, or that there is none yet, shows to the caller of `parse`; `cmd` is None when it
   was not assigned.
   */
  ghost predicate Answered(o: Option<Outcome>, status: ParseStatus, cmd: Option<Command>,
                           encode: Encoder, before: ReplyState, after: ReplyState)
  {
    match o
    case None => status == Indeterminate && cmd == None && after == before
    case Some(outcome) =>
      && Reported(outcome, encode, before, after)
      && match outcome
         case Accepted(command) => status == True && cmd == Some(command)
         case Undecodable => status == Thrown && cmd == None
         case _ => status == False && cmd == Some(INVALID_COMMAND)
  }

  /**
   The answer to a line, as a caller of `parse` sees it: when it throws, which command it returns, and
   what can be read from the reply.
   */
  ghost predicate AnswersLine(decode: Decoder, line: Line, loggedon: bool, status: ParseStatus, cmd: Option<Command>,
                              encode: Encoder, before: ReplyState, after: ReplyState)
  {
    if decode(line) == None then
      status == Thrown && cmd == None && after == before
    else
      match DispatchText(decode(line).value, loggedon)
      case Accepted(command) =>
        status == True && cmd == Some(command) && after == before
      case Refused(code, text) =>
        && status == False && cmd == Some(Command(Invalid, "", false, false))
        && after.code == code && after.codeType == before.codeType
        && ParseReply(after.content) == Some(Parsed(code, encode(before.codeType, text)))
      case _ =>
        status == False && cmd == Some(Command(Invalid, "", false, false)) && after == before
  }

  lemma AnsweredMeans(decode: Decoder, line: Line, loggedon: bool, status: ParseStatus, cmd: Option<Command>,
                      encode: Encoder, before: ReplyState, after: ReplyState)
    requires Answered(Some(Dispatch(decode, line, loggedon)), status, cmd, encode, before, after)
    ensures AnswersLine(decode, line, loggedon, status, cmd, encode, before, after)
  {
    UndecodableIff(decode, line, loggedon);
    if decode(line).Some? {
      OutcomesOfText(decode(line).value, loggedon);
      var o := DispatchText(decode(line).value, loggedon);
      if o.Refused? {
        ParseOfRender(o.code, encode(before.codeType, o.text));
      }
    }
  }

  /** The bytes of a C string: everything before the first NUL. There must be one. */
  function CString(a: seq<byte>): (s: seq<byte>)
    requires NUL in a
    ensures NUL !in s && |s| < |a| && s == a[..|s|] && a[|s|] == NUL
  {
    if a[0] == NUL then []
    else
      var rest := CString(a[1..]);
      assert [a[0]] + rest == a[..|rest| + 1];
      [a[0]] + rest
  }

  lemma CStringIsStored(a: seq<byte>, n: nat)
    requires n < |a| && NoEol(a[..n]) && a[n] == NUL
    ensures CString(a) == a[..n]
  {
    assert forall i :: 0 <= i < n ==> a[i] == a[..n][i] && a[i] != NUL;
  }

  /** The bytes a call is given; a negative length counts as none. */
  function Chunk(a: seq<byte>, datalen: int): seq<byte>
    requires datalen <= |a|
  {
    if datalen < 0 then [] else a[..datalen]
  }

  /** `cfg` stands for the framing and the dispatch of a parser. */
  ghost predicate Fits(cfg: Config, charSigned: bool, decode: Decoder) {
    && (forall sc, s {:trigger Feed(charSigned, sc, s)} :: cfg.scan(sc, s) == Feed(charSigned, sc, s))
    && (forall line, loggedon {:trigger Dispatch(decode, line, loggedon)} ::
          cfg.dispatch(line, loggedon) == Dispatch(decode, line, loggedon))
  }

  lemma ParserConfigFits(charSigned: bool, decode: Decoder)
    ensures Fits(ParserConfig(charSigned, decode), charSigned, decode)
  {
  }

  lemma LinesWhenFit(cfg: Config, charSigned: bool, decode: Decoder, es: seq<Event>)
    requires Fits(cfg, charSigned, decode)
    ensures Lines(cfg, es) == Frames(charSigned, Received(es))
  {
    FeedIsFraming(charSigned, Received(es));
  }

  /** What the next call of a history does: which state it leads to, and which line it answers. */
  lemma NextCall(cfg: Config, es: seq<Event>, data: seq<byte>)
    ensures var es', n := es + [Receive(data)], Popped(cfg, es);
            var s, lines := Next(cfg, After(cfg, es), Receive(data)), Lines(cfg, es');
            && After(cfg, es') == s.parser
            && s.outcome == if n < |lines| then Some(cfg.dispatch(lines[n], Login(es'))) else None
  {
    Snoc(cfg, es, Receive(data));
    RunInvariant(cfg, es);
    ReceiveStep(cfg, es, data);
  }

  lemma LoginIsKept(cfg: Config, es: seq<Event>)
    ensures After(cfg, es).loggedon == Login(es)
  {
    RunInvariant(cfg, es);
  }

  /** What the answer to the next call of a history says, in terms of the bytes received. */
  lemma AnswerOfCall(cfg: Config, charSigned: bool, decode: Decoder, es: seq<Event>, data: seq<byte>,
                     status: ParseStatus, cmd: Option<Command>, encode: Encoder, before: ReplyState, after: ReplyState)
    requires Fits(cfg, charSigned, decode)
    requires Answered(Next(cfg, After(cfg, es), Receive(data)).outcome, status, cmd, encode, before, after)
    ensures var n, lines := Popped(cfg, es), Frames(charSigned, Received(es + [Receive(data)]));
            if n < |lines| then AnswersLine(decode, lines[n], Login(es), status, cmd, encode, before, after)
            else status == Indeterminate && cmd == None && after == before
  {
    var n, lines := Popped(cfg, es), Frames(charSigned, Received(es + [Receive(data)]));
    NextCall(cfg, es, data);
    Snoc(cfg, es, Receive(data));
    LinesWhenFit(cfg, charSigned, decode, es + [Receive(data)]);
    if n < |lines| {
      assert cfg.dispatch(lines[n], Login(es)) == Dispatch(decode, lines[n], Login(es));
      AnsweredMeans(decode, lines[n], Login(es), status, cmd, encode, before, after);
    }
  }

  class RequestParser {
    const charSigned: bool
    const decode: Decoder

    const recvBuffer: array<byte>
    var recvBufferPos: int
    var telnetSkip: int
    var recvLines: seq<Line>
    var loggedon: bool

    /** Every call so far. */
    ghost var history: seq<Event>

    /** The functions this parser computes with. */
    ghost const cfg: Config

    /** The buffer is never read or written beyond its size, and holds no line end in its used part. */
    ghost predicate InBounds()
      reads this, recvBuffer
    {
      && recvBuffer.Length == BUFFER_SIZE
      && 0 <= recvBufferPos <= MAX_LINE
      && NoEol(recvBuffer[..recvBufferPos])
    }

    ghost function Scan(): Scanner
      requires InBounds()
      reads this, recvBuffer
    {
      Scanner(recvBuffer[..recvBufferPos], telnetSkip != 0)
    }

    ghost function Model(): Parser
      requires InBounds()
      reads this, recvBuffer
    {
      Parser(Scan(), recvLines, loggedon)
    }

    /** The object is in the state its history calls for. */
    ghost predicate Valid()
      reads this, recvBuffer
    {
      InBounds() && Fits(cfg, charSigned, decode) && Model() == After(cfg, history)
    }

    /** The receive buffer starts with whatever was in memory. */
    constructor (charSigned: bool, decode: Decoder)
      ensures Valid() && history == [] && fresh(recvBuffer) && recvBuffer.Length == 2048
      ensures this.charSigned == charSigned && this.decode == decode
      ensures cfg == ParserConfig(charSigned, decode)
    {
      this.charSigned := charSigned;
      this.decode := decode;
      recvBuffer := new byte[BUFFER_SIZE];
      recvBufferPos := 0;
      telnetSkip := 0;
      recvLines := [];
      loggedon := false;
      history := [];
      cfg := ParserConfig(charSigned, decode);
      new;
      ParserConfigFits(charSigned, decode);
    }

    /** Does nothing at all, in spite of its name. */
    method Reset()
    {
    }

    method SetStatus(loggedon: bool)
      requires Valid()
      modifies this`loggedon, this`history
      ensures Valid() && history == old(history) + [Event.SetStatus(loggedon)]
      ensures Login(history) == loggedon
    {
      this.loggedon := loggedon;
      Snoc(cfg, history, Event.SetStatus(loggedon));
      history := history + [Event.SetStatus(loggedon)];
    }

    /** One turn of the byte loop. */
    method ConsumeByte(b: byte)
      requires InBounds()
      modifies this`recvBufferPos, this`telnetSkip, this`recvLines, recvBuffer
      ensures InBounds()
      ensures var f := Step(charSigned, old(Scan()), b);
              Scan() == f.scanner && recvLines == old(recvLines) + f.lines
    {
      var v := CharValue(charSigned, b);
      if recvBufferPos == 0 {
        if telnetSkip != 0 {
          if v < TELNET_LOW {
            telnetSkip := 0;
          } else {
            return;
          }
        } else if v == IAC {
          telnetSkip := 1;
          return;
        }
      }
      if IsEol(b) {
        if recvBufferPos != 0 {
          recvBuffer[recvBufferPos] := NUL;
          CStringIsStored(recvBuffer[..], recvBufferPos);
          recvLines := recvLines + [CString(recvBuffer[..])];
          recvBufferPos := 0;
        }
      } else if recvBufferPos < MAX_LINE {
        recvBuffer[recvBufferPos] := b;
        recvBufferPos := recvBufferPos + 1;
        assert recvBuffer[..recvBufferPos] == old(recvBuffer[..recvBufferPos]) + [b];
      }
    }

    method MapCommand(command: string, args: string, result: Reply) returns (ret: Command)
      modifies result
      ensures var o := Classify(command, args, loggedon);
              && Reported(o, result.encode, old(StateOf(result)), StateOf(result))
              && ret == (if o.Accepted? then o.command else Command(Invalid, "", false, false))
    {
      ret := INVALID_COMMAND;
      match Lookup(command)
      case Some(entry) =>
        if entry.hasArgs && args == "" {
          result.Create(501, SYNTAX_ERROR);
        } else if !loggedon && !entry.beforeLogon {
          result.Create(530, NOT_LOGGED_ON);
        } else {
          ret := entry.(args := args);
        }
      case None =>
        result.Create(500, NOT_RECOGNIZED);
    }

    /** Splits a decoded line at its first space. */
    method SplitLine(line: string) returns (command: string, args: string)
      ensures command == RawVerb(line) && args == Args(line)
    {
      var pos := SpaceIndex(line);
      if pos != -1 {
        command := line[..pos];
        if pos == |line| - 1 {
          args := "";
        } else {
          args := line[pos + 1..];
          // A 501 "failed to decode" would be sent here, were this not so.
          assert args != "";
        }
      } else {
        args := "";
        command := line;
      }
    }

    /** Takes the first waiting line. When it cannot be decoded it is gone all the same. */
    method GetCommand(result: Reply) returns (ret: Command, thrown: bool)
      modifies this`recvLines, result
      ensures old(recvLines) == [] ==>
                recvLines == [] && ret == INVALID_COMMAND && !thrown && StateOf(result) == old(StateOf(result))
      ensures old(recvLines) != [] ==>
                var o := Dispatch(decode, old(recvLines)[0], loggedon);
                && recvLines == old(recvLines)[1..]
                && Reported(o, result.encode, old(StateOf(result)), StateOf(result))
                && ret == (if o.Accepted? then o.command else INVALID_COMMAND)
                && (ret.id == Invalid <==> !o.Accepted?)
                && (thrown <==> decode(old(recvLines)[0]) == None)
    {
      ret, thrown := INVALID_COMMAND, false;
      if recvLines == [] {
        return;
      }
      var str := recvLines[0];
      recvLines := recvLines[1..];
      UndecodableIff(decode, str, loggedon);
      var decoded := decode(str);
      if decoded == None {
        thrown := true;
        return;
      }
      var command, args := SplitLine(decoded.value);
      if command == "" {
        return;
      }
      command := Upper(command);
      if Lookup(command).Some? {
        TableEntries(command);
      }
      ret := MapCommand(command, args, result);
    }

    /** The byte loop. */
    method ReceiveAll(pdata: array<byte>, datalen: int)
      requires InBounds()
      requires datalen <= pdata.Length && pdata != recvBuffer
      modifies this`recvBufferPos, this`telnetSkip, this`recvLines, recvBuffer
      ensures InBounds() && pdata[..] == old(pdata[..])
      ensures var f := Feed(charSigned, old(Scan()), Chunk(pdata[..], datalen));
              Model() == Parser(f.scanner, old(recvLines) + f.lines, loggedon)
    {
      ghost var data := Chunk(pdata[..], datalen);
      var i := 0;
      while i < datalen
        invariant 0 <= i <= |data|
        invariant InBounds() && pdata[..] == old(pdata[..])
        invariant var f := Feed(charSigned, old(Scan()), data[..i]);
                  Scan() == f.scanner && recvLines == old(recvLines) + f.lines
      {
        ConsumeByte(pdata[i]);
        FeedSnoc(charSigned, old(Scan()), data[..i], data[i]);
        TakeOneMore(data, i);
        i := i + 1;
      }
      assert data[..i] == data;
    }

    /** The end of `parse`: one waiting line, if there is one, becomes a command. */
    method AnswerLine(result: Reply) returns (status: ParseStatus, cmd: Option<Command>)
      requires InBounds() && Fits(cfg, charSigned, decode)
      modifies this`recvLines, result
      ensures InBounds()
      ensures var p := old(Model());
              if p.queue == [] then
                Model() == p && Answered(None, status, cmd, result.encode, old(StateOf(result)), StateOf(result))
              else
                var o := cfg.dispatch(p.queue[0], p.loggedon);
                && Model() == p.(queue := p.queue[1..])
                && Answered(Some(o), status, cmd, result.encode, old(StateOf(result)), StateOf(result))
    {
      if recvLines == [] {
        return Indeterminate, None;
      }
      assert Dispatch(decode, recvLines[0], loggedon) == cfg.dispatch(recvLines[0], loggedon);
      var command, thrown := GetCommand(result);
      if thrown {
        return Thrown, None;
      }
      if command.id == Invalid {
        return False, Some(command);
      }
      return True, Some(command);
    }

    /** A whole call, as a step from one state to the next. */
    method TakeCall(pdata: array<byte>, datalen: int, result: Reply)
      returns (status: ParseStatus, cmd: Option<Command>)
      requires InBounds() && Fits(cfg, charSigned, decode)
      requires datalen <= pdata.Length && pdata != recvBuffer
      modifies this`recvBufferPos, this`telnetSkip, this`recvLines, recvBuffer, result
      ensures InBounds()
      ensures var s := Next(cfg, old(Model()), Receive(Chunk(old(pdata[..]), datalen)));
              && Model() == s.parser
              && Answered(s.outcome, status, cmd, result.encode, old(StateOf(result)), StateOf(result))
    {
      ReceiveAll(pdata, datalen);
      status, cmd := AnswerLine(result);
    }

    /**
     One call of the parser. All bytes are taken in, and then the next line of everything received
     since the parser was made is answered, if there is one: the call before which n lines were
     answered answers line n of the declarative framing, under the present login status.
     */
    method Parse(pdata: array<byte>, datalen: int, result: Reply)
      returns (status: ParseStatus, cmd: Option<Command>)
      requires Valid()
      requires datalen <= pdata.Length && pdata != recvBuffer
      modifies this`recvBufferPos, this`telnetSkip, this`recvLines, this`history, recvBuffer, result
      ensures Valid()
      ensures history == old(history) + [Receive(Chunk(old(pdata[..]), datalen))]
      ensures Received(history) == Received(old(history)) + if datalen < 0 then [] else old(pdata[..])[..datalen]
      ensures var n := Popped(cfg, old(history));
              var lines := Frames(charSigned, Received(history));
              if n < |lines| then
                AnswersLine(decode, lines[n], loggedon,
                            status, cmd, result.encode, old(StateOf(result)), StateOf(result))
              else
                status == Indeterminate && cmd == None && StateOf(result) == old(StateOf(result))
    {
      ghost var data, es, before := Chunk(pdata[..], datalen), history, StateOf(result);
      NextCall(cfg, es, data);
      Snoc(cfg, es, Receive(data));
      LoginIsKept(cfg, es);
      status, cmd := TakeCall(pdata, datalen, result);
      AnswerOfCall(cfg, charSigned, decode, es, data, status, cmd, result.encode, before, StateOf(result));
      history := es + [Receive(data)];
    }
  }
}
