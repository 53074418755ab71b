/** Splitting a command line into verb and arguments, and looking the verb up. */
module Commands {
  import opened Bytes

  datatype CommandId =
    | Invalid
    | USER | PASS | QUIT | CWD | PWD | PORT | PASV | TYPE | LIST | REST
    | CDUP | RETR | STOR | SIZE | DELE | RMD | MKD | RNFR | RNTO | ABOR
    | SYST | NOOP | APPE | NLST | MDTM | NOP | EPSV | EPRT | AUTH | ADAT
    | PBSZ | PROT | FEAT | MODE | OPTS | HELP | ALLO | MLST | MLSD | SITE
    | PASVSMC | STRU | CLNT | MFMT | HASH | REIN | STAT | STOU

  /** `hasArgs`: the command needs an argument. `beforeLogon`: it may be given before logging on. */
  datatype Command = Command(id: CommandId, args: string, hasArgs: bool, beforeLogon: bool)

  const INVALID_COMMAND := Command(Invalid, "", false, false)

  /** The command table: the entry of a verb in upper case. */
  function Lookup(verb: string): Option<Command> {
    match verb
    case "USER" => Some(Command(USER, "", true, true))
    case "PASS" => Some(Command(PASS, "", false, true))
    case "QUIT" => Some(Command(QUIT, "", false, true))
    case "CWD" => Some(Command(CWD, "", false, false))
    case "PWD" => Some(Command(PWD, "", false, false))
    case "PORT" => Some(Command(PORT, "", true, false))
    case "PASV" => Some(Command(PASV, "", false, false))
    case "TYPE" => Some(Command(TYPE, "", true, false))
    case "LIST" => Some(Command(LIST, "", false, false))
    case "REST" => Some(Command(REST, "", true, false))
    case "CDUP" => Some(Command(CDUP, "", false, false))
    case "RETR" => Some(Command(RETR, "", true, false))
    case "STOR" => Some(Command(STOR, "", true, false))
    case "STOU" => Some(Command(STOU, "", true, false))
    case "SIZE" => Some(Command(SIZE, "", true, false))
    case "DELE" => Some(Command(DELE, "", true, false))
    case "RMD" => Some(Command(RMD, "", true, false))
    case "MKD" => Some(Command(MKD, "", true, false))
    case "RNFR" => Some(Command(RNFR, "", true, false))
    case "RNTO" => Some(Command(RNTO, "", true, false))
    case "ABOR" => Some(Command(ABOR, "", false, false))
    case "SYST" => Some(Command(SYST, "", false, true))
    case "NOOP" => Some(Command(NOOP, "", false, false))
    case "APPE" => Some(Command(APPE, "", true, false))
    case "NLST" => Some(Command(NLST, "", false, false))
    case "MDTM" => Some(Command(MDTM, "", true, false))
    case "XPWD" => Some(Command(PWD, "", false, false))
    case "XCUP" => Some(Command(CDUP, "", false, false))
    case "XMKD" => Some(Command(MKD, "", true, false))
    case "XRMD" => Some(Command(RMD, "", true, false))
    case "XCWD" => Some(Command(CWD, "", true, false))
    case "NOP" => Some(Command(NOP, "", false, false))
    case "EPSV" => Some(Command(EPSV, "", false, false))
    case "EPRT" => Some(Command(EPRT, "", true, false))
    case "AUTH" => Some(Command(AUTH, "", true, true))
    case "ADAT" => Some(Command(ADAT, "", true, true))
    case "PBSZ" => Some(Command(PBSZ, "", true, true))
    case "PROT" => Some(Command(PROT, "", true, true))
    case "FEAT" => Some(Command(FEAT, "", false, true))
    case "MODE" => Some(Command(MODE, "", true, false))
    case "OPTS" => Some(Command(OPTS, "", true, true))
    case "HELP" => Some(Command(HELP, "", false, true))
    case "ALLO" => Some(Command(ALLO, "", false, false))
    case "MLST" => Some(Command(MLST, "", false, false))
    case "MLSD" => Some(Command(MLSD, "", false, false))
    case "SITE" => Some(Command(SITE, "", true, true))
    case "P@SW" => Some(Command(PASVSMC, "", false, false))
    case "STRU" => Some(Command(STRU, "", true, false))
    case "CLNT" => Some(Command(CLNT, "", true, true))
    case "MFMT" => Some(Command(MFMT, "", true, false))
    case "HASH" => Some(Command(HASH, "", true, false))
    case "REIN" => Some(Command(REIN, "", false, false))
    case "STAT" => Some(Command(STAT, "", false, false))
    case _ => None
  }

  const NOT_RECOGNIZED := "Syntax error, command unrecognized."
  const SYNTAX_ERROR := "Syntax error."
  const NOT_LOGGED_ON := "Please log in with USER and PASS first."

  /** What becomes of one command line. */
  datatype Outcome =
    | Accepted(command: Command)
    | Refused(code: nat, text: string)
    | Silent
    | Undecodable

  // ---------- Splitting ----------

  /** Position of the first space, or -1. */
  function SpaceIndex(s: string): (k: int)
    ensures -1 <= k < |s|
    ensures k == -1 ==> ' ' !in s
    ensures k >= 0 ==> s[k] == ' ' && ' ' !in s[..k]
  {
    if s == "" then -1
    else if s[0] == ' ' then 0
    else
      var k := SpaceIndex(s[1..]);
      if k == -1 then -1
      else
        assert s[..k + 1] == [s[0]] + s[1..][..k];
        k + 1
  }

  function RawVerb(text: string): string {
    var k := SpaceIndex(text);
    if k == -1 then text else text[..k]
  }

  function Args(text: string): string {
    var k := SpaceIndex(text);
    if k == -1 then "" else text[k + 1..]
  }

  function UpperChar(c: char): char {
    if 'a' <= c <= 'z' then c - 'a' + 'A' else c
  }

  function Upper(s: string): (u: string)
    ensures |u| == |s| && forall i :: 0 <= i < |s| ==> u[i] == UpperChar(s[i])
  {
    seq(|s|, i requires 0 <= i < |s| => UpperChar(s[i]))
  }

  // ---------- Dispatch ----------

  function Classify(verb: string, args: string, loggedon: bool): Outcome {
    match Lookup(verb)
    case None => Refused(500, NOT_RECOGNIZED)
    case Some(entry) =>
      if entry.hasArgs && args == "" then Refused(501, SYNTAX_ERROR)
      else if !loggedon && !entry.beforeLogon then Refused(530, NOT_LOGGED_ON)
      else Accepted(entry.(args := args))
  }

  function DispatchText(text: string, loggedon: bool): Outcome {
    if RawVerb(text) == "" then Silent else Classify(Upper(RawVerb(text)), Args(text), loggedon)
  }

  type Decoder = seq<byte> -> Option<string>

  function Dispatch(decode: Decoder, line: seq<byte>, loggedon: bool): Outcome {
    match decode(line)
    case None => Undecodable
    case Some(text) => DispatchText(text, loggedon)
  }
}
