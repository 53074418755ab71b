/** What the command table and the dispatch of a line guarantee. */
module CommandLaws {
  import opened Bytes
  import opened Commands

  // ---------- The table ----------

  predicate VerbChar(c: char) {
    'A' <= c <= 'Z' || c == '@'
  }

  predicate WellFormedVerb(v: string) {
    3 <= |v| <= 4 && forall i :: 0 <= i < |v| ==> VerbChar(v[i])
  }

  lemma TableVerbLength(v: string)
    requires Lookup(v).Some?
    ensures 3 <= |v| <= 4
  {
  }

  lemma TableVerbChars(v: string)
    requires Lookup(v).Some?
    ensures forall i :: 0 <= i < |v| ==> VerbChar(v[i])
  {
  }

  lemma TableVerbs(v: string)
    requires Lookup(v).Some?
    ensures WellFormedVerb(v)
  {
    TableVerbLength(v);
    TableVerbChars(v);
  }

  lemma TableEntries(v: string)
    requires Lookup(v).Some?
    ensures Lookup(v).value.id != Invalid && Lookup(v).value.args == ""
  {
  }

  // ---------- Which verb means what ----------

  /** What a client may write for an access control or transfer parameter command (RFC 959, sections 4.1.1, 4.1.2). */
  function ParameterVerbs(id: CommandId): set<string> {
    match id
    case USER => {"USER"} case PASS => {"PASS"} case CWD => {"CWD", "XCWD"} case CDUP => {"CDUP", "XCUP"}
    case QUIT => {"QUIT"} case REIN => {"REIN"} case PORT => {"PORT"} case PASV => {"PASV"}
    case TYPE => {"TYPE"} case STRU => {"STRU"} case MODE => {"MODE"}
    case _ => {}
  }

  /** For a service command (RFC 959, section 4.1.3). */
  function ServiceVerbs(id: CommandId): set<string> {
    match id
    case RETR => {"RETR"} case STOR => {"STOR"} case STOU => {"STOU"} case APPE => {"APPE"}
    case ALLO => {"ALLO"} case REST => {"REST"} case RNFR => {"RNFR"} case RNTO => {"RNTO"}
    case ABOR => {"ABOR"} case DELE => {"DELE"} case RMD => {"RMD", "XRMD"} case MKD => {"MKD", "XMKD"}
    case PWD => {"PWD", "XPWD"} case LIST => {"LIST"} case NLST => {"NLST"} case SITE => {"SITE"}
    case SYST => {"SYST"} case STAT => {"STAT"} case HELP => {"HELP"} case NOOP => {"NOOP"}
    case _ => {}
  }

  /** For a command that is not in RFC 959. */
  function OtherVerbs(id: CommandId): set<string> {
    match id
    case SIZE => {"SIZE"} case MDTM => {"MDTM"} case NOP => {"NOP"} case EPSV => {"EPSV"} case EPRT => {"EPRT"}
    case AUTH => {"AUTH"} case ADAT => {"ADAT"} case PBSZ => {"PBSZ"} case PROT => {"PROT"}
    case FEAT => {"FEAT"} case OPTS => {"OPTS"} case MLST => {"MLST"} case MLSD => {"MLSD"}
    case PASVSMC => {"P@SW"} case CLNT => {"CLNT"} case MFMT => {"MFMT"} case HASH => {"HASH"}
    case _ => {}
  }

  function VerbsOf(id: CommandId): set<string> {
    ParameterVerbs(id) + ServiceVerbs(id) + OtherVerbs(id)
  }

  lemma ParameterVerbMeans(verb: string, id: CommandId)
    requires verb in ParameterVerbs(id)
    ensures Lookup(verb).Some? && Lookup(verb).value.id == id
  {
  }

  lemma ServiceVerbMeans(verb: string, id: CommandId)
    requires verb in ServiceVerbs(id)
    ensures Lookup(verb).Some? && Lookup(verb).value.id == id
  {
  }

  lemma OtherVerbMeans(verb: string, id: CommandId)
    requires verb in OtherVerbs(id)
    ensures Lookup(verb).Some? && Lookup(verb).value.id == id
  {
  }

  lemma MeantByParameterVerb(verb: string)
    requires Lookup(verb).Some? && ParameterVerbs(Lookup(verb).value.id) != {}
    ensures verb in ParameterVerbs(Lookup(verb).value.id)
  {
  }

  lemma MeantByServiceVerb(verb: string)
    requires Lookup(verb).Some? && ServiceVerbs(Lookup(verb).value.id) != {}
    ensures verb in ServiceVerbs(Lookup(verb).value.id)
  {
  }

  lemma MeantByOtherVerb(verb: string)
    requires Lookup(verb).Some? && OtherVerbs(Lookup(verb).value.id) != {}
    ensures verb in OtherVerbs(Lookup(verb).value.id)
  {
  }

  lemma EveryCommandHasVerbs(id: CommandId)
    requires id != Invalid
    ensures ParameterVerbs(id) != {} || ServiceVerbs(id) != {} || OtherVerbs(id) != {}
  {
  }

  /** The table is no more and no less than this: a verb is found exactly as one of those of its command. */
  lemma LookupIffVerbOf(verb: string, id: CommandId)
    ensures verb in VerbsOf(id) <==> Lookup(verb).Some? && Lookup(verb).value.id == id
  {
    if verb in VerbsOf(id) {
      if verb in ParameterVerbs(id) {
        ParameterVerbMeans(verb, id);
      } else if verb in ServiceVerbs(id) {
        ServiceVerbMeans(verb, id);
      } else {
        OtherVerbMeans(verb, id);
      }
    } else if Lookup(verb).Some? && Lookup(verb).value.id == id {
      TableEntries(verb);
      EveryCommandHasVerbs(id);
      if ParameterVerbs(id) != {} {
        MeantByParameterVerb(verb);
      } else if ServiceVerbs(id) != {} {
        MeantByServiceVerb(verb);
      } else {
        MeantByOtherVerb(verb);
      }
    }
  }

  /** The verbs that want an argument are these and no others. */
  const NEED_ARGUMENT: set<string> := {
    "USER", "PORT", "TYPE", "REST", "RETR", "STOR", "STOU", "SIZE", "DELE", "RMD", "MKD", "RNFR", "RNTO", "APPE",
    "MDTM", "XMKD", "XRMD", "XCWD", "EPRT", "AUTH", "ADAT", "PBSZ", "PROT", "MODE", "OPTS", "SITE", "STRU", "CLNT",
    "MFMT", "HASH"
  }

  lemma NeedArgumentVerbs(v: string)
    ensures Lookup(v).Some? && Lookup(v).value.hasArgs <==> v in NEED_ARGUMENT
  {
  }

  /** The verbs that may be given before logging on are these and no others. */
  const BEFORE_LOGON: set<string> := {
    "USER", "PASS", "QUIT", "SYST", "HELP", "FEAT", "OPTS", "CLNT", "SITE", "AUTH", "ADAT", "PBSZ", "PROT"
  }

  lemma BeforeLogonVerbs(v: string)
    ensures Lookup(v).Some? && Lookup(v).value.beforeLogon <==> v in BEFORE_LOGON
  {
  }

  /** The verbs that are a second name of another one. */
  const ALIASES: map<string, string> := map[
    "XPWD" := "PWD", "XCUP" := "CDUP", "XMKD" := "MKD", "XRMD" := "RMD", "XCWD" := "CWD"
  ]

  /** An outcome without the flag that says whether the table asks for an argument. */
  function Meaning(o: Outcome): Outcome {
    if o.Accepted? then Accepted(o.command.(hasArgs := false)) else o
  }

  /** An alias does what its first name does, with one exception: XCWD needs an argument and CWD does not. */
  lemma AliasAgreesIff(v: string, args: string, loggedon: bool)
    requires v in ALIASES
    ensures Lookup(v).Some? && Lookup(ALIASES[v]).Some?
    ensures Meaning(Classify(v, args, loggedon)) == Meaning(Classify(ALIASES[v], args, loggedon))
       <==> !(v == "XCWD" && args == "")
  {
    if v == "XCWD" {
      assert Lookup("XCWD") == Some(Command(CWD, "", true, false));
      assert Lookup("CWD") == Some(Command(CWD, "", false, false));
    }
  }

  // ---------- Splitting ----------

  /** What a line looks like: a verb, and after the first space the arguments. */
  function Compose(verb: string, spaced: bool, args: string): string {
    if spaced then verb + " " + args else verb
  }

  lemma SpaceIndexOf(verb: string, rest: string)
    requires ' ' !in verb
    ensures SpaceIndex(verb) == -1
    ensures rest != "" && rest[0] == ' ' ==> SpaceIndex(verb + rest) == |verb|
  {
    if rest != "" && rest[0] == ' ' {
      var s, k := verb + rest, SpaceIndex(verb + rest);
      assert s[|verb|] == ' ' && k != -1;
      assert s[k] == ' ' && (forall i :: 0 <= i < |verb| ==> s[i] == verb[i] && verb[i] != ' ');
    }
  }

  /** There is one way to read a line, and it loses nothing. */
  lemma SplitInvertsCompose(verb: string, spaced: bool, args: string)
    requires ' ' !in verb
    requires !spaced ==> args == ""
    ensures RawVerb(Compose(verb, spaced, args)) == verb
    ensures Args(Compose(verb, spaced, args)) == args
  {
    var rest := if spaced then " " + args else "";
    assert Compose(verb, spaced, args) == verb + rest;
    SpaceIndexOf(verb, rest);
    assert spaced ==> (verb + rest)[|verb| + 1..] == args;
  }

  lemma ComposeInvertsSplit(text: string)
    ensures ' ' !in RawVerb(text)
    ensures Compose(RawVerb(text), ' ' in text, Args(text)) == text
    ensures ' ' !in text ==> Args(text) == ""
  {
  }

  /**
   The reply for arguments that "failed to decode" is never sent: the arguments are only empty when
   there is no space or the first space ends the line.
   */
  lemma ArgsEmptyIff(text: string)
    ensures Args(text) == "" <==> SpaceIndex(text) == -1 || SpaceIndex(text) == |text| - 1
  {
  }

  // ---------- Outcomes ----------

  /** The outcome of every line there is, read off its verb and arguments; 501 comes before 530. */
  lemma OutcomePartition(verb: string, spaced: bool, args: string, loggedon: bool)
    requires ' ' !in verb
    requires !spaced ==> args == ""
    ensures var entry := Lookup(Upper(verb));
            var o := DispatchText(Compose(verb, spaced, args), loggedon);
            && (o == Silent <==> verb == "")
            && (o == Refused(500, "Syntax error, command unrecognized.") <==> verb != "" && entry == None)
            && (o == Refused(501, "Syntax error.") <==> entry.Some? && entry.value.hasArgs && args == "")
            && (o == Refused(530, "Please log in with USER and PASS first.") <==>
                  entry.Some? && (entry.value.hasArgs ==> args != "") && !loggedon && !entry.value.beforeLogon)
            && (o.Accepted? <==>
                  entry.Some? && (entry.value.hasArgs ==> args != "") && (loggedon || entry.value.beforeLogon))
            && (o.Accepted? ==> o.command == entry.value.(args := args))
  {
    SplitInvertsCompose(verb, spaced, args);
    if Lookup(Upper(verb)).Some? {
      TableVerbs(Upper(verb));
    }
  }

  /**
   Seen from the line: nothing is said exactly when it is empty or opens with a space, and a refusal
   is one of three.
   */
  lemma OutcomesOfText(text: string, loggedon: bool)
    ensures var o := DispatchText(text, loggedon);
            && (o == Silent <==> text == "" || text[0] == ' ')
            && o != Undecodable
            && (o.Refused? ==>
                  || o == Refused(500, "Syntax error, command unrecognized.")
                  || o == Refused(501, "Syntax error.")
                  || o == Refused(530, "Please log in with USER and PASS first."))
            && (o.Accepted? ==> o.command.id != Invalid)
  {
    RawVerbEmptyIff(text);
    ClassifyRange(Upper(RawVerb(text)), Args(text), loggedon);
  }

  lemma RawVerbEmptyIff(text: string)
    ensures RawVerb(text) == "" <==> text == "" || text[0] == ' '
  {
  }

  lemma ClassifyRange(verb: string, args: string, loggedon: bool)
    ensures var o := Classify(verb, args, loggedon);
            && (|| o.Accepted?
                || o == Refused(500, NOT_RECOGNIZED)
                || o == Refused(501, SYNTAX_ERROR)
                || o == Refused(530, NOT_LOGGED_ON))
            && (o.Accepted? ==> o.command.id != Invalid)
  {
    if Lookup(verb).Some? {
      TableEntries(verb);
    }
  }

  /** What a caller that gets a command may rely on: both gates were passed, and where the command comes from. */
  lemma AcceptedIsGated(decode: Decoder, line: seq<byte>, loggedon: bool)
    requires Dispatch(decode, line, loggedon).Accepted?
    ensures var command := Dispatch(decode, line, loggedon).command;
            && (loggedon || command.beforeLogon)
            && (command.hasArgs ==> command.args != "")
            && command.id != Invalid
            && Lookup(Upper(RawVerb(decode(line).value))) == Some(command.(args := ""))
            && Upper(RawVerb(decode(line).value)) in VerbsOf(command.id)
            && command.args == Args(decode(line).value)
  {
    var verb := Upper(RawVerb(decode(line).value));
    TableEntries(verb);
    LookupIffVerbOf(verb, Lookup(verb).value.id);
  }

  // ---------- Letter case ----------

  /** A letter typed in either case. */
  predicate SameLetter(typed: char, upper: char) {
    typed == upper || ('A' <= upper <= 'Z' && typed as int == upper as int + 32)
  }

  predicate IsCaseVariant(typed: string, verb: string) {
    |typed| == |verb| && forall i :: 0 <= i < |verb| ==> SameLetter(typed[i], verb[i])
  }

  /** A table verb is looked up as itself however it is typed, and nothing else is looked up as it. */
  lemma UpperIffVariant(typed: string, verb: string)
    requires Lookup(verb).Some?
    ensures Upper(typed) == verb <==> IsCaseVariant(typed, verb)
  {
    TableVerbs(verb);
    if IsCaseVariant(typed, verb) {
      forall i | 0 <= i < |verb|
        ensures Upper(typed)[i] == verb[i]
      {
        assert VerbChar(verb[i]) && SameLetter(typed[i], verb[i]);
      }
    }
    if Upper(typed) == verb {
      forall i | 0 <= i < |verb|
        ensures SameLetter(typed[i], verb[i])
      {
        assert VerbChar(verb[i]) && verb[i] == UpperChar(typed[i]);
      }
    }
  }

  /** The same line but for the letter case of the verb. */
  predicate SameUpToVerbCase(s: string, t: string) {
    && |s| == |t|
    && Upper(s[..|RawVerb(s)|]) == Upper(t[..|RawVerb(s)|])
    && s[|RawVerb(s)|..] == t[|RawVerb(s)|..]
  }

  lemma SpacesKeepCase(v: string, w: string)
    requires Upper(v) == Upper(w) && ' ' !in v
    ensures ' ' !in w
  {
    assert |v| == |Upper(v)| == |w|;
    assert forall i :: 0 <= i < |w| ==> Upper(v)[i] == Upper(w)[i] && v[i] in v;
  }

  lemma ComposeHeadAndRest(head: string, rest: string)
    requires rest == "" || rest[0] == ' '
    ensures head + rest == Compose(head, rest != "", if rest == "" then "" else rest[1..])
  {
    if rest == "" {
      assert head + rest == head;
    } else {
      SplitFirst(rest);
    }
  }

  lemma CaseInsensitive(s: string, t: string, loggedon: bool)
    requires SameUpToVerbCase(s, t)
    ensures DispatchText(s, loggedon) == DispatchText(t, loggedon)
    ensures Args(s) == Args(t)
  {
    var n := |RawVerb(s)|;
    var v, w, rest := s[..n], t[..n], s[n..];
    var args := if rest == "" then "" else rest[1..];
    assert v == RawVerb(s) && (rest == "" || rest[0] == ' ');
    SpacesKeepCase(v, w);
    TakeDrop(s, n);
    TakeDrop(t, n);
    ComposeHeadAndRest(v, rest);
    ComposeHeadAndRest(w, rest);
    SplitInvertsCompose(v, rest != "", args);
    SplitInvertsCompose(w, rest != "", args);
  }

  // ---------- Outcomes without the table ----------

  /** What a line is due, by the command that its verb stands for. */
  function Due(verb: string, id: CommandId, args: string, loggedon: bool): Outcome {
    if verb in NEED_ARGUMENT && args == "" then Refused(501, "Syntax error.")
    else if !loggedon && verb !in BEFORE_LOGON then Refused(530, "Please log in with USER and PASS first.")
    else Accepted(Command(id, args, verb in NEED_ARGUMENT, verb in BEFORE_LOGON))
  }

  lemma EntryOf(verb: string, id: CommandId)
    requires verb in VerbsOf(id)
    ensures Lookup(verb) == Some(Command(id, "", verb in NEED_ARGUMENT, verb in BEFORE_LOGON))
  {
    LookupIffVerbOf(verb, id);
    TableEntries(verb);
    NeedArgumentVerbs(verb);
    BeforeLogonVerbs(verb);
  }

  /** A line that opens with a verb of a command, in any letter case, gets what it is due. */
  lemma OutcomeIsDue(verb: string, id: CommandId, typed: string, spaced: bool, args: string, loggedon: bool)
    requires verb in VerbsOf(id) && IsCaseVariant(typed, verb) && (!spaced ==> args == "")
    ensures DispatchText(Compose(typed, spaced, args), loggedon) == Due(verb, id, args, loggedon)
  {
    EntryOf(verb, id);
    TableVerbs(verb);
    UpperIffVariant(typed, verb);
    assert ' ' !in typed by { VariantHasNoSpace(typed, verb); }
    OutcomePartition(typed, spaced, args, loggedon);
  }

  lemma VariantHasNoSpace(typed: string, verb: string)
    requires WellFormedVerb(verb) && IsCaseVariant(typed, verb)
    ensures ' ' !in typed
  {
    forall i | 0 <= i < |typed|
      ensures typed[i] != ' '
    {
      assert VerbChar(verb[i]) && SameLetter(typed[i], verb[i]);
    }
  }

  ghost predicate IsVerbOfNone(typed: string) {
    forall id, verb :: verb in VerbsOf(id) ==> !IsCaseVariant(typed, verb)
  }

  /** Exactly the lines that open with no verb of any command are not recognized. */
  lemma UnrecognizedIff(typed: string, spaced: bool, args: string, loggedon: bool)
    requires typed != "" && ' ' !in typed && (!spaced ==> args == "")
    ensures DispatchText(Compose(typed, spaced, args), loggedon) == Refused(500, "Syntax error, command unrecognized.")
       <==> IsVerbOfNone(typed)
  {
    OutcomePartition(typed, spaced, args, loggedon);
    if Lookup(Upper(typed)).Some? {
      LookupIffVerbOf(Upper(typed), Lookup(Upper(typed)).value.id);
      UpperIffVariant(typed, Upper(typed));
    }
    forall id, verb | verb in VerbsOf(id) && IsCaseVariant(typed, verb)
      ensures Lookup(Upper(typed)).Some?
    {
      LookupIffVerbOf(verb, id);
      UpperIffVariant(typed, verb);
    }
  }

  /** A line that cannot be decoded has an outcome of its own; all others are judged by their text. */
  lemma UndecodableIff(decode: Decoder, line: seq<byte>, loggedon: bool)
    ensures Dispatch(decode, line, loggedon) == Undecodable <==> decode(line) == None
    ensures decode(line).Some? ==> Dispatch(decode, line, loggedon) == DispatchText(decode(line).value, loggedon)
  {
    if decode(line).Some? {
      OutcomesOfText(decode(line).value, loggedon);
    }
  }
}
