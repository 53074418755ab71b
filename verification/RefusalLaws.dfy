/** The replies the parser writes itself. */
module RefusalLaws {
  import opened Bytes
  import opened Framing
  import opened Commands
  import opened CommandLaws
  import opened Replies
  import opened ReplyLaws

  /** Both encodings write ASCII characters as the bytes they are. */
  ghost predicate EncodesAscii(encode: Encoder) {
    forall codeType, t: string :: IsAsciiText(t) ==> encode(codeType, t) == Ascii(t)
  }

  predicate IsPrintable(t: string) {
    |t| < 50 && forall c :: c in t ==> 32 <= c as int < 128
  }

  lemma NotRecognizedIsPrintable()
    ensures IsPrintable(NOT_RECOGNIZED)
  {
  }

  lemma SyntaxErrorIsPrintable()
    ensures IsPrintable(SYNTAX_ERROR)
  {
  }

  lemma NotLoggedOnIsPrintable()
    ensures IsPrintable(NOT_LOGGED_ON)
  {
  }

  lemma PrintableIsOneLine(t: string)
    requires IsPrintable(t)
    ensures IsAsciiText(t) && NoEol(Ascii(t))
  {
    assert forall i :: 0 <= i < |t| ==> t[i] in t;
  }

  lemma DecimalOfThreeDigits(code: nat)
    requires 100 <= code < 1000
    ensures |Decimal(code)| == 3
  {
    assert |Decimal(code / 10)| == 2;
  }

  /**
   A refused line is answered by one reply line: it is not empty, frames as one line, and reads back
   as code and text.
   */
  lemma RefusalIsOneReplyLine(charSigned: bool, text: string, loggedon: bool, encode: Encoder, codeType: CodeType)
    requires EncodesAscii(encode) && DispatchText(text, loggedon).Refused?
    ensures var o := DispatchText(text, loggedon);
            && IsAsciiText(o.text) && 0 < o.code < 0x1_0000
            && var rendered := Render(o.code, encode(codeType, o.text));
               && rendered != []
               && Frames(charSigned, rendered) == [ReplyLine(o.code, Ascii(o.text))]
               && ParseReply(rendered) == Some(Parsed(o.code, Ascii(o.text)))
  {
    RefusalIsPrintable(text, loggedon);
    var o := DispatchText(text, loggedon);
    PrintableIsOneLine(o.text);
    DecimalOfThreeDigits(o.code);
    ReplyIsOneFrameIff(charSigned, o.code, Ascii(o.text));
    ParseOfRender(o.code, Ascii(o.text));
  }

  lemma DecimalDigits(a: nat, b: nat, c: nat)
    requires 0 < a < 10 && b < 10 && c < 10
    ensures Decimal(100 * a + 10 * b + c) == [48 + a, 48 + b, 48 + c]
  {
    assert Decimal(10 * a + b) == Decimal(a) + [48 + b];
    assert (100 * a + 10 * b + c) / 10 == 10 * a + b;
  }

  lemma ReplyOfText(code: nat, digits: string, text: string)
    requires 0 < code < 0x1_0000 && IsPrintable(text)
    requires IsAsciiText(digits) && Decimal(code) == Ascii(digits)
    ensures IsAsciiText(text) && IsAsciiText(digits + " " + text + "\r\n")
    ensures Render(code, Ascii(text)) == Ascii(digits + " " + text + "\r\n")
  {
    PrintableIsOneLine(text);
  }

  lemma CodeDigits(code: nat) returns (digits: string)
    requires code in {500, 501, 530}
    ensures digits == if code == 500 then "500" else if code == 501 then "501" else "530"
    ensures IsAsciiText(digits) && Decimal(code) == Ascii(digits)
  {
    digits := if code == 500 then "500" else if code == 501 then "501" else "530";
    DecimalDigits(code / 100, code / 10 % 10, code % 10);
  }

  lemma RefusalIsPrintable(text: string, loggedon: bool)
    requires DispatchText(text, loggedon).Refused?
    ensures DispatchText(text, loggedon).code in {500, 501, 530} && IsPrintable(DispatchText(text, loggedon).text)
  {
    OutcomesOfText(text, loggedon);
    NotRecognizedIsPrintable();
    SyntaxErrorIsPrintable();
    NotLoggedOnIsPrintable();
  }

  /** Character by character, what a refusal sends: its code in three digits, a space, its text, CR and LF. */
  lemma RefusalCharacters(text: string, loggedon: bool, encode: Encoder, codeType: CodeType)
    returns (digits: string)
    requires EncodesAscii(encode) && DispatchText(text, loggedon).Refused?
    ensures var o := DispatchText(text, loggedon);
            && digits == (if o.code == 500 then "500" else if o.code == 501 then "501" else "530")
            && o.code < 0x1_0000 && IsAsciiText(digits + " " + o.text + "\r\n")
            && Render(o.code, encode(codeType, o.text)) == Ascii(digits + " " + o.text + "\r\n")
  {
    RefusalIsPrintable(text, loggedon);
    var o := DispatchText(text, loggedon);
    PrintableIsOneLine(o.text);
    digits := CodeDigits(o.code);
    ReplyOfText(o.code, digits, o.text);
  }
}
