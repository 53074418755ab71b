/** Reply lines: a decimal code, a space, a text and CRLF (section 4.2 of RFC 959). */
module Replies {
  import opened Bytes

  type ushort = x: int | 0 <= x < 0x1_0000

  datatype CodeType = Utf8 | Gbk

  /** How a text becomes bytes; it depends on the locale and on library code. */
  type Encoder = (CodeType, string) -> seq<byte>

  predicate IsDigit(b: byte) {
    48 <= b <= 57
  }

  predicate AllDigits(s: seq<byte>) {
    forall i :: 0 <= i < |s| ==> IsDigit(s[i])
  }

  function Decimal(n: nat): (digits: seq<byte>)
    ensures digits != [] && AllDigits(digits)
    ensures n > 0 ==> digits[0] != 48
  {
    if n < 10 then [48 + n] else Decimal(n / 10) + [48 + n % 10]
  }

  /** What `create` leaves in the reply: without a code the payload is sent as it is. */
  function Render(code: ushort, payload: seq<byte>): seq<byte> {
    if code > 0 then Decimal(code) + [SPACE] + payload + [CR, LF] else payload
  }

  // ---------- Reading numbers ----------

  function Value(digits: seq<byte>): nat
    requires AllDigits(digits)
  {
    if digits == [] then 0 else Value(digits[..|digits| - 1]) * 10 + (digits[|digits| - 1] - 48)
  }

  predicate IsNumeral(digits: seq<byte>) {
    digits != [] && AllDigits(digits) && digits[0] != 48
  }

  lemma {:induction false} ValueOfDecimal(n: nat)
    ensures Value(Decimal(n)) == n
  {
    if n < 10 {
    } else {
      ValueOfDecimal(n / 10);
      var digits := Decimal(n);
      assert digits[..|digits| - 1] == Decimal(n / 10);
    }
  }

  // ---------- Reading replies ----------

  function FirstSpace(s: seq<byte>): (k: nat)
    ensures k <= |s|
    ensures forall i :: 0 <= i < k ==> s[i] != 32
    ensures k < |s| ==> s[k] == 32
  {
    if s == [] || s[0] == 32 then 0 else 1 + FirstSpace(s[1..])
  }

  datatype Parsed = Parsed(code: nat, payload: seq<byte>)

  /** Split at the first space and take the CRLF off. */
  function ParseReply(s: seq<byte>): Option<Parsed> {
    var k := FirstSpace(s);
    if k + 3 <= |s| && s[|s| - 2..] == [13, 10] && IsNumeral(s[..k])
    then Some(Parsed(Value(s[..k]), s[k + 1..|s| - 2]))
    else None
  }

  lemma FirstSpaceAfterDigits(digits: seq<byte>, rest: seq<byte>)
    requires AllDigits(digits) && rest != [] && rest[0] == 32
    ensures FirstSpace(digits + rest) == |digits|
  {
    var k := FirstSpace(digits + rest);
    assert (digits + rest)[|digits|] == SPACE;
  }

  /** The rendering is uniquely invertible: code and payload come back, whatever the payload holds. */
  lemma ParseOfRender(code: ushort, payload: seq<byte>)
    requires code > 0
    ensures ParseReply(Render(code, payload)) == Some(Parsed(code, payload))
  {
    var digits, rest := Decimal(code), [SPACE] + payload + [CR, LF];
    var s := Render(code, payload);
    assert s == digits + rest;
    FirstSpaceAfterDigits(digits, rest);
    ValueOfDecimal(code);
    assert s[..|digits|] == digits && s[|digits| + 1..|s| - 2] == payload && s[|s| - 2..] == [CR, LF];
  }

  // ---------- The object ----------

  class Reply {
    const encode: Encoder
    var code: ushort
    var codeType: CodeType
    var content: seq<byte>

    constructor (encode: Encoder)
      ensures this.encode == encode
      ensures code == 0 && codeType == Utf8 && content == []
    {
      this.encode := encode;
      codeType := Utf8;
      code := 0;
      content := [];
    }

    constructor Of(encode: Encoder, code: ushort, text: string, codeType: CodeType)
      ensures this.encode == encode && this.code == code && this.codeType == codeType
      ensures content == Render(code, encode(codeType, text))
      ensures code == 0 ==> content == encode(codeType, text)
      ensures code > 0 ==> ParseReply(content) == Some(Parsed(code, encode(codeType, text)))
    {
      this.encode := encode;
      this.codeType := Utf8;
      this.code := 0;
      content := [];
      new;
      CreateAs(code, text, codeType);
    }

    method Create(code: ushort, text: string)
      modifies this
      ensures this.code == code && codeType == old(codeType)
      ensures content == Render(code, encode(codeType, text))
      ensures code == 0 ==> content == encode(codeType, text)
      ensures code > 0 ==> ParseReply(content) == Some(Parsed(code, encode(codeType, text)))
    {
      CreateAs(code, text, codeType);
    }

    method CreateAs(code: ushort, text: string, codeType: CodeType)
      modifies this
      ensures this.code == code && this.codeType == codeType
      ensures content == Render(code, encode(codeType, text))
      ensures code == 0 ==> content == encode(codeType, text)
      ensures code > 0 ==> ParseReply(content) == Some(Parsed(code, encode(codeType, text)))
    {
      this.codeType := codeType;
      this.code := code;
      if this.codeType == Gbk {
        content := encode(Gbk, text);
      } else {
        content := encode(Utf8, text);
      }
      if this.code > 0 {
        ParseOfRender(code, content);
        content := Decimal(this.code) + [SPACE] + content + [CR, LF];
      }
    }

    /** Afterwards the reply is empty, though it keeps its code. */
    method Clear()
      modifies this`content
      ensures content == [] && Empty()
    {
      content := [];
    }

    predicate Empty()
      reads this
    {
      content == []
    }

    method SetCodeType(codeType: CodeType)
      modifies this`codeType
      ensures this.codeType == codeType
    {
      this.codeType := codeType;
    }
  }
}
