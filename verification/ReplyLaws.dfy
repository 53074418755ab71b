/** A rendered reply can be read back, and it is one line. */
module ReplyLaws {
  import opened Bytes
  import opened Framing
  import opened FramingLaws
  import opened Replies

  // ---------- Reading numbers ----------

  lemma {:induction false} DecimalOfValue(digits: seq<byte>)
    requires IsNumeral(digits)
    ensures Value(digits) > 0 && Decimal(Value(digits)) == digits
  {
    var init, last := digits[..|digits| - 1], digits[|digits| - 1];
    assert digits == init + [last];
    if init == [] {
      assert Value(digits) == last - 48;
    } else {
      DecimalOfValue(init);
    }
  }

  // ---------- Reading replies ----------

  /** And nothing else reads back as that: the bytes are determined by code and payload. */
  lemma RenderOfParse(s: seq<byte>)
    requires ParseReply(s).Some? && ParseReply(s).value.code < 0x1_0000
    ensures ParseReply(s).value.code > 0
    ensures Render(ParseReply(s).value.code, ParseReply(s).value.payload) == s
  {
    var k := FirstSpace(s);
    DecimalOfValue(s[..k]);
    assert s == s[..k] + [SPACE] + s[k + 1..|s| - 2] + s[|s| - 2..];
  }

  /**
   `empty`, which decides whether anything is sent, holds of a reply that was just created only when
   it was given no code and no text.
   */
  lemma CreatedEmptyIff(reply: Reply, text: string)
    requires reply.content == Render(reply.code, reply.encode(reply.codeType, text))
    ensures reply.Empty() <==> reply.code == 0 && reply.encode(reply.codeType, text) == []
  {
  }

  // ---------- Framing replies ----------

  function ReplyLine(code: ushort, payload: seq<byte>): Line {
    Decimal(code) + [SPACE] + payload
  }

  /**
   Sent to a peer that frames like the request parser, a reply arrives as exactly its own line if and
   only if its payload holds no line end and the line is not longer than 2000 bytes.
   */
  lemma ReplyIsOneFrameIff(charSigned: bool, code: ushort, payload: seq<byte>)
    requires code > 0
    ensures Frames(charSigned, Render(code, payload)) == [ReplyLine(code, payload)]
       <==> NoEol(payload) && |ReplyLine(code, payload)| <= MAX_LINE
  {
    var line, s := ReplyLine(code, payload), Render(code, payload);
    assert forall i :: 0 <= i < |payload| ==> line[|line| - |payload| + i] == payload[i];
    if NoEol(payload) && |line| <= MAX_LINE {
      assert NoEol(line);
      assert s == line + ([CR, LF] + []);
      CleanLegal(charSigned, line);
      FramesOfSentLine(charSigned, line, []);
      FramesOfSegment(charSigned, []);
    }
    if Frames(charSigned, s) == [line] {
      FramesAreLegal(charSigned, s);
      assert LegalLine(charSigned, Frames(charSigned, s)[0]);
    }
  }
}
