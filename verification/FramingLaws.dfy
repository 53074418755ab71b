/** What the framing guarantees about whole streams. */
module FramingLaws {
  import opened Bytes
  import opened Framing

  // ---------- Growing streams ----------

  lemma CleanKeepsNoEol(charSigned: bool, segment: seq<byte>)
    requires NoEol(segment)
    ensures NoEol(Clean(charSigned, segment)) && |Clean(charSigned, segment)| <= MAX_LINE
  {
    var stripped := StripTelnet(charSigned, segment);
    NoEolSlice(segment, TelnetRun(segment), |segment|);
    assert NoEol(stripped);
    NoEolSlice(stripped, 0, if |stripped| <= MAX_LINE then |stripped| else MAX_LINE);
  }

  /** What is left over is a state the parser can be in: in particular the Telnet flag is down inside a line. */
  lemma ResidualIsValid(charSigned: bool, s: seq<byte>)
    ensures Residual(charSigned, s).Valid()
  {
    CleanKeepsNoEol(charSigned, LastSegment(s));
  }

  /** More bytes only ever append lines: none that was framed before is lost or altered. */
  lemma FramesGrow(charSigned: bool, a: seq<byte>, b: seq<byte>)
    ensures Frames(charSigned, a + b) == Frames(charSigned, a) + Feed(charSigned, Residual(charSigned, a), b).lines
    ensures Residual(charSigned, a + b) == Feed(charSigned, Residual(charSigned, a), b).scanner
  {
    FeedConcat(charSigned, IDLE, a, b);
    FeedIsFraming(charSigned, a);
    FeedIsFraming(charSigned, a + b);
  }

  lemma FeedEol(charSigned: bool, a: seq<byte>, eol: byte)
    requires IsEol(eol)
    ensures Feed(charSigned, Residual(charSigned, a), [eol]).scanner == IDLE
  {
    StepAtEol(charSigned, LastSegment(a), eol);
    FeedOne(charSigned, Residual(charSigned, a), eol);
  }

  lemma IdleAfterEol(charSigned: bool, a: seq<byte>, eol: byte)
    requires IsEol(eol)
    ensures Residual(charSigned, a + [eol]) == IDLE
  {
    FramesGrow(charSigned, a, [eol]);
    FeedEol(charSigned, a, eol);
  }

  /** At a line end the parser forgets everything: both sides of it can be framed on their own. */
  lemma Resynchronise(charSigned: bool, a: seq<byte>, eol: byte, b: seq<byte>)
    requires IsEol(eol)
    ensures Frames(charSigned, a + [eol] + b) == Frames(charSigned, a + [eol]) + Frames(charSigned, b)
    ensures Residual(charSigned, a + [eol] + b) == Residual(charSigned, b)
  {
    var c := a + [eol];
    IdleAfterEol(charSigned, a, eol);
    FramesGrow(charSigned, c, b);
    FeedIsFraming(charSigned, b);
  }

  // ---------- One more byte ----------

  /**
   What each byte does to a stream, in numbers. Together with the empty stream this says all there is
   to say about its lines and its leftover.
   */
  lemma NextByte(charSigned: bool, s: seq<byte>, b: byte)
    ensures var before, after := Residual(charSigned, s), Residual(charSigned, s + [b]);
            var lines := Frames(charSigned, s + [b]);
            if b == 13 || b == 10 || b == 0 then
              && lines == Frames(charSigned, s) + (if before.partial == [] then [] else [before.partial])
              && after == Scanner([], false)
            else
              && lines == Frames(charSigned, s)
              && after == if before.partial != [] then
                            Scanner(if |before.partial| < 2000 then before.partial + [b] else before.partial, false)
                          else if !charSigned && (if before.skip then b >= 240 else b == 255) then Scanner([], true)
                          else Scanner([b], false)
  {
    ResidualIsValid(charSigned, s);
    FramesGrow(charSigned, s, [b]);
    FeedOne(charSigned, Residual(charSigned, s), b);
    assert charSigned ==> !Residual(charSigned, s).skip;
  }

  lemma NoByte(charSigned: bool)
    ensures Frames(charSigned, []) == [] && Residual(charSigned, []) == Scanner([], false)
  {
  }

  /** Behind an IAC a byte is taken for Telnet exactly from 240 up. */
  lemma AfterIac(b: byte)
    requires b != 13 && b != 10 && b != 0
    ensures Residual(false, [255, b]).partial == [] <==> b >= 240
  {
    NoByte(false);
    NextByte(false, [], 255);
    NextByte(false, [255], b);
    assert [] + [255] == [255] && [255] + [b] == [255, b];
  }

  /** A Telnet sequence before a line leaves no trace where `char` is unsigned. */
  lemma TelnetIsDropped(telnet: seq<byte>, line: Line)
    requires telnet != [] && telnet[0] == 255 && forall i :: 0 <= i < |telnet| ==> telnet[i] >= 240
    requires 1 <= |line| <= 2000 && line[0] < 240
    requires forall i :: 0 <= i < |line| ==> line[i] != 13 && line[i] != 10 && line[i] != 0
    ensures Frames(false, telnet + line + [13, 10]) == [line]
    ensures Residual(false, telnet + line + [13, 10]) == Scanner([], false)
  {
    var segment := telnet + line;
    assert TelnetRun(segment) == |telnet| by {
      assert segment[|telnet|] == line[0];
      assert forall i :: 0 <= i < |telnet| ==> segment[i] == telnet[i];
    }
    assert Clean(false, segment) == line;
    assert segment + [13, 10] == segment + ([CR, LF] + []);
    FramesOfSentLine(false, segment, []);
    FramesOfSegment(false, []);
  }

  // ---------- Accounting ----------

  function Weight(lines: seq<Line>): nat {
    if lines == [] then 0 else |lines[0]| + 1 + Weight(lines[1..])
  }

  function Buffered(sc: Scanner): nat {
    if sc.partial == [] then 0 else 1
  }

  lemma {:induction false} WeightConcat(a: seq<Line>, b: seq<Line>)
    ensures Weight(a + b) == Weight(a) + Weight(b)
  {
    if a == [] {
      assert a + b == b;
    } else {
      assert (a + b)[1..] == a[1..] + b;
      WeightConcat(a[1..], b);
    }
  }

  lemma StepAccounting(charSigned: bool, sc: Scanner, b: byte)
    ensures var f := Step(charSigned, sc, b);
            && 2 * |f.lines| + Buffered(f.scanner) <= 1 + Buffered(sc)
            && Weight(f.lines) + |f.scanner.partial| <= 1 + |sc.partial|
  {
    assert NonEmpty(sc.partial) == [] || NonEmpty(sc.partial)[1..] == [];
  }

  lemma {:induction false} FeedAccounting(charSigned: bool, sc: Scanner, s: seq<byte>)
    ensures var f := Feed(charSigned, sc, s);
            && 2 * |f.lines| + Buffered(f.scanner) <= |s| + Buffered(sc)
            && Weight(f.lines) + |f.scanner.partial| <= |s| + |sc.partial|
    decreases |s|
  {
    if s == [] {
    } else {
      var f := Step(charSigned, sc, s[0]);
      StepAccounting(charSigned, sc, s[0]);
      FeedAccounting(charSigned, f.scanner, s[1..]);
      WeightConcat(f.lines, Feed(charSigned, f.scanner, s[1..]).lines);
    }
  }

  /** Every queued line was paid for: two bytes at least, and one byte for each byte it holds plus its line end. */
  lemma Accounting(charSigned: bool, s: seq<byte>)
    ensures 2 * |Frames(charSigned, s)| + Buffered(Residual(charSigned, s)) <= |s|
    ensures Weight(Frames(charSigned, s)) + |Residual(charSigned, s).partial| <= |s|
  {
    FeedIsFraming(charSigned, s);
    FeedAccounting(charSigned, IDLE, s);
  }

  // ---------- Which lists of lines can come out ----------

  predicate LegalLine(charSigned: bool, line: Line) {
    1 <= |line| <= MAX_LINE && NoEol(line) && (!charSigned ==> line[0] != IAC)
  }

  predicate LegalLines(charSigned: bool, lines: seq<Line>) {
    forall i :: 0 <= i < |lines| ==> LegalLine(charSigned, lines[i])
  }

  /** The lines as a client would send them. */
  function Encode(lines: seq<Line>): seq<byte> {
    if lines == [] then [] else lines[0] + ([CR, LF] + Encode(lines[1..]))
  }

  lemma CleanLegal(charSigned: bool, segment: seq<byte>)
    requires NoEol(segment)
    ensures LegalLines(charSigned, NonEmpty(Clean(charSigned, segment)))
    ensures LegalLine(charSigned, segment) ==> Clean(charSigned, segment) == segment
  {
    CleanKeepsNoEol(charSigned, segment);
  }

  /** The first segment, and the rest. */
  lemma FramesUnfold(charSigned: bool, s: seq<byte>)
    requires EolIndex(s) < |s|
    ensures Frames(charSigned, s)
         == NonEmpty(Clean(charSigned, s[..EolIndex(s)])) + Frames(charSigned, s[EolIndex(s) + 1..])
    ensures LastSegment(s) == LastSegment(s[EolIndex(s) + 1..])
  {
  }

  lemma LegalConcat(charSigned: bool, a: seq<Line>, b: seq<Line>)
    requires LegalLines(charSigned, a) && LegalLines(charSigned, b)
    ensures LegalLines(charSigned, a + b)
  {
  }

  lemma {:induction false} FramesAreLegal(charSigned: bool, s: seq<byte>)
    ensures LegalLines(charSigned, Frames(charSigned, s))
    decreases |s|
  {
    var k := EolIndex(s);
    if k == |s| {
    } else {
      CleanLegal(charSigned, s[..k]);
      FramesAreLegal(charSigned, s[k + 1..]);
      LegalConcat(charSigned, NonEmpty(Clean(charSigned, s[..k])), Frames(charSigned, s[k + 1..]));
      FramesUnfold(charSigned, s);
    }
  }

  /** A line end where a line would begin is skipped. */
  lemma FramesSkipEol(charSigned: bool, eol: byte, rest: seq<byte>)
    requires IsEol(eol)
    ensures Frames(charSigned, [eol] + rest) == Frames(charSigned, rest)
    ensures LastSegment([eol] + rest) == LastSegment(rest)
  {
    var s := [eol] + rest;
    assert s[1..] == rest && [] + s == s;
    FramesAfterSegment(charSigned, [], s);
    LastSegmentAfterSegment([], s);
    assert NonEmpty(Clean(charSigned, [])) == [];
  }

  /** A line sent with CRLF, then more bytes. */
  lemma FramesOfSentLine(charSigned: bool, line: Line, rest: seq<byte>)
    requires NoEol(line)
    ensures Frames(charSigned, line + ([CR, LF] + rest))
         == NonEmpty(Clean(charSigned, line)) + Frames(charSigned, rest)
    ensures LastSegment(line + ([CR, LF] + rest)) == LastSegment(rest)
  {
    var s := [CR, LF] + rest;
    assert s[1..] == [LF] + rest;
    FramesSkipEol(charSigned, LF, rest);
    FramesAfterSegment(charSigned, line, s);
    LastSegmentAfterSegment(line, s);
  }

  lemma FramesOfLegalLine(charSigned: bool, line: Line, rest: seq<byte>, lines: seq<Line>)
    requires LegalLine(charSigned, line)
    requires Frames(charSigned, rest) == lines && Residual(charSigned, rest) == IDLE
    ensures Frames(charSigned, line + ([CR, LF] + rest)) == [line] + lines
    ensures Residual(charSigned, line + ([CR, LF] + rest)) == IDLE
  {
    CleanLegal(charSigned, line);
    FramesOfSentLine(charSigned, line, rest);
  }

  lemma {:induction false} FramesOfEncode(charSigned: bool, lines: seq<Line>)
    requires LegalLines(charSigned, lines)
    ensures Frames(charSigned, Encode(lines)) == lines
    ensures Residual(charSigned, Encode(lines)) == IDLE
  {
    if lines == [] {
      FramesOfSegment(charSigned, []);
    } else {
      FramesOfEncode(charSigned, lines[1..]);
      FramesOfLegalLine(charSigned, lines[0], Encode(lines[1..]), lines[1..]);
      SplitFirst(lines);
    }
  }

  /** Exactly the lists of legal lines are the framing of some stream. */
  lemma FramesImage(charSigned: bool, lines: seq<Line>)
    ensures LegalLines(charSigned, lines) <==> exists s :: Frames(charSigned, s) == lines
  {
    if LegalLines(charSigned, lines) {
      FramesOfEncode(charSigned, lines);
    }
    forall s | Frames(charSigned, s) == lines
      ensures LegalLines(charSigned, lines)
    {
      FramesAreLegal(charSigned, s);
    }
  }

  // ---------- Bytes that do not matter ----------

  /** Nothing happens on this byte: an overlong line, a Telnet run going on, or a line end on an empty line. */
  predicate Redundant(charSigned: bool, sc: Scanner, b: byte) {
    if IsEol(b) then sc == IDLE
    else if sc.partial != [] then |sc.partial| >= MAX_LINE
    else !charSigned && sc.skip && b >= TELNET_LOW
  }

  lemma RedundantIsIdleStep(charSigned: bool, sc: Scanner, b: byte)
    requires sc.Valid() && (charSigned ==> !sc.skip)
    ensures Redundant(charSigned, sc, b) <==> Step(charSigned, sc, b) == Fed(sc, [])
  {
    assert !IsEol(b) && sc.partial != [] && |sc.partial| < MAX_LINE ==> (sc.partial + [b]) != sc.partial;
  }

  ghost predicate Deletable(charSigned: bool, a: seq<byte>, b: byte) {
    forall rest: seq<byte> ::
      && Frames(charSigned, a + [b] + rest) == Frames(charSigned, a + rest)
      && Residual(charSigned, a + [b] + rest) == Residual(charSigned, a + rest)
  }

  lemma RedundantIsDeletable(charSigned: bool, a: seq<byte>, b: byte)
    requires Redundant(charSigned, Residual(charSigned, a), b)
    ensures Deletable(charSigned, a, b)
  {
    ByteAfter(charSigned, a, b);
    forall rest: seq<byte>
      ensures Frames(charSigned, a + [b] + rest) == Frames(charSigned, a + rest)
      ensures Residual(charSigned, a + [b] + rest) == Residual(charSigned, a + rest)
    {
      FramesGrow(charSigned, a, rest);
      FramesGrow(charSigned, a + [b], rest);
    }
  }

  /** One more byte gives no line and leaves the parser as it was exactly when it is redundant. */
  lemma ByteAfter(charSigned: bool, a: seq<byte>, b: byte)
    ensures Redundant(charSigned, Residual(charSigned, a), b)
       <==> Frames(charSigned, a + [b]) == Frames(charSigned, a)
            && Residual(charSigned, a + [b]) == Residual(charSigned, a)
  {
    var sc := Residual(charSigned, a);
    assert sc.Valid() by { ResidualIsValid(charSigned, a); }
    FramesGrow(charSigned, a, [b]);
    FeedOne(charSigned, sc, b);
    RedundantIsIdleStep(charSigned, sc, b);
    assert Step(charSigned, sc, b).lines == []
      <==> |Frames(charSigned, a) + Step(charSigned, sc, b).lines| == |Frames(charSigned, a)|;
  }

  /**
   A byte can be deleted from a stream, whatever follows it, exactly when it is redundant where it
   stands. In particular every byte of a line beyond the first 2000 can go.
   */
  lemma DeletableIffRedundant(charSigned: bool, a: seq<byte>, b: byte)
    ensures Deletable(charSigned, a, b) <==> Redundant(charSigned, Residual(charSigned, a), b)
  {
    ByteAfter(charSigned, a, b);
    if Redundant(charSigned, Residual(charSigned, a), b) {
      RedundantIsDeletable(charSigned, a, b);
    } else {
      assert a + [b] + [] == a + [b] && a + [] == a;
    }
  }

  /** The bytes of a stream that are marked. */
  function Kept(s: seq<byte>, marks: seq<bool>): seq<byte>
    requires |marks| == |s|
  {
    if s == [] then [] else (if marks[0] then [s[0]] else []) + Kept(s[1..], marks[1..])
  }

  /** Every byte that is not marked is redundant where it stands in the whole stream. */
  predicate DropsOnlyRedundant(charSigned: bool, sc: Scanner, s: seq<byte>, marks: seq<bool>)
    requires |marks| == |s|
    decreases |s|
  {
    s == [] ||
    ((marks[0] || Redundant(charSigned, sc, s[0]))
     && DropsOnlyRedundant(charSigned, Step(charSigned, sc, s[0]).scanner, s[1..], marks[1..]))
  }

  predicate CanBe(charSigned: bool, sc: Scanner) {
    sc.Valid() && (charSigned ==> !sc.skip)
  }

  lemma KeptStep(charSigned: bool, sc: Scanner, s: seq<byte>, marks: seq<bool>)
    requires CanBe(charSigned, sc) && s != [] && |marks| == |s|
    requires marks[0] || Redundant(charSigned, sc, s[0])
    ensures var f, rest := Step(charSigned, sc, s[0]), Kept(s[1..], marks[1..]);
            CanBe(charSigned, f.scanner)
            && var g := Feed(charSigned, f.scanner, rest);
               Feed(charSigned, sc, Kept(s, marks)) == Fed(g.scanner, f.lines + g.lines)
  {
    RedundantIsIdleStep(charSigned, sc, s[0]);
    var rest := Kept(s[1..], marks[1..]);
    if marks[0] {
      assert ([s[0]] + rest)[1..] == rest;
    } else {
      assert [] + rest == rest;
    }
  }

  lemma {:induction false} KeptFeed(charSigned: bool, sc: Scanner, s: seq<byte>, marks: seq<bool>)
    requires CanBe(charSigned, sc) && |marks| == |s| && DropsOnlyRedundant(charSigned, sc, s, marks)
    ensures Feed(charSigned, sc, Kept(s, marks)) == Feed(charSigned, sc, s)
    decreases |s|
  {
    if s == [] {
    } else {
      KeptStep(charSigned, sc, s, marks);
      KeptFeed(charSigned, Step(charSigned, sc, s[0]).scanner, s[1..], marks[1..]);
    }
  }

  /** Deleting any choice of redundant bytes changes no line and not what is left over. */
  lemma KeptIsEnough(charSigned: bool, s: seq<byte>, marks: seq<bool>)
    requires |marks| == |s| && DropsOnlyRedundant(charSigned, IDLE, s, marks)
    ensures Frames(charSigned, Kept(s, marks)) == Frames(charSigned, s)
    ensures Residual(charSigned, Kept(s, marks)) == Residual(charSigned, s)
  {
    KeptFeed(charSigned, IDLE, s, marks);
    FeedIsFraming(charSigned, s);
    FeedIsFraming(charSigned, Kept(s, marks));
  }

  /** Marks all bytes of a stream but those beyond the 2000th of their line. */
  function WithinLength(charSigned: bool, sc: Scanner, s: seq<byte>): (marks: seq<bool>)
    ensures |marks| == |s|
    decreases |s|
  {
    if s == [] then []
    else
      [IsEol(s[0]) || |sc.partial| < MAX_LINE] + WithinLength(charSigned, Step(charSigned, sc, s[0]).scanner, s[1..])
  }

  lemma {:induction false} OverlongIsRedundant(charSigned: bool, sc: Scanner, s: seq<byte>)
    ensures DropsOnlyRedundant(charSigned, sc, s, WithinLength(charSigned, sc, s))
    decreases |s|
  {
    if s == [] {
    } else {
      var next := Step(charSigned, sc, s[0]).scanner;
      OverlongIsRedundant(charSigned, next, s[1..]);
      assert WithinLength(charSigned, sc, s)[1..] == WithinLength(charSigned, next, s[1..]);
    }
  }

  /** Deleting every byte beyond the 2000th of its line, and nothing else, changes nothing. */
  lemma OverlongIsIrrelevant(charSigned: bool, s: seq<byte>)
    ensures Frames(charSigned, Kept(s, WithinLength(charSigned, IDLE, s))) == Frames(charSigned, s)
    ensures Residual(charSigned, Kept(s, WithinLength(charSigned, IDLE, s))) == Residual(charSigned, s)
  {
    var marks := WithinLength(charSigned, IDLE, s);
    assert DropsOnlyRedundant(charSigned, IDLE, s, marks) by { OverlongIsRedundant(charSigned, IDLE, s); }
    KeptIsEnough(charSigned, s, marks);
  }

  /** Marks the bytes of a stream that are not redundant. */
  function Essential(charSigned: bool, sc: Scanner, s: seq<byte>): (marks: seq<bool>)
    ensures |marks| == |s|
    decreases |s|
  {
    if s == [] then []
    else [!Redundant(charSigned, sc, s[0])] + Essential(charSigned, Step(charSigned, sc, s[0]).scanner, s[1..])
  }

  lemma {:induction false} OthersAreRedundant(charSigned: bool, sc: Scanner, s: seq<byte>)
    ensures DropsOnlyRedundant(charSigned, sc, s, Essential(charSigned, sc, s))
    decreases |s|
  {
    if s == [] {
    } else {
      var next := Step(charSigned, sc, s[0]).scanner;
      OthersAreRedundant(charSigned, next, s[1..]);
      assert Essential(charSigned, sc, s)[1..] == Essential(charSigned, next, s[1..]);
    }
  }

  /** Deleting all redundant bytes at once changes nothing either. */
  lemma EssentialIsEnough(charSigned: bool, s: seq<byte>)
    ensures Frames(charSigned, Kept(s, Essential(charSigned, IDLE, s))) == Frames(charSigned, s)
    ensures Residual(charSigned, Kept(s, Essential(charSigned, IDLE, s))) == Residual(charSigned, s)
  {
    var marks := Essential(charSigned, IDLE, s);
    assert DropsOnlyRedundant(charSigned, IDLE, s, marks) by { OthersAreRedundant(charSigned, IDLE, s); }
    KeptIsEnough(charSigned, s, marks);
  }

  // ---------- Signed and unsigned char ----------

  predicate StartsSegment(s: seq<byte>, i: nat)
    requires i < |s|
  {
    i == 0 || IsEol(s[i - 1])
  }

  predicate NoIacAtSegmentStart(s: seq<byte>) {
    forall i :: 0 <= i < |s| && StartsSegment(s, i) ==> s[i] != IAC
  }

  predicate StartsWithIac(s: seq<byte>) {
    s != [] && s[0] == IAC
  }

  lemma SegmentStartsShift(s: seq<byte>, k: nat)
    requires k < |s| && IsEol(s[k]) && NoIacAtSegmentStart(s)
    ensures NoIacAtSegmentStart(s[k + 1..])
  {
    var t := s[k + 1..];
    forall i | 0 <= i < |t| && StartsSegment(t, i)
      ensures t[i] != IAC
    {
      assert StartsSegment(s, i + k + 1);
    }
  }

  lemma {:induction false} SameWithoutIac(s: seq<byte>)
    requires NoIacAtSegmentStart(s)
    ensures Frames(true, s) == Frames(false, s) && Residual(true, s) == Residual(false, s)
    decreases |s|
  {
    var k := EolIndex(s);
    if k == |s| {
      SameSegment(s);
      FramesOfSegment(true, s);
      FramesOfSegment(false, s);
    } else {
      SameFirstSegment(s);
      SegmentStartsShift(s, k);
      SameWithoutIac(s[k + 1..]);
      FramesUnfold(true, s);
      FramesUnfold(false, s);
    }
  }

  lemma SameFirstSegment(s: seq<byte>)
    requires NoIacAtSegmentStart(s)
    ensures Clean(true, s[..EolIndex(s)]) == Clean(false, s[..EolIndex(s)])
  {
    var segment := s[..EolIndex(s)];
    assert NoIacAtSegmentStart(segment) by {
      assert segment != [] ==> StartsSegment(s, 0) && segment[0] == s[0];
    }
    SameSegment(segment);
  }

  lemma SameSegment(segment: seq<byte>)
    requires NoEol(segment) && NoIacAtSegmentStart(segment)
    ensures Pending(true, segment) == Pending(false, segment)
  {
    assert segment != [] ==> StartsSegment(segment, 0);
  }

  predicate SomeStartsWithIac(lines: seq<Line>) {
    exists j :: 0 <= j < |lines| && StartsWithIac(lines[j])
  }

  lemma SomeStartsInConcat(a: seq<Line>, b: seq<Line>)
    requires SomeStartsWithIac(a) || SomeStartsWithIac(b)
    ensures SomeStartsWithIac(a + b)
  {
    if SomeStartsWithIac(a) {
      var j :| 0 <= j < |a| && StartsWithIac(a[j]);
      assert (a + b)[j] == a[j];
    } else {
      var j :| 0 <= j < |b| && StartsWithIac(b[j]);
      assert (a + b)[|a| + j] == b[j];
    }
  }

  lemma SignedCleanKeepsIac(t: seq<byte>)
    requires StartsWithIac(t)
    ensures StartsWithIac(Clean(true, t)) && SomeStartsWithIac(NonEmpty(Clean(true, t)))
  {
    assert NonEmpty(Clean(true, t))[0] == Clean(true, t);
  }

  ghost predicate ShowsIac(s: seq<byte>) {
    StartsWithIac(Residual(true, s).partial) || SomeStartsWithIac(Frames(true, s))
  }

  lemma ShowsIacInRest(s: seq<byte>)
    requires EolIndex(s) < |s| && ShowsIac(s[EolIndex(s) + 1..])
    ensures ShowsIac(s)
  {
    var first, t := NonEmpty(Clean(true, s[..EolIndex(s)])), s[EolIndex(s) + 1..];
    FramesUnfold(true, s);
    if SomeStartsWithIac(Frames(true, t)) {
      SomeStartsInConcat(first, Frames(true, t));
    }
  }

  lemma ShowsIacInFirst(s: seq<byte>)
    requires EolIndex(s) < |s| && StartsWithIac(s[..EolIndex(s)])
    ensures ShowsIac(s)
  {
    FramesUnfold(true, s);
    SignedCleanKeepsIac(s[..EolIndex(s)]);
    SomeStartsInConcat(NonEmpty(Clean(true, s[..EolIndex(s)])), Frames(true, s[EolIndex(s) + 1..]));
  }

  lemma {:induction false} SignedKeepsIac(s: seq<byte>, i: nat)
    requires i < |s| && StartsSegment(s, i) && s[i] == IAC
    ensures ShowsIac(s)
    decreases |s|
  {
    var k := EolIndex(s);
    if k == |s| {
      SignedCleanKeepsIac(s);
    } else if i < k {
      ShowsIacInFirst(s);
    } else {
      SignedKeepsIac(s[k + 1..], i - k - 1);
      ShowsIacInRest(s);
    }
  }

  lemma UnsignedDropsIac(s: seq<byte>)
    ensures !StartsWithIac(Residual(false, s).partial) && !SomeStartsWithIac(Frames(false, s))
  {
    var lines, last := Frames(false, s), LastSegment(s);
    assert LegalLines(false, lines) by { FramesAreLegal(false, s); }
    assert forall j :: 0 <= j < |lines| ==> LegalLine(false, lines[j]);
    assert LegalLines(false, NonEmpty(Clean(false, last))) by { CleanLegal(false, last); }
    assert Clean(false, last) != [] ==> LegalLine(false, NonEmpty(Clean(false, last))[0]);
  }

  /**
   Builds with signed and with unsigned `char` frame a stream differently as soon as one of its
   segments opens with IAC, and only then.
   */
  lemma PlatformsAgreeIff(s: seq<byte>)
    ensures NoIacAtSegmentStart(s)
       <==> Frames(true, s) == Frames(false, s) && Residual(true, s) == Residual(false, s)
  {
    if NoIacAtSegmentStart(s) {
      SameWithoutIac(s);
    } else {
      var i :| 0 <= i < |s| && StartsSegment(s, i) && s[i] == IAC;
      SignedKeepsIac(s, i);
      UnsignedDropsIac(s);
    }
  }
}
