/**
 How the parser cuts the received bytes into command lines.

 There are two descriptions. `Frames` and `Residual` are the declarative ones: they look at a whole
 stream, cut it at line ends and clean each segment. `Step` and `Feed` are the machine: one byte
 after the other, with a partial line and a Telnet flag as its only memory. `FeedIsFraming` says
 that they agree on every stream, for signed and for unsigned `char`.
 */
module Framing {
  import opened Bytes

  type Line = seq<byte>

  /** Bytes of a line beyond this many are dropped. */
  const MAX_LINE := 2000

  // ---------- The declarative description ----------

  /** Position of the first line end, or the length when there is none. */
  function EolIndex(s: seq<byte>): (k: nat)
    ensures k <= |s|
    ensures forall i :: 0 <= i < k ==> !IsEol(s[i])
    ensures k < |s| ==> IsEol(s[k])
  {
    if s == [] || IsEol(s[0]) then 0 else 1 + EolIndex(s[1..])
  }

  /** Length of the longest prefix made of Telnet bytes. */
  function TelnetRun(s: seq<byte>): (k: nat)
    ensures k <= |s|
    ensures forall i :: 0 <= i < k ==> s[i] >= 240
    ensures k < |s| ==> s[k] < 240
  {
    if s == [] || s[0] < TELNET_LOW then 0 else 1 + TelnetRun(s[1..])
  }

  /** A segment that opens with IAC loses its Telnet run. With signed `char` the test for IAC never succeeds. */
  function StripTelnet(charSigned: bool, segment: seq<byte>): seq<byte> {
    if !charSigned && segment != [] && segment[0] == IAC then segment[TelnetRun(segment)..] else segment
  }

  function Cut(s: seq<byte>): seq<byte> {
    if |s| <= MAX_LINE then s else s[..MAX_LINE]
  }

  function Clean(charSigned: bool, segment: seq<byte>): Line {
    Cut(StripTelnet(charSigned, segment))
  }

  /** Empty lines are not queued. */
  function NonEmpty(line: Line): seq<Line> {
    if line == [] then [] else [line]
  }

  /** The lines of a whole stream: its terminated segments, cleaned, without the empty ones. */
  function Frames(charSigned: bool, s: seq<byte>): seq<Line>
    decreases |s|
  {
    var k := EolIndex(s);
    if k == |s| then [] else NonEmpty(Clean(charSigned, s[..k])) + Frames(charSigned, s[k + 1..])
  }

  /** What follows the last line end. */
  function LastSegment(s: seq<byte>): (segment: seq<byte>)
    ensures NoEol(segment)
    decreases |s|
  {
    var k := EolIndex(s);
    if k == |s| then s else LastSegment(s[k + 1..])
  }

  /** It is the end of the stream, and a line end stands before it unless it is all there is. */
  lemma {:induction false} LastSegmentEndsStream(s: seq<byte>) returns (before: seq<byte>)
    ensures s == before + LastSegment(s)
    ensures before != [] ==> IsEol(before[|before| - 1])
    decreases |s|
  {
    var k := EolIndex(s);
    if k == |s| {
      before := [];
    } else {
      var rest := LastSegmentEndsStream(s[k + 1..]);
      before := s[..k + 1] + rest;
      TakeDrop(s, k + 1);
      ConcatAssociative(s[..k + 1], rest, LastSegment(s[k + 1..]));
    }
  }

  /** What is left in the parser after a segment that is not terminated yet. */
  function Pending(charSigned: bool, segment: seq<byte>): Scanner {
    Scanner(Clean(charSigned, segment), segment != [] && StripTelnet(charSigned, segment) == [])
  }

  function Residual(charSigned: bool, s: seq<byte>): Scanner {
    Pending(charSigned, LastSegment(s))
  }

  // ---------- The machine ----------

  /** `partial` stands for the used part of the receive buffer. */
  datatype Scanner = Scanner(partial: seq<byte>, skip: bool) {
    /** The Telnet flag is only ever up between lines, and the partial line holds no line end. */
    predicate Valid() {
      (partial != [] ==> !skip) && |partial| <= MAX_LINE && NoEol(partial)
    }
  }

  const IDLE := Scanner([], false)

  datatype Fed = Fed(scanner: Scanner, lines: seq<Line>)

  function Step(charSigned: bool, sc: Scanner, b: byte): Fed {
    var v := CharValue(charSigned, b);
    if sc.partial == [] && sc.skip && v >= TELNET_LOW then
      Fed(sc, [])
    else if sc.partial == [] && !sc.skip && v == IAC then
      Fed(Scanner([], true), [])
    else
      var skip := sc.partial != [] && sc.skip;
      if IsEol(b) then
        Fed(Scanner([], skip), NonEmpty(sc.partial))
      else if |sc.partial| < MAX_LINE then
        Fed(Scanner(sc.partial + [b], skip), [])
      else
        Fed(Scanner(sc.partial, skip), [])
  }

  function Feed(charSigned: bool, sc: Scanner, s: seq<byte>): Fed
    decreases |s|
  {
    if s == [] then Fed(sc, [])
    else
      var f := Step(charSigned, sc, s[0]);
      var g := Feed(charSigned, f.scanner, s[1..]);
      Fed(g.scanner, f.lines + g.lines)
  }

  /** Feeding in two parts is feeding the whole. */
  lemma {:induction false} FeedConcat(charSigned: bool, sc: Scanner, a: seq<byte>, b: seq<byte>)
    ensures var f := Feed(charSigned, sc, a);
            var g := Feed(charSigned, f.scanner, b);
            Feed(charSigned, sc, a + b) == Fed(g.scanner, f.lines + g.lines)
    decreases |a|
  {
    if a == [] {
      assert a + b == b;
    } else {
      assert (a + b)[1..] == a[1..] + b;
      FeedConcat(charSigned, Step(charSigned, sc, a[0]).scanner, a[1..], b);
    }
  }

  lemma FeedOne(charSigned: bool, sc: Scanner, b: byte)
    ensures Feed(charSigned, sc, [b]) == Step(charSigned, sc, b)
  {
    assert [b][1..] == [];
    assert Feed(charSigned, Step(charSigned, sc, b).scanner, []).lines == [];
  }

  lemma FeedSnoc(charSigned: bool, sc: Scanner, s: seq<byte>, b: byte)
    ensures var f := Feed(charSigned, sc, s);
            var g := Step(charSigned, f.scanner, b);
            Feed(charSigned, sc, s + [b]) == Fed(g.scanner, f.lines + g.lines)
  {
    FeedConcat(charSigned, sc, s, [b]);
    FeedOne(charSigned, Feed(charSigned, sc, s).scanner, b);
  }

  // ---------- The two agree ----------

  lemma {:induction false} TelnetRunSnoc(t: seq<byte>, b: byte)
    ensures TelnetRun(t + [b]) == if TelnetRun(t) < |t| then TelnetRun(t)
                                  else if b >= TELNET_LOW then |t| + 1 else |t|
    decreases |t|
  {
    if t == [] || t[0] < TELNET_LOW {
    } else {
      assert (t + [b])[1..] == t[1..] + [b];
      TelnetRunSnoc(t[1..], b);
    }
  }

  lemma StripSnoc(charSigned: bool, t: seq<byte>, b: byte)
    ensures var stripped := StripTelnet(charSigned, t);
            StripTelnet(charSigned, t + [b])
              == (if stripped != [] then stripped + [b]
                  else if t == [] then (if !charSigned && b == IAC then [] else [b])
                  else if b >= TELNET_LOW then [] else [b])
  {
    TelnetRunSnoc(t, b);
    assert t != [] ==> (t + [b])[0] == t[0];
  }

  lemma CutSnoc(l: seq<byte>, b: byte)
    ensures Cut(l + [b]) == if |l| < MAX_LINE then Cut(l) + [b] else Cut(l)
  {
    assert |l| >= MAX_LINE ==> (l + [b])[..MAX_LINE] == l[..MAX_LINE];
  }

  /** One more byte of the same segment. */
  lemma StepInsideSegment(charSigned: bool, t: seq<byte>, b: byte)
    requires !IsEol(b)
    ensures Step(charSigned, Pending(charSigned, t), b) == Fed(Pending(charSigned, t + [b]), [])
  {
    var stripped := StripTelnet(charSigned, t);
    StripSnoc(charSigned, t, b);
    CutSnoc(stripped, b);
    assert stripped == [] <==> Cut(stripped) == [];
    assert charSigned ==> (stripped == [] <==> t == []);
  }

  /** A line end closes the segment. */
  lemma StepAtEol(charSigned: bool, t: seq<byte>, b: byte)
    requires IsEol(b)
    ensures Step(charSigned, Pending(charSigned, t), b) == Fed(IDLE, NonEmpty(Clean(charSigned, t)))
  {
  }

  lemma FramesOfSegment(charSigned: bool, t: seq<byte>)
    requires NoEol(t)
    ensures Frames(charSigned, t) == [] && LastSegment(t) == t
  {
  }

  lemma EolAfterSegment(t: seq<byte>, s: seq<byte>)
    requires NoEol(t) && s != [] && IsEol(s[0])
    ensures EolIndex(t + s) == |t| < |t + s|
    ensures (t + s)[..|t|] == t && (t + s)[|t| + 1..] == s[1..]
  {
    assert (t + s)[|t|] == s[0];
  }

  lemma FramesAfterSegment(charSigned: bool, t: seq<byte>, s: seq<byte>)
    requires NoEol(t) && s != [] && IsEol(s[0])
    ensures Frames(charSigned, t + s) == NonEmpty(Clean(charSigned, t)) + Frames(charSigned, s[1..])
  {
    EolAfterSegment(t, s);
  }

  lemma LastSegmentAfterSegment(t: seq<byte>, s: seq<byte>)
    requires NoEol(t) && s != [] && IsEol(s[0])
    ensures LastSegment(t + s) == LastSegment(s[1..])
  {
    EolAfterSegment(t, s);
  }

  lemma FeedCons(charSigned: bool, sc: Scanner, s: seq<byte>, next: Scanner, lines: seq<Line>, rest: Fed)
    requires s != [] && Step(charSigned, sc, s[0]) == Fed(next, lines) && Feed(charSigned, next, s[1..]) == rest
    ensures Feed(charSigned, sc, s) == Fed(rest.scanner, lines + rest.lines)
  {
  }

  lemma FeedFromEol(charSigned: bool, t: seq<byte>, s: seq<byte>)
    requires NoEol(t) && s != [] && IsEol(s[0])
    requires Feed(charSigned, IDLE, s[1..]) == Fed(Residual(charSigned, s[1..]), Frames(charSigned, s[1..]))
    ensures Feed(charSigned, Pending(charSigned, t), s)
         == Fed(Residual(charSigned, t + s), Frames(charSigned, t + s))
  {
    StepAtEol(charSigned, t, s[0]);
    FeedCons(charSigned, Pending(charSigned, t), s, IDLE, NonEmpty(Clean(charSigned, t)),
             Fed(Residual(charSigned, s[1..]), Frames(charSigned, s[1..])));
    FramesAfterSegment(charSigned, t, s);
    LastSegmentAfterSegment(t, s);
  }

  /** The general form: the machine has just read the unterminated segment `t` and goes on with `s`. */
  lemma {:induction false} FeedFromSegment(charSigned: bool, t: seq<byte>, s: seq<byte>)
    requires NoEol(t)
    ensures Feed(charSigned, Pending(charSigned, t), s)
         == Fed(Residual(charSigned, t + s), Frames(charSigned, t + s))
    decreases |s|, 0
  {
    if s == [] {
      FramesOfSegment(charSigned, t);
      assert t + s == t;
    } else if IsEol(s[0]) {
      FeedIsFraming(charSigned, s[1..]);
      FeedFromEol(charSigned, t, s);
    } else {
      var u := t + [s[0]];
      assert u + s[1..] == t + s;
      FeedFromSegment(charSigned, u, s[1..]);
      StepInsideSegment(charSigned, t, s[0]);
      FeedCons(charSigned, Pending(charSigned, t), s, Pending(charSigned, u), [],
               Fed(Residual(charSigned, t + s), Frames(charSigned, t + s)));
    }
  }

  /** The byte-by-byte machine computes the declarative framing of the whole stream. */
  lemma {:induction false} FeedIsFraming(charSigned: bool, s: seq<byte>)
    ensures Feed(charSigned, IDLE, s) == Fed(Residual(charSigned, s), Frames(charSigned, s))
    decreases |s|, 1
  {
    FeedFromSegment(charSigned, [], s);
    assert [] + s == s;
  }
}
