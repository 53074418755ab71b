/** Bytes as the control connection delivers them, and how C++ reads them through plain `char`. */
module Bytes {
  type byte = x: int | 0 <= x < 256

  const NUL: byte := 0
  const LF: byte := 10
  const CR: byte := 13
  const SPACE: byte := 32

  /** First byte of a Telnet command ("interpret as command", RFC 854, TELNET COMMAND STRUCTURE). */
  const IAC: byte := 255

  /** Bytes from here up are what the parser takes for Telnet commands and options. */
  const TELNET_LOW: byte := 240

  /** The parser ends a line at any of these three. */
  predicate IsEol(b: byte) {
    b == CR || b == NUL || b == LF
  }

  /** The integer a byte has as a plain `char`, which is signed on some platforms and not on others. */
  function CharValue(charSigned: bool, b: byte): (v: int)
    ensures if charSigned then -128 <= v < 128 else 0 <= v < 256
    ensures (v - b) % 256 == 0
  {
    if charSigned && b >= 128 then b - 256 else b
  }

  predicate NoEol(s: seq<byte>) {
    forall i :: 0 <= i < |s| ==> !IsEol(s[i])
  }

  predicate IsAsciiText(t: string) {
    forall i :: 0 <= i < |t| ==> t[i] as int < 128
  }

  function Ascii(t: string): (s: seq<byte>)
    requires IsAsciiText(t)
    ensures |s| == |t| && forall i :: 0 <= i < |t| ==> s[i] == t[i] as int
  {
    seq(|t|, i requires 0 <= i < |t| => t[i] as int)
  }

  lemma SplitLast<T>(s: seq<T>)
    requires s != []
    ensures s == s[..|s| - 1] + [s[|s| - 1]]
  {
  }

  lemma SplitFirst<T>(s: seq<T>)
    requires s != []
    ensures s == [s[0]] + s[1..]
  {
  }

  lemma ConcatSplitLast<T>(a: seq<T>, b: seq<T>)
    requires b != []
    ensures a + b == a + b[..|b| - 1] + [b[|b| - 1]]
  {
  }

  lemma TakeOneMore<T>(s: seq<T>, k: nat)
    requires k < |s|
    ensures s[..k + 1] == s[..k] + [s[k]]
  {
  }

  lemma TakeDrop<T>(s: seq<T>, n: nat)
    requires n <= |s|
    ensures s[..n] + s[n..] == s
  {
  }

  lemma ConcatAssociative<T>(a: seq<T>, b: seq<T>, c: seq<T>)
    ensures a + b + c == a + (b + c)
  {
  }

  lemma ExtendedByOne<T>(short: seq<T>, long: seq<T>)
    requires short <= long && |long| == |short| + 1
    ensures long == short + [long[|short|]]
  {
  }

  lemma NoEolSlice(s: seq<byte>, lo: nat, hi: nat)
    requires lo <= hi <= |s| && NoEol(s)
    ensures NoEol(s[lo..hi])
  {
  }

  datatype Option<+T> = None | Some(value: T)
}
