/** Bytes, the punctuation of JSON text, and the two result types every other module uses. */
module Bytes {

  newtype byte = x: int | 0 <= x < 256

  type bytes = seq<byte>

  const TAB: byte := 9
  const LF: byte := 10
  const CR: byte := 13
  const SPACE: byte := 32
  const QUOTE: byte := 34
  const COMMA: byte := 44
  const DASH: byte := 45
  const SLASH: byte := 47
  const ZERO: byte := 48
  const ONE: byte := 49
  const NINE: byte := 57
  const COLON: byte := 58
  const LBRACKET: byte := 91
  const BACKSLASH: byte := 92
  const RBRACKET: byte := 93
  const LBRACE: byte := 123
  const RBRACE: byte := 125
  const TILDE: byte := 126

  /** The bytes that spell ASCII text. */
  function Ascii(s: string): (t: bytes)
    requires forall i :: 0 <= i < |s| ==> s[i] < 128 as char
    ensures |t| == |s|
  {
    seq(|s|, i requires 0 <= i < |s| => s[i] as int as byte)
  }

  /** The structural characters of section 2 of RFC 8259, and the other punctuation, are spelled right. */
  lemma Punctuation()
    ensures [LBRACKET, LBRACE, RBRACKET, RBRACE, COLON, COMMA] == Ascii("[{]}:,")
    ensures [QUOTE, BACKSLASH, DASH, SLASH, TILDE, ZERO, ONE, NINE] == Ascii("\"\\-/~019")
  {
  }

  /** Whitespace is space, tab, line feed and carriage return, and nothing else. */
  lemma Whitespace(b: byte)
    ensures IsWs(b) <==> [b] == Ascii(" ") || [b] == Ascii("\t") || [b] == Ascii("\n") || [b] == Ascii("\r")
    ensures [LF, CR] == Ascii("\n\r")
  {
    assert [b][0] == b;
  }

  datatype Option<+T> = None | Some(value: T)

  datatype Result<+T, +E> = Ok(value: T) | Err(error: E)

  /** Insignificant whitespace between tokens. */
  predicate IsWs(b: byte) {
    b == SPACE || b == TAB || b == LF || b == CR
  }

  ghost predicate AllWs(s: bytes) {
    forall i :: 0 <= i < |s| ==> IsWs(s[i])
  }

  /** The length of the longest whitespace prefix of `s`. */
  function WsLen(s: bytes): (n: nat)
    ensures n <= |s|
  {
    if s == [] || !IsWs(s[0]) then 0 else 1 + WsLen(s[1..])
  }

  ghost predicate StartsWs(s: bytes) {
    s != [] && IsWs(s[0])
  }

  /** The measured prefix is whitespace, and nothing after it continues it. */
  lemma {:induction false} WsAlone(s: bytes)
    ensures AllWs(s[..WsLen(s)]) && !StartsWs(s[WsLen(s)..])
  {
    if s != [] && IsWs(s[0]) {
      WsAlone(s[1..]);
      var n := WsLen(s[1..]);
      assert s[..n + 1] == [s[0]] + s[1..][..n];
      assert s[n + 1..] == s[1..][n..];
    }
  }

  /** A whitespace run in front of anything else is measured, and cut off, exactly. */
  lemma {:induction false} WsCut(w: bytes, t: bytes)
    requires AllWs(w) && !StartsWs(t)
    ensures WsLen(w + t) == |w|
    ensures (w + t)[..|w|] == w && (w + t)[|w|..] == t
  {
    if w == [] {
      assert w + t == t;
    } else {
      WsCut(w[1..], t);
      assert (w + t)[1..] == w[1..] + t;
    }
  }

  // ----- reassociation, for texts cut off one piece at a time -----

  lemma Chain3(s: bytes, a: bytes, s1: bytes, b: bytes, s2: bytes, c: bytes, rest: bytes)
    requires s == a + s1 && s1 == b + s2 && s2 == c + rest
    ensures s == a + b + c + rest
  {
  }

  lemma Chain4(s: bytes, a: bytes, s1: bytes, b: bytes, s2: bytes, c: bytes, s3: bytes, d: bytes, rest: bytes)
    requires s == a + s1 && s1 == b + s2 && s2 == c + s3 && s3 == d + rest
    ensures s == a + b + c + d + rest
  {
  }

  lemma CutAt(s: bytes, n: nat)
    requires n <= |s|
    ensures s == s[..n] + s[n..]
  {
  }
}
