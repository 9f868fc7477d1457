/** JSON Pointers (RFC 6901): splitting, escaping, array indices, and dig paths. */
module Pointer {
  import opened Bytes

  /** The largest array index a token can denote. */
  const USIZE_MAX: nat := 0xFFFF_FFFF_FFFF_FFFF

  // ----- the reference reading of a pointer -----

  /** `s` cut at every slash. */
  function Pieces(s: bytes): (ps: seq<bytes>)
    ensures |ps| > 0
  {
    if s == [] then [[]]
    else
      var ps := Pieces(s[1..]);
      if s[0] == SLASH then [[]] + ps else [[s[0]] + ps[0]] + ps[1..]
  }

  /** Every `~second` replaced by `to`, left to right. */
  function ReplacePair(s: bytes, second: byte, to: byte): bytes {
    if s == [] then []
    else if |s| >= 2 && s[0] == TILDE && s[1] == second then [to] + ReplacePair(s[2..], second, to)
    else [s[0]] + ReplacePair(s[1..], second, to)
  }

  /** Section 4 of RFC 6901: `~1` first, then `~0`. */
  function Unescape(t: bytes): bytes {
    ReplacePair(ReplacePair(t, ONE, SLASH), ZERO, TILDE)
  }

  function UnescapeAll(ps: seq<bytes>): (ts: seq<bytes>)
    ensures |ts| == |ps|
  {
    seq(|ps|, i requires 0 <= i < |ps| => Unescape(ps[i]))
  }

  /** The reference tokens of a pointer; none for text that lacks the leading slash. */
  function Tokens(ptr: bytes): Option<seq<bytes>> {
    if ptr == [] then Some([])
    else if ptr[0] != SLASH then None
    else Some(UnescapeAll(Pieces(ptr[1..])))
  }

  lemma PiecesStep(c: byte, s: bytes)
    ensures Pieces([c] + s) ==
            if c == SLASH then [[]] + Pieces(s) else [[c] + Pieces(s)[0]] + Pieces(s)[1..]
  {
    assert ([c] + s)[1..] == s;
  }

  lemma {:induction false} PiecesConcat(a: bytes, b: bytes)
    ensures Pieces(a + [SLASH] + b) == Pieces(a) + Pieces(b)
  {
    hide Pieces;
    if a == [] {
      assert [] + [SLASH] + b == [SLASH] + b;
      PiecesStep(SLASH, b);
      PiecesNoSlash([]);
    } else {
      PiecesConcat(a[1..], b);
      PiecesStep(a[0], a[1..]);
      PiecesStep(a[0], a[1..] + [SLASH] + b);
      assert [a[0]] + a[1..] == a;
      assert [a[0]] + (a[1..] + [SLASH] + b) == a + [SLASH] + b;
      var ps, qs := Pieces(a[1..]), Pieces(b);
      assert (ps + qs)[0] == ps[0] && (ps + qs)[1..] == ps[1..] + qs;
    }
  }

  lemma {:induction false} PiecesNoSlash(s: bytes)
    requires SLASH !in s
    ensures Pieces(s) == [s]
  {
    if s != [] {
      PiecesNoSlash(s[1..]);
      assert [s[0]] + s[1..] == s;
    }
  }

  lemma UnescapeAllConcat(a: seq<bytes>, b: seq<bytes>)
    ensures UnescapeAll(a + b) == UnescapeAll(a) + UnescapeAll(b)
  {
  }

  // ----- split_pointer -----

  /** The position of the last slash, or 0 when there is none. */
  function LastSlash(s: bytes): (n: nat)
    ensures s != [] ==> n < |s|
    ensures s != [] && s[0] == SLASH ==> s[n] == SLASH
    ensures forall j :: n < j < |s| ==> s[j] != SLASH
  {
    if |s| <= 1 then 0
    else if s[|s| - 1] == SLASH then |s| - 1
    else LastSlash(s[..|s| - 1])
  }

  datatype Split = Root | Invalid | Parent(parent: bytes, token: bytes)

  /** Cut a pointer into its parent pointer and its last, unescaped, token. */
  function SplitPointer(ptr: bytes): Split {
    if ptr == [] then Root
    else if ptr[0] != SLASH then Invalid
    else
      var cut := LastSlash(ptr);
      Parent(ptr[..cut], Unescape(ptr[cut + 1..]))
  }

  /** `split_pointer` separates the last reference token from the ones before it. */
  lemma SplitMeansTokens(ptr: bytes)
    ensures SplitPointer(ptr).Root? <==> Tokens(ptr) == Some([])
    ensures SplitPointer(ptr).Invalid? <==> Tokens(ptr).None?
    ensures SplitPointer(ptr).Parent? ==>
              var sp := SplitPointer(ptr);
              && Tokens(sp.parent).Some?
              && Tokens(ptr) == Some(Tokens(sp.parent).value + [sp.token])
  {
    hide Unescape, Pieces, LastSlash;
    UnescapeAllConcat([], []);
    PiecesNoSlash([]);
    if ptr != [] && ptr[0] == SLASH {
      var cut := LastSlash(ptr);
      var last := ptr[cut + 1..];
      PiecesNoSlash(last);
      assert UnescapeAll([last]) == [Unescape(last)];
      if cut == 0 {
        assert ptr[1..] == last && ptr[..cut] == [];
        assert [] + [Unescape(last)] == [Unescape(last)];
      } else {
        var a := ptr[..cut][1..];
        assert ptr[1..] == a + [SLASH] + last;
        PiecesConcat(a, last);
        UnescapeAllConcat(Pieces(a), [last]);
      }
    }
  }

  // ----- encoding -----

  /** One token with `~` and `/` escaped. */
  function Escape(k: bytes): bytes {
    if k == [] then []
    else (if k[0] == TILDE then [TILDE, ZERO] else if k[0] == SLASH then [TILDE, ONE] else [k[0]]) + Escape(k[1..])
  }

  /** `k` with only `~` escaped: what is left of `Escape(k)` once `~1` is undone. */
  function HalfEscape(k: bytes): bytes {
    if k == [] then []
    else (if k[0] == TILDE then [TILDE, ZERO] else [k[0]]) + HalfEscape(k[1..])
  }

  lemma PairKept(c: byte, e: bytes, second: byte, to: byte)
    requires c != TILDE || (e != [] && e[0] != second)
    ensures ReplacePair([c] + e, second, to) == [c] + ReplacePair(e, second, to)
  {
    assert ([c] + e)[1..] == e;
  }

  lemma PairReplaced(e: bytes, second: byte, to: byte)
    ensures ReplacePair([TILDE, second] + e, second, to) == [to] + ReplacePair(e, second, to)
  {
    assert ([TILDE, second] + e)[2..] == e;
  }

  lemma {:induction false} UndoSlashes(k: bytes)
    ensures ReplacePair(Escape(k), ONE, SLASH) == HalfEscape(k)
  {
    hide ReplacePair;
    if k == [] {
      assert ReplacePair([], ONE, SLASH) == [] by { NoPair(); }
    } else {
      UndoSlashes(k[1..]);
      var e := Escape(k[1..]);
      if k[0] == TILDE {
        assert [TILDE] + ([ZERO] + e) == [TILDE, ZERO] + e;
        PairKept(TILDE, [ZERO] + e, ONE, SLASH);
        PairKept(ZERO, e, ONE, SLASH);
        assert [TILDE] + ([ZERO] + HalfEscape(k[1..])) == [TILDE, ZERO] + HalfEscape(k[1..]);
      } else if k[0] == SLASH {
        PairReplaced(e, ONE, SLASH);
      } else {
        PairKept(k[0], e, ONE, SLASH);
      }
    }
  }

  lemma NoPair()
    ensures ReplacePair([], ONE, SLASH) == [] && ReplacePair([], ZERO, TILDE) == []
  {
  }

  lemma {:induction false} UndoTildes(k: bytes)
    ensures ReplacePair(HalfEscape(k), ZERO, TILDE) == k
  {
    if k != [] {
      UndoTildes(k[1..]);
      var e := HalfEscape(k[1..]);
      if k[0] == TILDE {
        assert ([TILDE, ZERO] + e)[2..] == e;
      } else {
        assert ([k[0]] + e)[1..] == e;
      }
      assert [k[0]] + k[1..] == k;
    }
  }

  /** Decoding an encoded token gives the token back, whatever bytes it holds. */
  lemma UnescapeEscape(k: bytes)
    ensures Unescape(Escape(k)) == k
  {
    UndoSlashes(k);
    UndoTildes(k);
  }

  lemma {:induction false} EscapeNoSlash(k: bytes)
    ensures SLASH !in Escape(k)
  {
    if k != [] {
      EscapeNoSlash(k[1..]);
    }
  }

  /** The pointer addressing a list of tokens. */
  function Encode(toks: seq<bytes>): bytes {
    if toks == [] then []
    else Encode(toks[..|toks| - 1]) + [SLASH] + Escape(toks[|toks| - 1])
  }

  lemma {:induction false} EncodeStarts(toks: seq<bytes>)
    ensures toks != [] ==> Encode(toks) != [] && Encode(toks)[0] == SLASH
  {
    if toks != [] {
      EncodeStarts(toks[..|toks| - 1]);
    }
  }

  lemma {:induction false} LastSlashIs(a: bytes, b: bytes)
    requires SLASH !in b
    ensures LastSlash(a + [SLASH] + b) == |a|
  {
    var s := a + [SLASH] + b;
    if b != [] {
      LastSlashIs(a, b[..|b| - 1]);
      assert s[..|s| - 1] == a + [SLASH] + b[..|b| - 1];
      assert s[|s| - 1] == b[|b| - 1];
    }
  }

  /** `split_pointer` of an encoded path is the encoded parent and the original last token. */
  lemma SplitEncode(toks: seq<bytes>)
    requires toks != []
    ensures SplitPointer(Encode(toks)) == Parent(Encode(toks[..|toks| - 1]), toks[|toks| - 1])
  {
    hide Unescape, LastSlash;
    var init, last := toks[..|toks| - 1], toks[|toks| - 1];
    var a, b := Encode(init), Escape(last);
    EncodeStarts(init);
    EncodeStarts(toks);
    EscapeNoSlash(last);
    LastSlashIs(a, b);
    UnescapeEscape(last);
    var s := a + [SLASH] + b;
    assert s[..|a|] == a && s[|a| + 1..] == b;
  }

  lemma SplitRoot()
    ensures SplitPointer([]) == Root
  {
  }

  /** Reading an encoded path gives back its tokens. */
  lemma {:induction false} TokensEncode(toks: seq<bytes>)
    ensures Tokens(Encode(toks)) == Some(toks)
  {
    hide Tokens, SplitPointer;
    if toks == [] {
      SplitMeansTokens([]);
      assert SplitPointer([]) == Root by { SplitRoot(); }
    } else {
      var init, last := toks[..|toks| - 1], toks[|toks| - 1];
      TokensEncode(init);
      SplitEncode(toks);
      SplitMeansTokens(Encode(toks));
      assert init + [last] == toks;
    }
  }

  /** Different token lists have different pointers. */
  lemma EncodeInjective(a: seq<bytes>, b: seq<bytes>)
    requires Encode(a) == Encode(b)
    ensures a == b
  {
    TokensEncode(a);
    TokensEncode(b);
  }

  // ----- properly escaped pointers -----

  /** Every `~` starts one of the two escapes. */
  predicate WellEscaped(t: bytes) {
    if t == [] then true
    else if t[0] == TILDE then |t| >= 2 && (t[1] == ZERO || t[1] == ONE) && WellEscaped(t[2..])
    else WellEscaped(t[1..])
  }

  /** One-pass decoding, and what remains of it after the first of the two passes. */
  function OnePass(t: bytes): bytes
    requires WellEscaped(t)
  {
    if t == [] then []
    else if t[0] == TILDE then [if t[1] == ZERO then TILDE else SLASH] + OnePass(t[2..])
    else [t[0]] + OnePass(t[1..])
  }

  function HalfPass(t: bytes): bytes
    requires WellEscaped(t)
  {
    if t == [] then []
    else if t[0] == TILDE then (if t[1] == ZERO then [TILDE, ZERO] else [SLASH]) + HalfPass(t[2..])
    else [t[0]] + HalfPass(t[1..])
  }

  lemma {:induction false} FirstPass(t: bytes)
    requires WellEscaped(t)
    ensures ReplacePair(t, ONE, SLASH) == HalfPass(t)
  {
    hide ReplacePair;
    if t == [] {
      assert ReplacePair([], ONE, SLASH) == [] by { NoPair(); }
    } else if t[0] == TILDE {
      var rest := t[2..];
      FirstPass(rest);
      if t[1] == ONE {
        assert t == [TILDE, ONE] + rest;
        PairReplaced(rest, ONE, SLASH);
      } else {
        assert t == [TILDE] + ([ZERO] + rest);
        PairKept(TILDE, [ZERO] + rest, ONE, SLASH);
        PairKept(ZERO, rest, ONE, SLASH);
        assert [TILDE] + ([ZERO] + HalfPass(rest)) == [TILDE, ZERO] + HalfPass(rest);
      }
    } else {
      FirstPass(t[1..]);
      assert t == [t[0]] + t[1..];
      PairKept(t[0], t[1..], ONE, SLASH);
    }
  }

  lemma {:induction false} SecondPass(t: bytes)
    requires WellEscaped(t)
    ensures ReplacePair(HalfPass(t), ZERO, TILDE) == OnePass(t)
  {
    if t != [] {
      if t[0] == TILDE {
        SecondPass(t[2..]);
        var h := HalfPass(t[2..]);
        assert ([TILDE, ZERO] + h)[2..] == h && ([SLASH] + h)[1..] == h;
      } else {
        SecondPass(t[1..]);
        var h := HalfPass(t[1..]);
        assert ([t[0]] + h)[1..] == h;
      }
    }
  }

  lemma {:induction false} EscapeOnePass(t: bytes)
    requires WellEscaped(t) && SLASH !in t
    ensures Escape(OnePass(t)) == t
  {
    if t != [] {
      var k := if t[0] == TILDE then 2 else 1;
      EscapeOnePass(t[k..]);
      var d := OnePass(t[k..]);
      assert OnePass(t)[1..] == d;
      assert t == t[..k] + t[k..];
    }
  }

  /** Encoding a properly escaped token's decoding gives the token back. */
  lemma EscapeUnescape(t: bytes)
    requires WellEscaped(t) && SLASH !in t
    ensures Escape(Unescape(t)) == t
  {
    FirstPass(t);
    SecondPass(t);
    EscapeOnePass(t);
  }

  lemma {:induction false} WellEscapedSplit(a: bytes, b: bytes)
    requires WellEscaped(a + [SLASH] + b)
    ensures WellEscaped(a) && WellEscaped(b)
  {
    var s := a + [SLASH] + b;
    if a == [] {
      assert s[1..] == b;
    } else {
      var k := if a[0] == TILDE then 2 else 1;
      assert |a| >= k;
      assert s[k..] == a[k..] + [SLASH] + b;
      WellEscapedSplit(a[k..], b);
    }
  }

  /** On properly escaped pointers, reading and encoding undo each other both ways. */
  lemma {:induction false} EncodeTokens(ptr: bytes)
    requires WellEscaped(ptr) && Tokens(ptr).Some?
    ensures Encode(Tokens(ptr).value) == ptr
    decreases |ptr|
  {
    hide Unescape, LastSlash, Tokens, Escape, WellEscaped;
    SplitMeansTokens(ptr);
    if ptr != [] {
      var cut := LastSlash(ptr);
      assert SplitPointer(ptr) == Parent(ptr[..cut], Unescape(ptr[cut + 1..])) by { SplitParent(ptr); }
      assert ptr == ptr[..cut] + [SLASH] + ptr[cut + 1..] by { SplitParent(ptr); }
      WellEscapedSplit(ptr[..cut], ptr[cut + 1..]);
      EscapeUnescape(ptr[cut + 1..]) by { SplitParent(ptr); }
      EncodeTokens(ptr[..cut]);
      var init := Tokens(ptr[..cut]).value;
      assert (init + [Unescape(ptr[cut + 1..])])[..|init|] == init;
    } else {
      assert Tokens(ptr) == Some([]) by { SplitRoot(); }
    }
  }

  lemma SplitParent(ptr: bytes)
    requires ptr != [] && Tokens(ptr).Some?
    ensures var cut := LastSlash(ptr);
            && SplitPointer(ptr) == Parent(ptr[..cut], Unescape(ptr[cut + 1..]))
            && ptr == ptr[..cut] + [SLASH] + ptr[cut + 1..]
            && SLASH !in ptr[cut + 1..]
  {
    hide Unescape, LastSlash, Pieces;
  }

  /** `path` is the text of `from` followed by a slash and more. */
  predicate TextBelow(from: bytes, path: bytes) {
    |path| > |from| && path[..|from|] == from && path[|from|] == SLASH
  }

  /** A pointer below another in text has more tokens, and the other's in front. */
  lemma TextBelowTokens(from: bytes, path: bytes)
    requires TextBelow(from, path)
    ensures Tokens(path).Some? ==> Tokens(from).Some?
    ensures Tokens(path).Some? ==>
              var f, p := Tokens(from).value, Tokens(path).value;
              |f| < |p| && p[..|f|] == f
  {
    hide Pieces, Unescape;
    if Tokens(path).Some? && from != [] {
      var rest := path[|from| + 1..];
      assert path[0] == from[0];
      assert path[1..] == from[1..] + [SLASH] + rest;
      PiecesConcat(from[1..], rest);
      UnescapeAllConcat(Pieces(from[1..]), Pieces(rest));
    }
  }

  /** For properly escaped pointers the converse holds: token prefixes are text prefixes. */
  lemma TokensBelowText(from: bytes, path: bytes)
    requires WellEscaped(from) && WellEscaped(path)
    requires Tokens(from).Some? && Tokens(path).Some?
    requires var f, p := Tokens(from).value, Tokens(path).value; |f| < |p| && p[..|f|] == f
    ensures TextBelow(from, path)
  {
    hide Encode, Tokens, WellEscaped;
    EncodeTokens(from);
    EncodeTokens(path);
    EncodeBelow(Tokens(from).value, Tokens(path).value);
  }

  lemma {:induction false} EncodeBelow(f: seq<bytes>, p: seq<bytes>)
    requires |f| < |p| && p[..|f|] == f
    ensures TextBelow(Encode(f), Encode(p))
    decreases |p|
  {
    hide Escape;
    var init := p[..|p| - 1];
    if |f| < |init| {
      assert init[..|f|] == f;
      EncodeBelow(f, init);
    } else {
      assert init == f;
    }
  }

  lemma {:induction false} WellEscapedConcat(a: bytes, b: bytes)
    requires WellEscaped(a) && WellEscaped(b)
    ensures WellEscaped(a + b)
  {
    if a == [] {
      assert a + b == b;
    } else {
      var k := if a[0] == TILDE then 2 else 1;
      WellEscapedConcat(a[k..], b);
      assert (a + b)[k..] == a[k..] + b;
    }
  }

  lemma {:induction false} EscapeIsProper(k: bytes)
    ensures WellEscaped(Escape(k))
  {
    if k != [] {
      EscapeIsProper(k[1..]);
      var head := if k[0] == TILDE then [TILDE, ZERO] else if k[0] == SLASH then [TILDE, ONE] else [k[0]];
      assert WellEscaped(head) by { assert head[|head|..] == []; }
      WellEscapedConcat(head, Escape(k[1..]));
    }
  }

  lemma {:induction false} EncodeIsProper(ts: seq<bytes>)
    ensures WellEscaped(Encode(ts))
  {
    hide WellEscaped, Escape;
    if ts == [] {
      assert WellEscaped([]) by { NothingEscaped(); }
    } else {
      EncodeIsProper(ts[..|ts| - 1]);
      EscapeIsProper(ts[|ts| - 1]);
      assert WellEscaped([SLASH]) by { NothingEscaped(); }
      WellEscapedConcat(Encode(ts[..|ts| - 1]), [SLASH]);
      WellEscapedConcat(Encode(ts[..|ts| - 1]) + [SLASH], Escape(ts[|ts| - 1]));
    }
  }

  lemma NothingEscaped()
    ensures WellEscaped([]) && WellEscaped([SLASH])
  {
    assert [SLASH][1..] == [];
  }

  /** The pointers of section 3 of RFC 6901 are exactly the ones that encoding makes. */
  lemma ProperIffEncoded(ptr: bytes)
    ensures WellEscaped(ptr) && Tokens(ptr).Some? <==> exists ts :: ptr == Encode(ts)
  {
    hide WellEscaped, Encode, Tokens;
    if WellEscaped(ptr) && Tokens(ptr).Some? {
      EncodeTokens(ptr);
    }
    if ts :| ptr == Encode(ts) {
      EncodeIsProper(ts);
      TokensEncode(ts);
    }
  }

  /** The two escapes of section 3 of RFC 6901, and the pointer to the member with the empty key. */
  lemma EscapeCodes()
    ensures Escape(Ascii("~")) == Ascii("~0") && Escape(Ascii("/")) == Ascii("~1")
    ensures Encode([[]]) == Ascii("/")
  {
    assert Ascii("~")[1..] == [] && Ascii("/")[1..] == [];
    var none: bytes := [];
    assert [none][..0] == [] && Escape(none) == [];
    assert Encode([none]) == Encode([]) + [SLASH] + Escape(none);
  }

  // ----- array indices -----

  predicate IsDigit(b: byte) {
    ZERO <= b <= NINE
  }

  predicate AllDigits(t: bytes) {
    forall i :: 0 <= i < |t| ==> IsDigit(t[i])
  }

  function DigitsValue(t: bytes): (n: nat)
    requires AllDigits(t)
  {
    if t == [] then 0 else 10 * DigitsValue(t[..|t| - 1]) + (t[|t| - 1] - ZERO) as nat
  }

  /** An array index token: digits, no leading zero, and it fits. */
  function ParseIndex(t: bytes): Option<nat> {
    if t == [] || (|t| > 1 && t[0] == ZERO) then None
    else if !AllDigits(t) then None
    else
      var n := DigitsValue(t);
      if n <= USIZE_MAX then Some(n) else None
  }

  /** `n` in decimal. */
  function Decimal(n: nat): (t: bytes)
    ensures t != []
  {
    (if n < 10 then [] else Decimal(n / 10)) + [(48 + n % 10) as byte]
  }

  lemma {:induction false} DecimalReads(n: nat)
    ensures AllDigits(Decimal(n)) && DigitsValue(Decimal(n)) == n
    ensures Decimal(n)[0] == ZERO ==> n == 0
    ensures n < 10 ==> |Decimal(n)| == 1
  {
    if n >= 10 {
      DecimalReads(n / 10);
      var t := Decimal(n);
      assert t[..|t| - 1] == Decimal(n / 10);
    }
  }

  /** A canonical digit string is the decimal of its value. */
  lemma {:induction false} DigitsPrint(t: bytes)
    requires t != [] && AllDigits(t) && (|t| > 1 ==> t[0] != ZERO)
    ensures Decimal(DigitsValue(t)) == t
    ensures |t| > 1 ==> DigitsValue(t) >= 10
  {
    var init, d := t[..|t| - 1], (t[|t| - 1] - ZERO) as nat;
    assert init + [t[|t| - 1]] == t;
    if init != [] {
      DigitsPrint(init);
      assert |init| == 1 ==> init[0] != ZERO && DigitsValue(init[..0]) == 0;
      assert DigitsValue(init) >= 1;
      assert DigitsValue(t) / 10 == DigitsValue(init) && DigitsValue(t) % 10 == d;
    }
  }

  /** `parse_index` accepts exactly the decimals of section 4 of RFC 6901 that fit, and inverts them. */
  lemma IndexIsDecimal(t: bytes, n: nat)
    ensures ParseIndex(t) == Some(n) <==> t == Decimal(n) && n <= 18446744073709551615
  {
    hide Decimal, DigitsValue;
    DecimalReads(n);
    if t != [] && AllDigits(t) && (|t| > 1 ==> t[0] != ZERO) {
      DigitsPrint(t);
    }
  }

  // ----- dig paths -----

  /** One element of a dig path: a key, or an Integer. */
  datatype Step = Name(key: bytes) | Index(index: int)

  datatype DigError = OutOfRange

  const I64_MIN: int := -0x8000_0000_0000_0000
  const I64_MAX: int := 0x7FFF_FFFF_FFFF_FFFF

  /** The token a step stands for. */
  function StepToken(s: Step): bytes {
    match s
    case Name(key) => key
    case Index(i) => if i < 0 then [] else Decimal(i)
  }

  /** An Integer that is no array index: negative, or past 64 bits. */
  predicate Bad(s: Step) {
    s.Index? && !(0 <= s.index <= I64_MAX)
  }

  /** The number of steps before the first bad one. */
  function GoodPrefix(path: seq<Step>): (n: nat)
    ensures n <= |path|
    ensures n < |path| ==> path[n].Index? && (path[n].index < 0 || path[n].index > 9223372036854775807)
    ensures forall i :: 0 <= i < n && path[i].Index? ==> 0 <= path[i].index <= 9223372036854775807
  {
    if path == [] || Bad(path[0]) then 0 else 1 + GoodPrefix(path[1..])
  }

  function StepTokens(path: seq<Step>): (ts: seq<bytes>)
    ensures |ts| == |path|
  {
    seq(|path|, i requires 0 <= i < |path| => StepToken(path[i]))
  }

  lemma {:induction false} DecimalEscapesToItself(t: bytes)
    requires AllDigits(t)
    ensures Escape(t) == t
  {
    if t != [] {
      DecimalEscapesToItself(t[1..]);
      assert [t[0]] + t[1..] == t;
    }
  }

  method PushEscapedToken(ptr: bytes, key: bytes) returns (out: bytes)
    ensures out == ptr + [SLASH] + Escape(key)
  {
    out := ptr + [SLASH];
    for i := 0 to |key|
      invariant out + Escape(key[i..]) == ptr + [SLASH] + Escape(key)
    {
      assert key[i..][0] == key[i] && key[i..][1..] == key[i + 1..];
      ghost var was := out;
      if key[i] == TILDE {
        out := out + [TILDE, ZERO];
      } else if key[i] == SLASH {
        out := out + [TILDE, ONE];
      } else {
        out := out + [key[i]];
      }
      assert was + Escape(key[i..]) == out + Escape(key[i + 1..]);
    }
    assert key[|key|..] == [];
  }

  lemma EncodeStep(path: seq<Step>, i: nat)
    requires i < |path|
    ensures Encode(StepTokens(path[..i + 1])) == Encode(StepTokens(path[..i])) + [SLASH] + Escape(StepToken(path[i]))
  {
    hide Escape;
    var ts := StepTokens(path[..i + 1]);
    assert ts[..i] == StepTokens(path[..i]);
  }

  /**
    A path of keys and in-range indices becomes the pointer of its tokens. The first bad
    index ends the walk: negative means no pointer, past 64 bits is an error.
   */
  method PathToPointer(path: seq<Step>) returns (r: Result<Option<bytes>, DigError>)
    ensures GoodPrefix(path) == |path| ==> r == Ok(Some(Encode(StepTokens(path))))
    ensures GoodPrefix(path) < |path| ==>
              r == if -9223372036854775808 <= path[GoodPrefix(path)].index < 0 then Ok(None) else Err(OutOfRange)
  {
    hide Encode, Decimal, Escape, StepToken;
    var ptr: bytes := [];
    assert Encode(StepTokens([])) == [] by { EncodeNil(); }
    for i := 0 to |path|
      invariant GoodPrefix(path) == i + GoodPrefix(path[i..])
      invariant ptr == Encode(StepTokens(path[..i]))
    {
      assert path[i..][0] == path[i] && path[i..][1..] == path[i + 1..];
      EncodeStep(path, i);
      StepText(path[i]);
      match path[i]
      case Index(index) =>
        if index < I64_MIN || index > I64_MAX {
          return Err(OutOfRange);
        }
        if index < 0 {
          return Ok(None);
        }
        ptr := ptr + [SLASH] + Decimal(index);
      case Name(key) =>
        ptr := PushEscapedToken(ptr, key);
    }
    assert path[..|path|] == path;
    r := Ok(Some(ptr));
  }

  lemma EncodeNil()
    ensures Encode(StepTokens([])) == []
  {
  }

  lemma StepText(s: Step)
    ensures s.Name? ==> StepToken(s) == s.key
    ensures s.Index? && s.index >= 0 ==> Escape(StepToken(s)) == Decimal(s.index)
  {
    if s.Index? && s.index >= 0 {
      DecimalReads(s.index);
      DecimalEscapesToItself(Decimal(s.index));
    }
  }
}
