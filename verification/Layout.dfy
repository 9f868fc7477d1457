/**
  What generated text looks like: the names and integers a scalar is spelled with, and where
  the formatting strings stand in a container.
 */
module Layout {
  import opened Bytes
  import opened Printer
  import Pointer
  import Syntax

  // ----- names -----

  /** Section 3 of RFC 8259: the three literal names; JSON has none for non-finite floats. */
  lemma LiteralNames(g: Config, depth: nat)
    ensures Plain(g, Nil, depth) == Ok(Ascii("null"))
    ensures Plain(g, Bool(true), depth) == Ok(Ascii("true"))
    ensures Plain(g, Bool(false), depth) == Ok(Ascii("false"))
  {
    assert NULL_TEXT == Ascii("null");
    assert TRUE_TEXT == Ascii("true");
    assert FALSE_TEXT == Ascii("false");
  }

  /** A float is written as it is spelled; one that is not finite by its name, as null, or not at all. */
  lemma FloatNames(g: Config, f: Float, depth: nat)
    ensures Plain(g, Flonum(f), depth) == Plain(g, HeapFloat(f), depth)
    ensures f.Finite? ==> Plain(g, Flonum(f), depth) == Ok(f.text)
    ensures !f.Finite? && g.rails ==> Plain(g, Flonum(f), depth) == Ok(Ascii("null"))
    ensures !f.Finite? && !g.rails && !g.allowNan ==> Plain(g, Flonum(f), depth) == Err(NotAllowed(f))
    ensures !g.rails && g.allowNan ==>
              && (f == NotANumber ==> Plain(g, Flonum(f), depth) == Ok(Ascii("NaN")))
              && (f == Infinite(false) ==> Plain(g, Flonum(f), depth) == Ok(Ascii("Infinity")))
              && (f == Infinite(true) ==> Plain(g, Flonum(f), depth) == Ok(Ascii("-Infinity")))
  {
    assert NULL_TEXT == Ascii("null") && NAN_TEXT == Ascii("NaN");
    assert [DASH] + INFINITY_TEXT == Ascii("-Infinity");
    assert [] + INFINITY_TEXT == Ascii("Infinity");
  }

  // ----- integers -----

  /** The integers of section 6 of RFC 8259: a minus or none, and digits without a leading zero. */
  predicate IsInt(t: bytes) {
    if t != [] && t[0] == Ascii("-")[0] then IsDigits(t[1..]) && t[1..] != Ascii("0")
    else IsDigits(t)
  }

  predicate IsDigits(t: bytes) {
    && t != []
    && (forall i :: 0 <= i < |t| ==> 48 <= t[i] <= 57)
    && (|t| > 1 ==> t[0] != 48)
  }

  /** Place value, from the left. */
  function DigitsFrom(t: bytes, n: nat): nat
    requires forall i :: 0 <= i < |t| ==> 48 <= t[i] <= 57
  {
    if t == [] then n else DigitsFrom(t[1..], 10 * n + (t[0] - 48) as nat)
  }

  function ReadInt(t: bytes): int
    requires IsInt(t)
  {
    (if t[0] == 45 then -1 else 1) * DigitsFrom(if t[0] == 45 then t[1..] else t, 0)
  }

  lemma {:induction false} DigitsLast(t: bytes, d: byte, n: nat)
    requires forall i :: 0 <= i < |t| ==> 48 <= t[i] <= 57
    requires 48 <= d <= 57
    ensures DigitsFrom(t + [d], n) == 10 * DigitsFrom(t, n) + (d - 48) as nat
  {
    if t == [] {
      assert [d][1..] == [];
    } else {
      assert (t + [d])[1..] == t[1..] + [d];
      DigitsLast(t[1..], d, 10 * n + (t[0] - 48) as nat);
    }
  }

  lemma {:induction false} DecimalDigits(n: nat)
    ensures IsDigits(Pointer.Decimal(n)) && DigitsFrom(Pointer.Decimal(n), 0) == n
    ensures n > 0 ==> Pointer.Decimal(n)[0] != 48
  {
    var d := (48 + n % 10) as byte;
    var init := if n < 10 then [] else Pointer.Decimal(n / 10);
    if n >= 10 {
      DecimalDigits(n / 10);
    }
    DigitsLast(init, d, 0);
  }

  /** Every integer is written as one that reads back as it; so no two are written alike. */
  lemma IntReads(i: int)
    ensures IsInt(IntText(i)) && ReadInt(IntText(i)) == i
  {
    var n := if i < 0 then -i else i;
    DecimalDigits(n);
    var t := Pointer.Decimal(n);
    assert ([DASH] + t)[1..] == t;
    assert Ascii("0") == [48];
  }

  lemma IntsApart(i: int, j: int)
    ensures IntText(i) == IntText(j) ==> i == j
  {
    hide ReadInt, IntText, IsInt;
    IntReads(i);
    IntReads(j);
  }

  // ----- containers -----

  /** `n` copies of `t`. */
  function Copies(t: bytes, n: nat): bytes {
    if n == 0 then [] else t + Copies(t, n - 1)
  }

  lemma {:induction false} CopiesLength(t: bytes, n: nat)
    ensures |Copies(t, n)| == n * |t|
  {
    if n > 0 {
      CopiesLength(t, n - 1);
      assert n * |t| == |t| + (n - 1) * |t|;
    }
  }

  lemma {:induction false} CopiesLast(t: bytes, n: nat)
    ensures Copies(t, n) + t == t + Copies(t, n)
  {
    if n > 0 {
      CopiesLast(t, n - 1);
      assert t + Copies(t, n - 1) + t == t + (Copies(t, n - 1) + t);
    }
  }

  /** The indent at depth `n` is exactly `n` copies of the string: nothing at depth 0. */
  lemma {:induction false} IndentIsCopies(g: Config, n: nat)
    ensures Indent(g, n) == Copies(g.indent, n) && |Indent(g, n)| == n * |g.indent|
  {
    CopiesLength(g.indent, n);
    if n > 0 {
      IndentIsCopies(g, n - 1);
      CopiesLast(g.indent, n - 1);
    }
  }

  ghost function TextAt(g: Config, v: Value, depth: nat): bytes {
    if Plain(g, v, depth).Ok? then Plain(g, v, depth).value else []
  }

  /** An element: the array break, one indent per level, and the element's text. */
  ghost function ItemTexts(g: Config, xs: seq<Value>, inner: nat): (ts: seq<bytes>)
    ensures |ts| == |xs|
  {
    seq(|xs|, i requires 0 <= i < |xs| => g.arrayNl + Copies(g.indent, inner) + TextAt(g, xs[i], inner))
  }

  /** A member: the object break, one indent per level, and the key, `space_before`, colon, `space` and the value. */
  ghost function PairTexts(g: Config, ps: seq<Pair>, inner: nat): (ts: seq<bytes>)
    ensures |ts| == |ps|
  {
    seq(|ps|, i requires 0 <= i < |ps| =>
      g.objectNl + Copies(g.indent, inner)
      + (Ascii("\"") + g.escape(g.mode, ps[i].key.text) + Ascii("\""))
      + g.spaceBefore + Ascii(":") + g.space + TextAt(g, ps[i].value, inner))
  }

  /** Before the closing bracket: the break, if there is one, and the container's own indent. */
  ghost function LastBreak(g: Config, nl: bytes, depth: nat): bytes {
    if nl == [] then [] else nl + Copies(g.indent, depth)
  }

  /** An array's text: its elements joined by commas, each on its own line and level. */
  lemma ArrayText(g: Config, xs: seq<Value>, depth: nat)
    requires Plain(g, Array(xs), depth).Ok?
    ensures xs == [] ==> Plain(g, Array(xs), depth).value == Ascii("[]")
    ensures xs != [] ==>
              Plain(g, Array(xs), depth).value ==
              Ascii("[") + Syntax.Body(ItemTexts(g, xs, depth + 1)) + LastBreak(g, g.arrayNl, depth) + Ascii("]")
  {
    hide Plain, PlainItems, Indent, Copies, Syntax.Body, ItemTexts;
    PlainArray(g, xs, depth);
    IndentIsCopies(g, depth);
    assert Ascii("[]") == [LBRACKET, RBRACKET] && Ascii("[") == [LBRACKET] && Ascii("]") == [RBRACKET];
    if xs != [] {
      ItemsText(g, xs, 0, depth + 1);
      BodyIsJoined(ItemTexts(g, xs, depth + 1));
    }
  }

  /** Texts from `i` on, each after a comma unless it is the first. */
  ghost function JoinedFrom(ts: seq<bytes>, i: nat): bytes
    requires i <= |ts|
    decreases |ts| - i
  {
    if i == |ts| then [] else (if i > 0 then [COMMA] else []) + ts[i] + JoinedFrom(ts, i + 1)
  }

  lemma {:induction false} TailIsJoined(ts: seq<bytes>, i: nat)
    requires 0 < i <= |ts|
    ensures JoinedFrom(ts, i) == Syntax.Tail(ts[i..])
    decreases |ts| - i
  {
    if i < |ts| {
      TailIsJoined(ts, i + 1);
      assert ts[i..][1..] == ts[i + 1..];
    }
  }

  lemma BodyIsJoined(ts: seq<bytes>)
    requires ts != []
    ensures JoinedFrom(ts, 0) == Syntax.Body(ts)
  {
    TailIsJoined(ts, 1);
  }

  lemma {:induction false} ItemsText(g: Config, xs: seq<Value>, i: nat, inner: nat)
    requires i <= |xs| && PlainItems(g, xs, i, inner).Ok?
    ensures PlainItems(g, xs, i, inner).value == JoinedFrom(ItemTexts(g, xs, inner), i)
    decreases |xs| - i
  {
    hide Plain, PlainItems, Indent, Copies;
    PlainItemsStep(g, xs, i, inner);
    IndentIsCopies(g, inner);
    if i < |xs| {
      ItemsText(g, xs, i + 1, inner);
      var lead := if i > 0 then [COMMA] else [];
      var rest := g.arrayNl + Copies(g.indent, inner) + TextAt(g, xs[i], inner);
      assert lead + g.arrayNl + Copies(g.indent, inner) + TextAt(g, xs[i], inner) == lead + rest;
    }
  }

  /** A Hash's text: its members joined by commas, each on its own line and level. */
  lemma HashText(g: Config, ps: seq<Pair>, depth: nat)
    requires Plain(g, Hash(ps), depth).Ok?
    ensures ps == [] ==> Plain(g, Hash(ps), depth).value == Ascii("{}")
    ensures ps != [] ==>
              Plain(g, Hash(ps), depth).value ==
              Ascii("{") + Syntax.Body(PairTexts(g, ps, depth + 1)) + LastBreak(g, g.objectNl, depth) + Ascii("}")
  {
    hide Plain, PlainPairs, Indent, Copies, Syntax.Body, PairTexts;
    PlainHash(g, ps, depth);
    IndentIsCopies(g, depth);
    assert Ascii("{}") == [LBRACE, RBRACE] && Ascii("{") == [LBRACE] && Ascii("}") == [RBRACE];
    if ps != [] {
      PairsText(g, ps, 0, depth + 1);
      BodyIsJoined(PairTexts(g, ps, depth + 1));
    }
  }

  lemma {:induction false} PairsText(g: Config, ps: seq<Pair>, i: nat, inner: nat)
    requires i <= |ps| && PlainPairs(g, ps, i, inner).Ok?
    ensures PlainPairs(g, ps, i, inner).value == JoinedFrom(PairTexts(g, ps, inner), i)
    decreases |ps| - i
  {
    hide Plain, PlainPairs, Indent, Copies, Refuses;
    PlainPairsStep(g, ps, i, inner);
    IndentIsCopies(g, inner);
    if i < |ps| {
      PairsText(g, ps, i + 1, inner);
      var lead: bytes := if i > 0 then [COMMA] else [];
      var quoted := Ascii("\"") + g.escape(g.mode, ps[i].key.text) + Ascii("\"");
      assert QuotedText(g, ps[i].key.text) == quoted && Ascii(":") == [COLON];
      PairPieces(lead, g.objectNl, Copies(g.indent, inner), quoted, g.spaceBefore, [COLON], g.space, TextAt(g, ps[i].value, inner));
    }
  }

  lemma PairPieces(a: bytes, b: bytes, c: bytes, d: bytes, e: bytes, f: bytes, h: bytes, t: bytes)
    ensures (a + b + c + d + e + f + h) + t == a + (b + c + d + e + f + h + t)
  {
  }
}
