/** Generating lines and walking them undo each other. */
module LineTrip {
  import opened Bytes
  import opened Syntax
  import opened Grammar
  import opened Printer
  import opened Generate
  import opened Lines
  import opened RoundTrip
  import Layout
  import Mended
  import Positions
  import Sinks
  import ValueSinks
  import Walker
  import V = Values

  // ----- no text holds a line break -----

  /** Neither a newline nor a carriage return. */
  predicate Unbroken(t: bytes) {
    LF !in t && CR !in t
  }

  lemma {:induction false} QuotedClean(s: bytes)
    requires QuotedLen(s) == |s|
    ensures Unbroken(s)
  {
    if s != [] && s[0] != QUOTE {
      var k := if s[0] == BACKSLASH then 2 else 1;
      QuotedClean(s[k..]);
      assert s == s[..k] + s[k..];
    }
  }

  lemma StringClean(t: bytes)
    requires IsString(t)
    ensures Unbroken(t) && !IsLineWs(t[0])
  {
    QuotedClean(t[1..]);
    assert t == [t[0]] + t[1..];
  }

  lemma BareClean(t: bytes)
    requires BareText(t)
    ensures Unbroken(t) && !IsLineWs(t[0])
  {
    forall b | b in t
      ensures IsBare(b)
    {
      var i :| 0 <= i < |t| && t[i] == b;
      assert IsBare(t[i]);
    }
    assert IsBare(t[0]);
  }

  ghost predicate Clean(r: Result<bytes, GenFail>) {
    r.Ok? ==> Unbroken(r.value)
  }

  /** Starts with something a blank line does not hold. */
  ghost predicate Shows(t: bytes) {
    t != [] && !IsLineWs(t[0])
  }

  lemma {:induction false} IndentClean(g: Config, n: nat)
    requires !BreaksLineFraming(g)
    ensures Unbroken(Indent(g, n))
  {
    if n > 0 {
      IndentClean(g, n - 1);
    }
  }

  lemma LeadsClean(c: V.Codec, g: Config, k: Printer.Key, i: nat, inner: nat)
    requires !BreaksLineFraming(g) && Escapes(c, g)
    ensures Unbroken(ItemLead(g, i, inner)) && Unbroken(PairLead(g, k, i, inner))
    ensures Unbroken(CloseText(g, g.arrayNl, inner)) && Unbroken(CloseText(g, g.objectNl, inner))
  {
    hide QuotedText, StringLen, Indent;
    IndentClean(g, inner);
    StringClean(QuotedText(g, k.text));
  }

  lemma ScalarClean(c: V.Codec, g: Config, v: Value, depth: nat)
    requires IsScalar(v) && Escapes(c, g) && Spelled(v) && Plain(g, v, depth).Ok?
    ensures Clean(Plain(g, v, depth)) && Shows(Plain(g, v, depth).value)
  {
    hide IntText, QuotedText, StringLen;
    PlainScalar(g, v, depth);
    var t := Plain(g, v, depth).value;
    match v {
      case Str(text) => StringClean(t);
      case Sym(text) => StringClean(t);
      case Fixnum(i) =>
        IntIsBare(i);
        BareClean(t);
      case _ => BareClean(t);
    }
  }

  lemma EnclosedClean(open: byte, r: Result<bytes, GenFail>, close: bytes, end: byte)
    requires Clean(r) && Unbroken(close) && Unbroken([open, end]) && !IsLineWs(open)
    ensures var all := Append(Prepend([open], r), close + [end]); Clean(all) && (all.Ok? ==> Shows(all.value))
  {
  }

  /** With formatting that keeps lines whole, no generated text holds a line break or looks blank. */
  lemma {:induction false} TextClean(c: V.Codec, g: Config, v: Value, depth: nat)
    requires !BreaksLineFraming(g) && Escapes(c, g) && Spelled(v)
    ensures Clean(Plain(g, v, depth)) && (Plain(g, v, depth).Ok? ==> Shows(Plain(g, v, depth).value))
    decreases v, 1
  {
    hide Plain, PlainItems, PlainPairs, CloseText, Append, Prepend, BreaksLineFraming, Escapes, Clean, Shows;
    match v {
      case Array(xs) =>
        PlainArray(g, xs, depth);
        ItemsClean(c, g, xs, 0, depth + 1);
        LeadsClean(c, g, Printer.OtherKey([]), 0, depth);
        EnclosedClean(LBRACKET, PlainItems(g, xs, 0, depth + 1), CloseText(g, g.arrayNl, depth), RBRACKET);
        EmptyClean();
      case Hash(ps) =>
        PlainHash(g, ps, depth);
        PairsClean(c, g, ps, 0, depth + 1);
        LeadsClean(c, g, Printer.OtherKey([]), 0, depth);
        EnclosedClean(LBRACE, PlainPairs(g, ps, 0, depth + 1), CloseText(g, g.objectNl, depth), RBRACE);
        EmptyClean();
      case _ =>
        if Plain(g, v, depth).Ok? {
          ScalarClean(c, g, v, depth);
        }
    }
    FailureClean(Plain(g, v, depth));
  }

  lemma EmptyClean()
    ensures Clean(Ok([LBRACKET, RBRACKET])) && Shows([LBRACKET, RBRACKET])
    ensures Clean(Ok([LBRACE, RBRACE])) && Shows([LBRACE, RBRACE])
    ensures Clean(Ok([]))
  {
  }

  lemma FailureClean(r: Result<bytes, GenFail>)
    ensures r.Err? ==> Clean(r)
  {
  }

  lemma StepClean(lead: bytes, here: Result<bytes, GenFail>, rest: Result<bytes, GenFail>)
    requires Unbroken(lead) && here.Ok? && Clean(here) && Clean(rest)
    ensures Clean(Prepend(lead + here.value, rest))
  {
  }

  lemma {:induction false} ItemsClean(c: V.Codec, g: Config, xs: seq<Value>, i: nat, inner: nat)
    requires !BreaksLineFraming(g) && Escapes(c, g) && i <= |xs| && forall k :: 0 <= k < |xs| ==> Spelled(xs[k])
    ensures Clean(PlainItems(g, xs, i, inner))
    decreases xs, |xs| - i
  {
    hide Plain, PlainItems, ItemLead, Prepend, BreaksLineFraming, Escapes, Clean;
    PlainItemsStep(g, xs, i, inner);
    EmptyClean();
    if i < |xs| {
      TextClean(c, g, xs[i], inner);
      ItemsClean(c, g, xs, i + 1, inner);
      LeadsClean(c, g, Printer.OtherKey([]), i, inner);
      if Plain(g, xs[i], inner).Ok? {
        StepClean(ItemLead(g, i, inner), Plain(g, xs[i], inner), PlainItems(g, xs, i + 1, inner));
      }
    }
  }

  lemma {:induction false} PairsClean(c: V.Codec, g: Config, ps: seq<Pair>, i: nat, inner: nat)
    requires !BreaksLineFraming(g) && Escapes(c, g) && i <= |ps| && forall k :: 0 <= k < |ps| ==> Spelled(ps[k].value)
    ensures Clean(PlainPairs(g, ps, i, inner))
    decreases ps, |ps| - i
  {
    hide Plain, PlainPairs, PairLead, Prepend, BreaksLineFraming, Escapes, Clean, Refuses;
    PlainPairsStep(g, ps, i, inner);
    EmptyClean();
    FailureClean(PlainPairs(g, ps, i, inner));
    if i < |ps| {
      assert ps[i].value < ps[i];
      TextClean(c, g, ps[i].value, inner);
      PairsClean(c, g, ps, i + 1, inner);
      LeadsClean(c, g, ps[i].key, i, inner);
      if Plain(g, ps[i].value, inner).Ok? {
        StepClean(PairLead(g, ps[i].key, i, inner), Plain(g, ps[i].value, inner), PlainPairs(g, ps, i + 1, inner));
      }
    }
  }

  // ----- the check refuses nothing else -----

  const ONE_NIL: Value := Array([Nil])
  const ONE_MEMBER: Value := Hash([Pair(OtherKey([]), Nil)])

  lemma OneNilText(g: Config)
    requires !TooDeep(g, g.startDepth + 1)
    ensures Plain(g, ONE_NIL, g.startDepth).Ok? && Spelled(ONE_NIL)
    ensures exists a, b, d :: Plain(g, ONE_NIL, g.startDepth).value == a + g.arrayNl + g.indent + b + d
  {
    hide Plain, PlainItems, Indent, Layout.Copies;
    var depth := g.startDepth;
    ArrayOk(g, [Nil], depth);
    assert Plain(g, Nil, depth + 1).Ok? by { PlainScalar(g, Nil, depth + 1); }
    Layout.ArrayText(g, [Nil], depth);
    var ts := Layout.ItemTexts(g, [Nil], depth + 1);
    assert ts[1..] == [] && Syntax.Body(ts) == ts[0] + Syntax.Tail([]) == ts[0];
    var more, nil := Layout.Copies(g.indent, depth), Layout.TextAt(g, Nil, depth + 1);
    assert Layout.Copies(g.indent, depth + 1) == g.indent + more by { OneCopy(g.indent, depth); }
    ItemPieces(g.arrayNl, g.indent, more, nil, Layout.LastBreak(g, g.arrayNl, depth));
  }

  lemma OneCopy(t: bytes, n: nat)
    ensures Layout.Copies(t, n + 1) == t + Layout.Copies(t, n)
  {
  }

  lemma ItemPieces(nl: bytes, indent: bytes, more: bytes, nil: bytes, last: bytes)
    ensures Ascii("[") + (nl + (indent + more) + nil) + last + Ascii("]") == Ascii("[") + nl + indent + (more + nil) + (last + Ascii("]"))
  {
  }

  lemma OneMemberText(g: Config)
    requires !TooDeep(g, g.startDepth + 1)
    ensures Plain(g, ONE_MEMBER, g.startDepth).Ok? && Spelled(ONE_MEMBER)
    ensures exists a, b, d, e :: Plain(g, ONE_MEMBER, g.startDepth).value == a + g.objectNl + b + g.spaceBefore + d + g.space + e
  {
    hide Plain, PlainPairs, Indent, Layout.Copies;
    var depth, ps := g.startDepth, [Pair(OtherKey([]), Nil)];
    assert !Refuses(g, ps, 0);
    HashOk(g, ps, depth);
    assert Plain(g, Nil, depth + 1).Ok? by { PlainScalar(g, Nil, depth + 1); }
    Layout.HashText(g, ps, depth);
    var ts := Layout.PairTexts(g, ps, depth + 1);
    assert ts[1..] == [] && Syntax.Body(ts) == ts[0] + Syntax.Tail([]) == ts[0];
    var quoted := Ascii("\"") + g.escape(g.mode, []) + Ascii("\"");
    MemberPieces(g.objectNl, Layout.Copies(g.indent, depth + 1), quoted, g.spaceBefore, g.space,
                 Layout.TextAt(g, Nil, depth + 1), Layout.LastBreak(g, g.objectNl, depth));
  }

  lemma MemberPieces(nl: bytes, indents: bytes, quoted: bytes, before: bytes, space: bytes, nil: bytes, last: bytes)
    ensures Ascii("{") + (nl + indents + quoted + before + Ascii(":") + space + nil) + last + Ascii("}") ==
            Ascii("{") + nl + (indents + quoted) + before + Ascii(":") + space + (nil + last + Ascii("}"))
  {
  }

  /** Some value that can be generated has a line break in its text. */
  ghost predicate SomeTextBreaks(g: Config) {
    exists v :: Spelled(v) && Plain(g, v, g.startDepth).Ok? && !Unbroken(Plain(g, v, g.startDepth).value)
  }

  /** The check refuses exactly the formatting that would break some value's line, as soon as containers can be written. */
  lemma FramingCheckExact(c: V.Codec, g: Config)
    requires Escapes(c, g)
    ensures SomeTextBreaks(g) <==> BreaksLineFraming(g) && (g.maxNesting == 0 || g.startDepth < g.maxNesting)
  {
    hide Plain, Escapes, Spelled;
    if TooDeep(g, g.startDepth + 1) {
      forall v | Spelled(v) && Plain(g, v, g.startDepth).Ok?
        ensures Unbroken(Plain(g, v, g.startDepth).value)
      {
        OnlyScalarsFit(g, v);
        ScalarClean(c, g, v, g.startDepth);
      }
    } else if !BreaksLineFraming(g) {
      forall v | Spelled(v)
        ensures Clean(Plain(g, v, g.startDepth))
      {
        TextClean(c, g, v, g.startDepth);
      }
    } else {
      OneNilText(g);
      OneMemberText(g);
      assert !Unbroken(Plain(g, ONE_NIL, g.startDepth).value) || !Unbroken(Plain(g, ONE_MEMBER, g.startDepth).value);
    }
  }

  lemma OnlyScalarsFit(g: Config, v: Value)
    requires TooDeep(g, g.startDepth + 1) && Plain(g, v, g.startDepth).Ok?
    ensures IsScalar(v)
  {
  }

  // ----- splitting undoes joining -----

  lemma {:induction false} UnlinesCons(t: bytes, ts: seq<bytes>)
    ensures Unlines([t] + ts) == t + [LF] + Unlines(ts)
  {
    if ts == [] {
      assert [t] + ts == [t] && [t][..0] == [];
      assert t + [LF] + [] == t + [LF] && [] + t + [LF] == t + [LF];
    } else {
      var init, last := ts[..|ts| - 1], ts[|ts| - 1];
      assert ([t] + ts)[..|ts|] == [t] + init;
      UnlinesCons(t, init);
      assert t + [LF] + Unlines(init) + last + [LF] == t + [LF] + (Unlines(init) + last + [LF]);
    }
  }

  /** A newline-free stretch followed by a newline is one line. */
  lemma {:induction false} EndOfLine(s: bytes, pos: nat, t: bytes)
    requires pos + |t| < |s| && s[pos..pos + |t|] == t && LF !in t && s[pos + |t|] == LF
    ensures Positions.LineEnd(s, pos) == pos + |t|
    decreases |t|
  {
    if t != [] {
      assert s[pos] == t[0];
      assert s[pos + 1..pos + |t|] == t[1..];
      EndOfLine(s, pos + 1, t[1..]);
    }
  }

  /** Lines joined by newlines split back into themselves, numbered in order. */
  lemma {:induction false} SplitUnlines(s: bytes, pos: nat, number: nat, ts: seq<bytes>)
    requires pos <= |s| && s[pos..] == Unlines(ts)
    requires forall i :: 0 <= i < |ts| ==> LF !in ts[i]
    ensures var ls := LinesFrom(s, pos, number);
            |ls| == |ts| && forall i :: 0 <= i < |ts| ==> ls[i].text == ts[i] && ls[i].number == number + i
    decreases |ts|
  {
    hide Unlines, LinesFrom, Positions.LineEnd;
    if ts == [] {
      assert Unlines([]) == [] by { NoTexts(); }
      NoLines(s, pos, number);
    } else {
      assert ts == [ts[0]] + ts[1..];
      UnlinesCons(ts[0], ts[1..]);
      var t, rest := ts[0], Unlines(ts[1..]);
      assert s[pos..] == t + [LF] + rest;
      assert s[pos..][..|t|] == t && s[pos..][|t|] == LF && s[pos..][|t| + 1..] == rest;
      assert s[pos..pos + |t|] == t && s[pos + |t|] == LF && s[pos + |t| + 1..] == rest;
      EndOfLine(s, pos, t);
      LinesStep(s, pos, number);
      SplitUnlines(s, pos + |t| + 1, number + 1, ts[1..]);
    }
  }

  lemma NoTexts()
    ensures Unlines([]) == []
  {
  }

  lemma {:induction false} AllDocuments(ls: seq<Line>)
    requires forall l :: l in ls ==> !Blank(l.text)
    ensures Documents(ls) == ls
  {
    if ls != [] {
      AllDocuments(ls[1..]);
      assert ls == [ls[0]] + ls[1..];
    }
  }

  lemma ShowsNotBlank(t: bytes)
    requires Shows(t)
    ensures !Blank(t)
  {
    assert !IsLineWs(t[0]);
  }

  ghost function Walked(text: bytes): seq<Line> {
    DocumentsFrom(text, 0, 1)
  }

  /**
    Framing is exact whenever the options are accepted, even with formatting that is not
    whitespace: the walk sees one document per value, holding that value's text, on the line
    with that value's number.
   */
  lemma FramingExact(c: V.Codec, g: Config, vs: seq<Value>)
    requires !BreaksLineFraming(g) && Escapes(c, g) && PlainAll(g, vs).Ok?
    requires forall i :: 0 <= i < |vs| ==> Spelled(vs[i])
    ensures var docs := Walked(Unlines(PlainAll(g, vs).value));
            && |docs| == |vs|
            && forall i :: 0 <= i < |vs| ==> Ok(docs[i].text) == Plain(g, vs[i], g.startDepth) && docs[i].number == i + 1
  {
    hide Plain, PlainAll, Unlines, LinesFrom, BreaksLineFraming, Escapes, Spelled, Shows, Blank, Documents;
    var ts := PlainAll(g, vs).value;
    forall i | 0 <= i < |vs|
      ensures Ok(ts[i]) == Plain(g, vs[i], g.startDepth) && Unbroken(ts[i]) && !Blank(ts[i])
    {
      PlainAllAt(g, vs, i);
      TextClean(c, g, vs[i], g.startDepth);
      ShowsNotBlank(ts[i]);
    }
    var s := Unlines(ts);
    assert s[0..] == s;
    SplitUnlines(s, 0, 1, ts);
    AllDocuments(LinesFrom(s, 0, 1));
  }

  // ----- the round trip -----

  /** What a generated text parses to: its value, unless it nests too deep or repeats a key. */
  lemma TextResult(c: V.Codec, g: Config, scalar: Value -> bytes, v: Value, depth: nat, maxNesting: nat, allow: bool)
    requires Kernels(c, g, scalar) && Spelled(v) && Plain(g, v, depth).Ok?
    ensures var r := LineResult(c, Plain(g, v, depth).value, maxNesting, allow);
            && (r.Ok? <==> Within(v, maxNesting) && (allow || NoRepeats(v)))
            && (r.Ok? ==> r.value == Meaning(scalar, v))
  {
    hide Plain, ParseDoc, V.ValueOf, V.Unique, V.Depth, Meaning, Within, NoRepeats, Kernels, Spelled, Sinks.TextOutcome, ValueSinks.RefusedRepeat, Mended.ReadRoot;
    GenerateParses(c, g, scalar, v, depth);
    Mended.ReadRootIs(Plain(g, v, depth).value);
    ValueSinks.DriveAccepts(c, Plain(g, v, depth).value, maxNesting, allow);
  }

  /**
    Walking inverts generating: with whitespace formatting that keeps lines whole, every
    value is read back from its own line, unless it nests deeper than the parse allows or
    has a Hash with two keys that render alike.
   */
  lemma WalkInvertsGenerate(c: V.Codec, g: Config, scalar: Value -> bytes, vs: seq<Value>, maxNesting: nat, allow: bool)
    requires !BreaksLineFraming(g) && Kernels(c, g, scalar) && PlainAll(g, vs).Ok?
    requires forall i :: 0 <= i < |vs| ==> Spelled(vs[i])
    ensures var docs := Walked(Unlines(PlainAll(g, vs).value));
            && |docs| == |vs|
            && forall i :: 0 <= i < |vs| ==>
                 var r := LineResult(c, docs[i].text, maxNesting, allow);
                 && docs[i].number == i + 1
                 && (r.Ok? <==> Within(vs[i], maxNesting) && (allow || NoRepeats(vs[i])))
                 && (r.Ok? ==> r.value == Meaning(scalar, vs[i]))
  {
    hide Plain, PlainAll, Unlines, Walked, BreaksLineFraming, Escapes, WsFormat, Reads, Spelled, LineResult, Meaning, Within, NoRepeats;
    FramingExact(c, g, vs);
    forall i | 0 <= i < |vs|
      ensures var r := LineResult(c, Walked(Unlines(PlainAll(g, vs).value))[i].text, maxNesting, allow);
              && (r.Ok? <==> Within(vs[i], maxNesting) && (allow || NoRepeats(vs[i])))
              && (r.Ok? ==> r.value == Meaning(scalar, vs[i]))
    {
      PlainAllAt(g, vs, i);
      TextResult(c, g, scalar, vs[i], g.startDepth, maxNesting, allow);
    }
  }

  /**
    With both limits on and neither side allowing repeated keys, String and Symbol keys are
    enough for everything generated to be read back.
   */
  lemma StrictTrip(c: V.Codec, g: Config, scalar: Value -> bytes, v: Value, maxNesting: nat, allow: bool)
    requires Kernels(c, g, scalar) && Spelled(v) && PlainKeys(v)
    requires !g.allowDuplicateKey && 0 < g.maxNesting <= maxNesting + g.startDepth
    requires Plain(g, v, g.startDepth).Ok?
    ensures LineResult(c, Plain(g, v, g.startDepth).value, maxNesting, allow) == Ok(Meaning(scalar, v))
  {
    hide Plain, Kernels, Spelled, PlainKeys, Meaning, Within, NoRepeats, LineResult, Emittable;
    TextResult(c, g, scalar, v, g.startDepth, maxNesting, allow);
    GenerateAccepts(g, v, g.startDepth);
    WithinMore(v, g.maxNesting - g.startDepth, maxNesting);
    GeneratedHasNoRepeats(g, v);
  }

  /** The framing check asks for no newlines, not for whitespace: some formats it accepts give lines that do not parse. */
  lemma AcceptedFormatMayNotParse(g: Config)
    requires g.arrayNl == [COMMA] && g.indent == [] && g.space == [] && g.spaceBefore == [] && g.objectNl == [] && g.maxNesting == 0
    ensures !BreaksLineFraming(g)
    ensures Plain(g, Array([Nil]), 0) == Ok([LBRACKET, COMMA] + NULL_TEXT + [COMMA, RBRACKET])
    ensures ParseDoc([LBRACKET, COMMA] + NULL_TEXT + [COMMA, RBRACKET]).None?
  {
    var t := [LBRACKET, COMMA] + NULL_TEXT + [COMMA, RBRACKET];
    PlainArray(g, [Nil], 0);
    PlainItemsStep(g, [Nil], 0, 1);
    PlainItemsStep(g, [Nil], 1, 1);
    PlainScalar(g, Nil, 1);
    Walker.NoIndent(g, 0);
    Walker.NoIndent(g, 1);
    assert [LBRACKET] + (([] + [COMMA] + [] + NULL_TEXT) + []) + ([COMMA] + [] + [RBRACKET]) == t;
    assert t[0..] == t && t[1..][0..] == t[1..] && t[1] == COMMA;
    assert TokenLen(t[1..]) == 0;
    assert ParseNode(t[1..]).Fail?;
    assert ParseEntry(false, t[1..]).Fail?;
    assert ParseEntries(false, t[1..]).Fail?;
    assert ParseNode(t).Fail?;
  }
}
