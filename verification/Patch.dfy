/** RFC 6902 over raw documents: ext/nosj/src/patch.rs without `splice_native`. */
module Patch {
  import opened Bytes
  import opened Syntax
  import opened Values
  import opened Tree
  import opened Entries
  import opened Edits
  import opened Grammar
  import opened Mended
  import opened PullReader
  import opened Pointer

  datatype Fault = PatchFault | ArgumentFault | ParserFault | GeneratorFault | NestingFault

  /** The nesting limit of a default parse, which `test` materializes under. */
  const MAX_NESTING: nat := 100

  /** An operation's value: what it is, and the text the generator emits for it, if it does. */
  datatype Operand = Operand(value: Value, text: Option<bytes>)

  /** Generated text reads back as the value, with no whitespace around it. */
  ghost predicate Generated(c: Codec, x: Operand) {
    x.text.Some? ==>
      && Good(c, x.text.value)
      && DocValue(c, x.text.value) == x.value
      && ParseDoc(x.text.value).value.lead == [] && ParseDoc(x.text.value).value.trail == []
  }

  /** What goes into the document at a splice point. */
  datatype Insert = Given(operand: Operand) | Owned(text: bytes) | Nothing

  function Rendered(x: Insert): Option<bytes> {
    match x
    case Given(operand) => operand.text
    case Owned(text) => Some(text)
    case Nothing => Some([])
  }

  /** The insertion is the text of node `v`, or is refused by the generator. */
  ghost predicate Supplies(c: Codec, x: Insert, v: Node) {
    && Wf(v) && Unique(c, v)
    && (Rendered(x).Some? ==> Rendered(x).value == Print(v))
  }

  // ----- locating -----

  /** The byte span of the value a pointer resolves to. */
  function SpanAt(c: Codec, doc: bytes, ptr: bytes): Result<Option<(nat, nat)>, Fault> {
    var toks := Tokens(ptr);
    if toks.None? then Err(ArgumentFault)
    else if ParseDoc(doc).None? then Err(ParserFault)
    else
      var p := PathOf(c, RootOf(doc), toks.value);
      if p.None? then Ok(None)
      else
        PathOfValid(c, RootOf(doc), toks.value);
        var start := StartOf(doc, p.value);
        Ok(Some((start, start + |Print(At(RootOf(doc), p.value))|)))
  }

  /** A resolved pointer's span holds the text of the value it resolves to. */
  lemma SpanHolds(c: Codec, doc: bytes, ptr: bytes)
    requires Good(c, doc)
    ensures Tokens(ptr).None? <==> SpanAt(c, doc, ptr).Err?
    ensures SpanAt(c, doc, ptr).Err? ==> SpanAt(c, doc, ptr) == Err(ArgumentFault)
    ensures SpanAt(c, doc, ptr) == Ok(None) ==> Resolve(DocValue(c, doc), Tokens(ptr).value).None?
    ensures SpanAt(c, doc, ptr).Ok? && SpanAt(c, doc, ptr).value.Some? ==>
              var (s, e) := SpanAt(c, doc, ptr).value.value;
              var p := PathOf(c, RootOf(doc), Tokens(ptr).value);
              && p.Some? && ValidPath(RootOf(doc), p.value)
              && var n := At(RootOf(doc), p.value);
              && s == StartOf(doc, p.value) && e == s + |Print(n)| <= |doc|
              && doc[s..e] == Print(n) && Wf(n) && Unique(c, n)
              && Resolve(DocValue(c, doc), Tokens(ptr).value) == Some(ValueOf(c, n))
  {
    hide ParseDoc, Wf, Unique, Print, PathOf, At, ValueOf, Resolve, Tokens, Left;
    var toks := Tokens(ptr);
    if toks.Some? {
      GoodRoot(c, doc);
      ResolveMatches(c, RootOf(doc), toks.value);
      if PathOf(c, RootOf(doc), toks.value).Some? {
        NodeSpan(c, doc, PathOf(c, RootOf(doc), toks.value).value);
      }
    }
  }

  /** One direct child of a container: its decoded key, in objects, and its value's span. */
  datatype ChildSpan = ChildSpan(key: Option<bytes>, start: nat, end: nat)

  function SpanOf(c: Codec, n: Node, off: nat, i: nat): ChildSpan
    requires n.Group? && i < |n.entries|
  {
    ChildSpan(if n.obj then Some(KeyOf(c, n.entries[i])) else None, off + |LeftOf(n, i)|, off + |Through(n, i)|)
  }

  function SpansOf(c: Codec, n: Node, off: nat): (spans: seq<ChildSpan>)
    requires n.Group?
    ensures |spans| == |n.entries|
  {
    seq(|n.entries|, i requires 0 <= i < |n.entries| => SpanOf(c, n, off, i))
  }

  /** These are the first children. */
  ghost predicate Spanned(c: Codec, n: Node, off: nat, out: seq<ChildSpan>)
    requires n.Group?
  {
    |out| <= |n.entries| && out == SpansOf(c, n, off)[..|out|]
  }

  lemma SpannedNone(c: Codec, n: Node, off: nat)
    requires n.Group?
    ensures Spanned(c, n, off, [])
  {
  }

  lemma SpannedNext(c: Codec, n: Node, off: nat, out: seq<ChildSpan>, span: ChildSpan)
    requires n.Group? && Spanned(c, n, off, out) && |out| < |n.entries|
    requires span.start == off + |LeftOf(n, |out|)| && span.end == span.start + |Print(n.entries[|out|].value)|
    requires span.key == if n.obj then Some(KeyOf(c, n.entries[|out|])) else None
    ensures Spanned(c, n, off, out + [span])
  {
    hide LeftOf, KeyOf, Print;
    assert SpanOf(c, n, off, |out|) == span;
  }

  lemma SpannedAll(c: Codec, n: Node, off: nat, out: seq<ChildSpan>)
    requires n.Group? && Spanned(c, n, off, out) && |out| == |n.entries|
    ensures out == SpansOf(c, n, off)
  {
    hide SpanOf;
  }

  lemma HoleFreeChild(n: Node, i: nat)
    requires n.Group? && NoHole(n) && i < |n.entries|
    ensures NoHole(n.entries[i].value)
  {
  }

  /** Walk an object's members from the first key on. */
  method ObjectChildren(c: Codec, reader: Reader, start: nat, ghost n: Node) returns (out: seq<ChildSpan>)
    requires n.Group? && n.obj && NoHole(n) && reader.rest == RestTokens(c, n, 0, 0)
    modifies reader
    ensures out == SpansOf(c, n, start)
  {
    hide *;
    out := [];
    SpannedNone(c, n, start);
    FirstTokens(c, n, 0);
    var key := reader.ObjectKey();
    while key.Some?
      invariant Spanned(c, n, start, out) && |out| <= |n.entries|
      invariant key.Some? ==>
                  && |out| < |n.entries| && key.value == KeyOf(c, n.entries[|out|])
                  && reader.rest == NodeTokens(c, n.entries[|out|].value, |LeftOf(n, |out|)|) + RestTokens(c, n, |out| + 1, 0)
      invariant key.None? ==> |out| == |n.entries|
      decreases |n.entries| - |out|, key.Some?
    {
      ghost var i := |out|;
      HoleFreeChild(n, i);
      var s, e := reader.SkipValue(c, n.entries[i].value, |LeftOf(n, i)|, RestTokens(c, n, i + 1, 0));
      var span := ChildSpan(key, start + s, start + e);
      SpannedNext(c, n, start, out, span);
      out := out + [span];
      FirstTokens(c, n, i + 1);
      key := reader.ObjectKey();
    }
    SpannedAll(c, n, start, out);
  }

  /** Walk an array's elements. */
  method ArrayChildren(c: Codec, reader: Reader, start: nat, ghost n: Node) returns (out: seq<ChildSpan>)
    requires n.Group? && !n.obj && NoHole(n) && reader.rest == RestTokens(c, n, 0, 0)
    modifies reader
    ensures out == SpansOf(c, n, start)
  {
    hide *;
    out := [];
    SpannedNone(c, n, start);
    FirstTokens(c, n, 0);
    var has := reader.ArrayMore();
    while has
      invariant Spanned(c, n, start, out) && |out| <= |n.entries|
      invariant has ==>
                  && |out| < |n.entries|
                  && reader.rest == NodeTokens(c, n.entries[|out|].value, |LeftOf(n, |out|)|) + RestTokens(c, n, |out| + 1, 0)
      invariant !has ==> |out| == |n.entries|
      decreases |n.entries| - |out|, has
    {
      ghost var i := |out|;
      HoleFreeChild(n, i);
      var s, e := reader.SkipValue(c, n.entries[i].value, |LeftOf(n, i)|, RestTokens(c, n, i + 1, 0));
      var span := ChildSpan(None, start + s, start + e);
      SpannedNext(c, n, start, out, span);
      out := out + [span];
      FirstTokens(c, n, i + 1);
      has := reader.ArrayMore();
    }
    SpannedAll(c, n, start, out);
  }

  /** Walk a container's span, collecting its children; a scalar has none to walk. */
  method ContainerChildren(c: Codec, doc: bytes, start: nat, end: nat, ghost n: Node)
    returns (r: Result<(bool, seq<ChildSpan>), Fault>)
    requires start <= end <= |doc| && doc[start..end] == Print(n) && Wf(n) && Unique(c, n)
    ensures n.Leaf? ==> r == Err(ParserFault)
    ensures n.Group? ==> r == Ok((n.obj, SpansOf(c, n, start)))
  {
    hide ParseDoc, Wf, Unique, Print, NodeTokens, RestTokens, LeftOf, KeyOf, SpansOf, NoHole, ReadRoot;
    var span := doc[start..end];
    WholeDoc(c, doc, n);
    ReadRootIs(span);
    FirstByte(n);
    var kind := span[0];
    var reader := new Reader(c, span);
    if n.Leaf? {
      NodeTokensLeaf(c, n, 0);
    } else {
      NodeTokensGroup(c, n, 0);
    }
    var first := reader.NextNode();
    if first.None? {
      return Err(ParserFault);
    }
    var out: seq<ChildSpan> := [];
    if kind == LBRACE {
      out := ObjectChildren(c, reader, start, n);
    } else {
      if first.value.Scalar? {
        return Err(ParserFault);
      }
      out := ArrayChildren(c, reader, start, n);
    }
    r := Ok((kind == LBRACE, out));
  }

  /** How the rest of a group's tokens begins. */
  lemma FirstTokens(c: Codec, n: Node, i: nat)
    requires n.Group? && i <= |n.entries|
    ensures var rest := RestTokens(c, n, i, 0);
            && rest != []
            && (i == |n.entries| ==> rest == [Close(|Print(n)|)])
            && (i < |n.entries| ==>
                  var value := NodeTokens(c, n.entries[i].value, |LeftOf(n, i)|);
                  && !rest[0].Close?
                  && (n.obj ==> rest[0] == Token.Name(KeyOf(c, n.entries[i])) && rest[1..] == value + RestTokens(c, n, i + 1, 0))
                  && (!n.obj ==> rest == value + RestTokens(c, n, i + 1, 0)))
  {
    hide NodeTokens, RestTokens, LeftOf, KeyOf, Print;
    if i == |n.entries| {
      RestTokensEnd(c, n, 0);
    } else {
      RestTokensStep(c, n, i, 0);
      var value := n.entries[i].value;
      if value.Leaf? {
        NodeTokensLeaf(c, value, |LeftOf(n, i)|);
      } else {
        NodeTokensGroup(c, value, |LeftOf(n, i)|);
      }
    }
  }

  // ----- entry_start -----

  method SkipWs(doc: bytes, from: nat) returns (pos: nat)
    ensures from <= |doc| ==> pos == from + WsLen(doc[from..])
    ensures from > |doc| ==> pos == from
  {
    pos := from;
    while pos < |doc| && IsWs(doc[pos])
      invariant from <= pos && (from > |doc| ==> pos == from)
      invariant from <= |doc| ==> pos <= |doc| && from + WsLen(doc[from..]) == pos + WsLen(doc[pos..])
    {
      assert doc[pos..][1..] == doc[pos + 1..];
      pos := pos + 1;
    }
  }

  /** Entry `i` starts past the whitespace that leads it. */
  lemma EntryStartsAt(doc: bytes, start: nat, n: Node, i: nat)
    requires start + |Print(n)| <= |doc| && doc[start..start + |Print(n)|] == Print(n)
    requires Wf(n) && n.Group? && i < |n.entries|
    ensures i == 0 ==> start + 1 + WsLen(doc[start + 1..]) == start + |UpTo(n, 0)|
    ensures i > 0 ==>
              var prev := start + |Through(n, i - 1)|;
              && prev <= |doc|
              && var comma := prev + WsLen(doc[prev..]);
              && comma + 1 <= |doc|
              && comma + 1 + WsLen(doc[comma + 1..]) == start + |UpTo(n, i)|
  {
    hide Print, Wf, LeftOf, RightOf, UpTo, From, Through, AllWs, StartsWs, WsLen;
    var rest := doc[start + |Print(n)|..];
    UpToText(n, i);
    var after := From(n, i) + rest;
    DocFrom(doc, start, UpTo(n, i), From(n, i), rest);
    EntryWs(n, i);
    assert !StartsWs(after) by { FromFirst(n, i); NotWs(From(n, i), rest); }
    if i == 0 {
      UpToFirst(n);
      LeadCut(doc, start, [Opener(n.obj)], n.entries[0].lead, after);
    } else {
      UpToLonger(n, i - 1);
      EntryWs(n, i - 1);
      SeparatorCut(doc, start, Through(n, i - 1), n.entries[i - 1].trail, n.entries[i].lead, after);
    }
  }

  lemma NotWs(a: bytes, b: bytes)
    requires a != [] && !IsWs(a[0])
    ensures !StartsWs(a + b)
  {
  }

  /** Skipping whitespace past `before` reaches what follows the whitespace that leads it. */
  lemma LeadCut(doc: bytes, start: nat, before: bytes, lead: bytes, after: bytes)
    requires start <= |doc| && doc[start..] == (before + lead) + after && AllWs(lead) && !StartsWs(after)
    ensures var p := start + |before|; p <= |doc| && p + WsLen(doc[p..]) == start + |before + lead|
  {
    hide AllWs, StartsWs, WsLen;
    LeadFrom(doc, start, before, lead, after);
    WsCut(lead, after);
  }

  /** The same twice, with a comma between. */
  lemma SeparatorCut(doc: bytes, start: nat, before: bytes, trail: bytes, lead: bytes, after: bytes)
    requires start <= |doc| && doc[start..] == (before + trail + [COMMA] + lead) + after
    requires AllWs(trail) && AllWs(lead) && !StartsWs(after)
    ensures var prev := start + |before|;
            && prev <= |doc|
            && var comma := prev + WsLen(doc[prev..]);
            && comma + 1 <= |doc|
            && comma + 1 + WsLen(doc[comma + 1..]) == start + |before + trail + [COMMA] + lead|
  {
    hide AllWs, StartsWs, WsLen;
    LeadCut(doc, start, before + trail + [COMMA], lead, after);
    assert (before + trail + [COMMA] + lead) + after == (before + trail) + ([COMMA] + lead + after);
    assert !StartsWs([COMMA] + lead + after) by { CommaNotWs(lead, after); }
    LeadCut(doc, start, before, trail, [COMMA] + lead + after);
  }

  lemma CommaNotWs(lead: bytes, after: bytes)
    ensures !StartsWs([COMMA] + lead + after)
  {
  }

  lemma EntryWs(n: Node, i: nat)
    requires Wf(n) && n.Group? && i < |n.entries|
    ensures AllWs(n.entries[i].lead) && AllWs(n.entries[i].trail)
  {
    assert WfEntry(n.obj, n.entries[i]);
  }

  lemma UpToFirst(n: Node)
    requires n.Group? && n.entries != []
    ensures UpTo(n, 0) == [Opener(n.obj)] + n.entries[0].lead
  {
    assert n.entries[..0] == [];
  }

  lemma FromFirst(n: Node, i: nat)
    requires Wf(n) && n.Group? && i < |n.entries|
    ensures From(n, i) != [] && !IsWs(From(n, i)[0])
  {
    hide Wf, Print, RightOf;
    var e := n.entries[i];
    assert WfEntry(n.obj, e) by { EntryWf(n, i); }
    HeadFirst(n.obj, e);
    FirstByte(e.value);
  }

  lemma EntryWf(n: Node, i: nat)
    requires Wf(n) && n.Group? && i < |n.entries|
    ensures WfEntry(n.obj, n.entries[i])
  {
  }

  lemma DocFrom(doc: bytes, start: nat, a: bytes, b: bytes, rest: bytes)
    requires start + |a| + |b| <= |doc| && doc[start..start + |a| + |b|] == a + b
    requires rest == doc[start + |a| + |b|..]
    ensures doc[start..] == a + (b + rest)
  {
    assert doc[start..] == doc[start..start + |a| + |b|] + rest;
  }

  lemma LeadFrom(doc: bytes, start: nat, a: bytes, lead: bytes, after: bytes)
    requires start <= |doc| && doc[start..] == (a + lead) + after
    ensures start + |a| <= |doc| && doc[start + |a|..] == lead + after
  {
    assert doc[start + |a|..] == doc[start..][|a|..];
  }

  /** Start of entry `i`: first content after the bracket, or after the separating comma. */
  method EntryStart(c: Codec, doc: bytes, containerStart: nat, children: seq<ChildSpan>, i: nat, ghost n: Node)
    returns (pos: nat)
    requires containerStart + |Print(n)| <= |doc| && doc[containerStart..containerStart + |Print(n)|] == Print(n)
    requires Wf(n) && n.Group? && i < |n.entries| && children == SpansOf(c, n, containerStart)
    ensures pos == containerStart + |UpTo(n, i)|
  {
    hide Print, Wf, LeftOf, UpTo, Through, WsLen, KeyOf;
    EntryStartsAt(doc, containerStart, n, i);
    FirstByteIn(n);
    if i == 0 {
      pos := SkipWs(doc, containerStart + 1);
    } else {
      var afterPrev := SkipWs(doc, children[i - 1].end);
      pos := SkipWs(doc, afterPrev + 1);
    }
  }

  lemma FirstByteIn(n: Node)
    requires Wf(n)
    ensures |Print(n)| > 0
  {
    FirstByte(n);
  }

  // ----- apply_edit -----

  /** Rebuild `doc` with `[start, end)` replaced, unless the generator refuses the value. */
  method ApplyEdit(doc: bytes, start: nat, end: nat, insert: Insert) returns (r: Result<bytes, Fault>)
    requires start <= end <= |doc|
    ensures r == if Rendered(insert).Some? then Ok(Spliced(doc, start, end, Rendered(insert).value)) else Err(GeneratorFault)
  {
    var out := doc[..start];
    match insert {
      case Given(operand) =>
        if operand.text.None? {
          return Err(GeneratorFault);
        }
        out := out + operand.text.value;
      case Owned(text) =>
        out := out + text;
      case Nothing =>
        assert out == out + [];
    }
    r := Ok(out + doc[end..]);
  }

  /** `"key":` and the value's text, for a new object member. */
  method RenderEntry(c: Codec, key: bytes, value: Insert) returns (r: Result<bytes, Fault>)
    ensures r == if Rendered(value).Some? then Ok(PrintLabel(NewHead(c, true, key)) + Rendered(value).value) else Err(GeneratorFault)
  {
    var out := c.quote(key) + [COLON];
    assert out == PrintLabel(NewHead(c, true, key));
    if Rendered(value).None? {
      return Err(GeneratorFault);
    }
    r := Ok(out + Rendered(value).value);
  }

  /** `bytes` extended by the value's text. */
  method ExtendInsert(prefix: bytes, value: Insert) returns (r: Result<bytes, Fault>)
    ensures r == if Rendered(value).Some? then Ok(prefix + Rendered(value).value) else Err(GeneratorFault)
  {
    if Rendered(value).None? {
      return Err(GeneratorFault);
    }
    r := Ok(prefix + Rendered(value).value);
  }

  // ----- op_add -----

  /** The one block of bytes an edit replaces, and what surrounds the value there. */
  datatype Block = Block(start: nat, end: nat, before: bytes, after: bytes)

  /**
    `out` is `doc` with one block replaced by the value's text, or with one block inserted
    that holds it; a replaced block is exactly the span of the value addressed.
   */
  ghost predicate OneBlock(c: Codec, doc: bytes, path: bytes, v: bytes, out: bytes, b: Block) {
    && b.start <= b.end <= |doc|
    && out == Spliced(doc, b.start, b.end, b.before + v + b.after)
    && (if b.start == b.end then Separates(c, path, b)
        else SpanAt(c, doc, path) == Ok(Some((b.start, b.end))) && b.before == b.after == [])
  }

  /** An inserted value has a comma on one side at most, a new member its key and colon, and no whitespace. */
  ghost predicate Separates(c: Codec, path: bytes, b: Block) {
    && Tokens(path).Some? && Tokens(path).value != []
    && var named := c.quote(Tokens(path).value[|Tokens(path).value| - 1]) + Ascii(":");
    if b.after == [] then b.before == [] || b.before == Ascii(",") || b.before == named || b.before == Ascii(",") + named
    else b.after == Ascii(",") && b.before == []
  }

  lemma KeySeparates(c: Codec, path: bytes, b: Block)
    requires Tokens(path).Some? && Tokens(path).value != [] && b.after == []
    requires var head := PrintLabel(NewHead(c, true, Tokens(path).value[|Tokens(path).value| - 1]));
             b.before == head || b.before == [COMMA] + head
    ensures Separates(c, path, b)
  {
    hide Tokens;
    var named := c.quote(Tokens(path).value[|Tokens(path).value| - 1]) + [COLON];
    assert named + [] == named && Ascii(":") == [COLON] && Ascii(",") == [COMMA];
    assert PrintLabel(NewHead(c, true, Tokens(path).value[|Tokens(path).value| - 1])) == named;
  }

  lemma CommaSeparates(c: Codec, path: bytes, b: Block)
    requires Tokens(path).Some? && Tokens(path).value != []
    requires (b.after == [] && (b.before == [] || b.before == [COMMA])) || (b.after == [COMMA] && b.before == [])
    ensures Separates(c, path, b)
  {
    hide Tokens;
    assert Ascii(",") == [COMMA];
  }

  /** What is known once a pointer's parent has resolved. */
  lemma ParentLocated(c: Codec, doc: bytes, path: bytes)
    requires Good(c, doc) && SplitPointer(path).Parent?
    ensures Tokens(path).Some? && Tokens(path).value != []
    ensures var sp := SplitPointer(path); var toks := Tokens(path).value;
            && Tokens(sp.parent) == Some(toks[..|toks| - 1]) && toks[|toks| - 1] == sp.token
            && SpanAt(c, doc, sp.parent).Ok?
    ensures var sp := SplitPointer(path); var toks := Tokens(path).value;
            var span := SpanAt(c, doc, sp.parent).value;
            var p := PathOf(c, RootOf(doc), toks[..|toks| - 1]);
            && (span.None? <==> p.None?)
            && (span.Some? ==>
                  && ValidPath(RootOf(doc), p.value)
                  && Located(c, doc, toks, p.value, At(RootOf(doc), p.value), span.value.0)
                  && span.value.1 == span.value.0 + |Print(At(RootOf(doc), p.value))|)
            && Resolve(DocValue(c, doc), toks[..|toks| - 1]) ==
               if span.None? then None else Some(ValueOf(c, At(RootOf(doc), p.value)))
  {
    hide ParseDoc, Unique, Print, At, Tokens, Left, Unescape, LastSlash, ValueOf, Resolve;
    SplitMeansTokens(path);
    var sp := SplitPointer(path);
    var toks := Tokens(path).value;
    assert toks == Tokens(sp.parent).value + [sp.token];
    assert toks[..|toks| - 1] == Tokens(sp.parent).value;
    SpanHolds(c, doc, sp.parent);
  }

  // ----- which error is raised -----

  /**
    What a failing `add` raises: an argument error for a malformed pointer, a patch error
    where there is no such place, a parser error below a scalar, and otherwise the generator's.
   */
  function AddFault(v: Value, toks: Option<seq<bytes>>): Fault {
    if toks.None? then ArgumentFault
    else if toks.value == [] then GeneratorFault
    else
      var parent, token := Resolve(v, toks.value[..|toks.value| - 1]), toks.value[|toks.value| - 1];
      if parent.None? then PatchFault
      else
        match parent.value
        case Atom(_) => ParserFault
        case Dict(_) => GeneratorFault
        case List(xs) => if NoSlot(token, |xs|) then PatchFault else GeneratorFault
  }

  /** The token is no place in a list of that length. */
  predicate NoSlot(tok: bytes, length: nat) {
    tok != [DASH] && (ParseIndex(tok).None? || ParseIndex(tok).value > length)
  }

  /** What a failing `remove` raises. */
  function RemoveFault(v: Value, toks: Option<seq<bytes>>): Fault {
    if toks.None? then ArgumentFault
    else if toks.value == [] then PatchFault
    else
      var parent := Resolve(v, toks.value[..|toks.value| - 1]);
      if parent.Some? && parent.value.Atom? then ParserFault else PatchFault
  }

  lemma AddFaultIs(c: Codec, v: Value, toks: seq<bytes>, n: Node)
    requires toks != [] && Resolve(v, toks[..|toks| - 1]) == Some(ValueOf(c, n))
    ensures AddFault(v, Some(toks)) ==
            if n.Leaf? then ParserFault
            else if !n.obj && NoSlot(toks[|toks| - 1], |n.entries|) then PatchFault else GeneratorFault
    ensures RemoveFault(v, Some(toks)) == if n.Leaf? then ParserFault else PatchFault
  {
    hide Resolve, ValueOf, NoSlot;
    if n.Leaf? {
      LeafIsAtom(c, n);
    } else {
      GroupKind(c, n);
    }
  }

  /** Where the parent does not resolve, or cannot take the edit, the tree-level edit fails too. */
  lemma EditFails(c: Codec, doc: bytes, toks: seq<bytes>, e: Edit)
    requires Good(c, doc) && toks != []
    requires var p := PathOf(c, RootOf(doc), toks[..|toks| - 1]);
             p.Some? ==> ValidPath(RootOf(doc), p.value)
                         && EditIn(ValueOf(c, At(RootOf(doc), p.value)), toks[|toks| - 1], e).None?
    ensures Alter(DocValue(c, doc), toks, e).None?
  {
    hide ParseDoc, Wf, Unique, PathOf, At, ValueOf, Alter, EditIn;
    GoodRoot(c, doc);
    AlterMatches(c, RootOf(doc), toks, e, RootOf(doc));
  }

  lemma AddFails(c: Codec, n: Node, tok: bytes, x: Value)
    requires n.Leaf? || (!n.obj && tok != [DASH] && (ParseIndex(tok).None? || ParseIndex(tok).value > |n.entries|))
    ensures EditIn(ValueOf(c, n), tok, Add(x)).None?
  {
    hide ValueOf, ParseIndex;
    if n.Leaf? {
      LeafIsAtom(c, n);
    } else {
      GroupKind(c, n);
    }
  }

  /** The first child with that key, as `position` finds it. */
  method FindKey(children: seq<ChildSpan>, token: bytes) returns (i: Option<nat>)
    ensures i.Some? ==> i.value < |children| && children[i.value].key == Some(token)
    ensures i.Some? ==> forall j :: 0 <= j < i.value ==> children[j].key != Some(token)
    ensures i.None? ==> forall j :: 0 <= j < |children| ==> children[j].key != Some(token)
  {
    for k := 0 to |children|
      invariant forall j :: 0 <= j < k ==> children[j].key != Some(token)
    {
      if children[k].key == Some(token) {
        return Some(k);
      }
    }
    i := None;
  }

  lemma FoundKey(c: Codec, n: Node, off: nat, tok: bytes, i: Option<nat>)
    requires n.Group? && n.obj
    requires var ch := SpansOf(c, n, off);
             && (i.Some? ==> i.value < |ch| && ch[i.value].key == Some(tok))
             && (i.Some? ==> forall j :: 0 <= j < i.value ==> ch[j].key != Some(tok))
             && (i.None? ==> forall j :: 0 <= j < |ch| ==> ch[j].key != Some(tok))
    ensures ChildIndex(c, n, tok) == i
  {
    hide KeyOf, LeftOf, Through;
    var ks := Keys(c, n.entries);
    var ch := SpansOf(c, n, off);
    forall j | 0 <= j < |ks|
      ensures ch[j].key == Some(ks[j])
    {
    }
    FirstIs(ks, tok, i);
  }

  lemma {:induction false} FirstIs(ks: seq<bytes>, k: bytes, i: Option<nat>)
    requires i.Some? ==> i.value < |ks| && ks[i.value] == k && forall j :: 0 <= j < i.value ==> ks[j] != k
    requires i.None? ==> forall j :: 0 <= j < |ks| ==> ks[j] != k
    ensures IndexOf(ks, k) == i
  {
    if ks != [] && ks[0] != k {
      FirstIs(ks[1..], k, if i.Some? then Some(i.value - 1) else None);
    }
  }

  /** `add` into the object at the parent: replace the member, or add one. */
  method AddToObject(c: Codec, doc: bytes, path: bytes, token: bytes, pend: nat, children: seq<ChildSpan>, value: Insert,
                     ghost v: Node, ghost p: seq<nat>, ghost n: Node, ghost start: nat)
    returns (r: Result<bytes, Fault>, ghost block: Block)
    requires c.Faithful() && Supplies(c, value, v)
    requires Tokens(path).Some? && Located(c, doc, Tokens(path).value, p, n, start)
    requires token == Tokens(path).value[|Tokens(path).value| - 1]
    requires n.Group? && n.obj && children == SpansOf(c, n, start) && pend == start + |Print(n)|
    ensures r.Err? ==> Rendered(value).None? && r == Err(GeneratorFault)
    ensures r.Ok? ==> Rendered(value).Some? && Edited(c, doc, Tokens(path).value, Add(ValueOf(c, v)), r.value)
    ensures r.Ok? ==> OneBlock(c, doc, path, Print(v), r.value, block)
  {
    hide ParseDoc, Wf, Unique, Print, Tokens, Located, Edited, ChildIndex, KeyOf, LeftOf, RightOf, Through,
      NewHead, PrintLabel, ValueOf, Spliced, WfDoc, SpanAt, PathOf, At, Separates;
    LocatedNode(c, doc, Tokens(path).value, p, n, start);
    var i := FindKey(children, token);
    FoundKey(c, n, start, token, i);
    if i.None? {
      r, block := AddNewMember(c, doc, path, token, pend, children, value, v, p, n, start);
      return;
    }
    AddMember(c, doc, Tokens(path).value, p, n, start, i.value, v);
    MemberSpan(c, doc, path, p, n, start, i.value);
    ValueNotEmpty(n, i.value);
    r := ApplyEdit(doc, children[i.value].start, children[i.value].end, value);
    block := Block(children[i.value].start, children[i.value].end, [], []);
    assert [] + Print(v) + [] == Print(v);
  }

  /** A member the object does not have: after the last one, or just before the closing brace. */
  method AddNewMember(c: Codec, doc: bytes, path: bytes, token: bytes, pend: nat, children: seq<ChildSpan>, value: Insert,
                      ghost v: Node, ghost p: seq<nat>, ghost n: Node, ghost start: nat)
    returns (r: Result<bytes, Fault>, ghost block: Block)
    requires c.Faithful() && Supplies(c, value, v)
    requires Tokens(path).Some? && Located(c, doc, Tokens(path).value, p, n, start)
    requires token == Tokens(path).value[|Tokens(path).value| - 1] && ChildIndex(c, n, token).None?
    requires n.Group? && n.obj && children == SpansOf(c, n, start) && pend == start + |Print(n)|
    ensures r.Err? ==> Rendered(value).None? && r == Err(GeneratorFault)
    ensures r.Ok? ==> Rendered(value).Some? && Edited(c, doc, Tokens(path).value, Add(ValueOf(c, v)), r.value)
    ensures r.Ok? ==> OneBlock(c, doc, path, Print(v), r.value, block)
  {
    hide ParseDoc, Wf, Unique, Print, Tokens, Located, Edited, ChildIndex, KeyOf, LeftOf, RightOf, Through,
      NewHead, PrintLabel, ValueOf, Spliced, WfDoc, SpanAt, PathOf, At, Separates;
    block := Block(0, 0, [], []);
    LocatedNode(c, doc, Tokens(path).value, p, n, start);
    AddLast(c, doc, Tokens(path).value, p, n, start, v);
    var entry := RenderEntry(c, token, value);
    if entry.Err? {
      return Err(GeneratorFault), block;
    }
    ghost var head := PrintLabel(NewHead(c, true, token));
    if children != [] {
      var at := children[|children| - 1].end;
      r := ApplyEdit(doc, at, at, Owned([COMMA] + entry.value));
      block := Block(at, at, [COMMA] + head, []);
      assert [COMMA] + (head + Print(v)) == block.before + Print(v) + [];
    } else {
      GapText(n);
      r := ApplyEdit(doc, pend - 1, pend - 1, Owned(entry.value));
      block := Block(pend - 1, pend - 1, head, []);
    }
    KeySeparates(c, path, block);
    assert block.before + Print(v) + [] == block.before + Print(v);
  }

  lemma GapText(n: Node)
    requires n.Group? && n.entries == []
    ensures |Print(n)| == |n.gap| + 2
  {
    hide Texts, Print;
    PrintsGroup(n.obj, n.gap, []);
    assert Texts([]) == [];
  }

  /** The span of a member is what its own pointer resolves to. */
  lemma MemberSpan(c: Codec, doc: bytes, path: bytes, p: seq<nat>, n: Node, start: nat, i: nat)
    requires Tokens(path).Some? && Located(c, doc, Tokens(path).value, p, n, start)
    requires n.Group? && ChildIndex(c, n, Tokens(path).value[|Tokens(path).value| - 1]) == Some(i)
    ensures SpanAt(c, doc, path) == Ok(Some((start + |LeftOf(n, i)|, start + |Through(n, i)|)))
  {
    hide ParseDoc, Unique, Print, Tokens, ChildIndex, LeftOf, PathOf, At, Left;
    var toks := Tokens(path).value;
    PathOfChild(c, RootOf(doc), toks, i);
    PathOfValid(c, RootOf(doc), toks);
    assert ValidPath(n, [i]);
    PathConcat(RootOf(doc), p, [i]);
    assert Left(n, [i]) == LeftOf(n, i) by { LeftOne(n, i); }
    assert At(n, [i]) == n.entries[i].value by { LeftOne(n, i); }
  }

  lemma ValueNotEmpty(n: Node, i: nat)
    requires n.Group? && i < |n.entries| && Wf(n)
    ensures |LeftOf(n, i)| < |Through(n, i)|
  {
    hide Wf, Print, LeftOf;
    assert Wf(n.entries[i].value) by { ValueWf(n, i); }
    FirstByte(n.entries[i].value);
  }

  lemma ValueWf(n: Node, i: nat)
    requires n.Group? && i < |n.entries| && Wf(n)
    ensures Wf(n.entries[i].value)
  {
    assert WfEntry(n.obj, n.entries[i]);
  }

  lemma LeftOne(n: Node, i: nat)
    requires n.Group? && i < |n.entries|
    ensures Left(n, [i]) == LeftOf(n, i) && At(n, [i]) == n.entries[i].value
  {
    hide LeftOf;
    assert [i][1..] == [];
  }

  lemma {:induction false} PathOfChild(c: Codec, n: Node, toks: seq<bytes>, i: nat)
    requires toks != [] && PathOf(c, n, toks[..|toks| - 1]).Some?
    requires var p := PathOf(c, n, toks[..|toks| - 1]).value;
             ValidPath(n, p) && ChildIndex(c, At(n, p), toks[|toks| - 1]) == Some(i)
    ensures PathOf(c, n, toks) == Some(PathOf(c, n, toks[..|toks| - 1]).value + [i])
    decreases |toks|
  {
    hide ChildIndex;
    var init := toks[..|toks| - 1];
    if |toks| > 1 {
      var k := ChildIndex(c, n, toks[0]).value;
      assert init[0] == toks[0] && init[1..] == toks[1..][..|toks| - 2];
      var q := PathOf(c, n.entries[k].value, init[1..]).value;
      assert ([k] + q)[1..] == q;
      PathOfChild(c, n.entries[k].value, toks[1..], i);
      assert [k] + (q + [i]) == ([k] + q) + [i];
    } else {
      assert toks[1..] == [] && init == [];
      assert [i] + [] == [] + [i];
    }
  }

  /** `add` into the array at the parent: append, or insert before an element. */
  method AddToArray(c: Codec, doc: bytes, path: bytes, token: bytes, pend: nat, children: seq<ChildSpan>, value: Insert,
                    ghost v: Node, ghost p: seq<nat>, ghost n: Node, ghost start: nat)
    returns (r: Result<bytes, Fault>, ghost block: Block)
    requires c.Faithful() && Supplies(c, value, v)
    requires Tokens(path).Some? && Located(c, doc, Tokens(path).value, p, n, start)
    requires token == Tokens(path).value[|Tokens(path).value| - 1]
    requires n.Group? && !n.obj && children == SpansOf(c, n, start) && pend == start + |Print(n)|
    ensures r.Err? ==> Rendered(value).None? || EditIn(ValueOf(c, n), token, Add(ValueOf(c, v))).None?
    ensures r.Err? ==> r.error == if NoSlot(token, |n.entries|) then PatchFault else GeneratorFault
    ensures r.Ok? ==> Rendered(value).Some? && Edited(c, doc, Tokens(path).value, Add(ValueOf(c, v)), r.value)
    ensures r.Ok? ==> OneBlock(c, doc, path, Print(v), r.value, block)
  {
    hide ParseDoc, Wf, Unique, Print, Tokens, Located, Edited, ChildIndex, KeyOf, LeftOf, RightOf, Through,
      ValueOf, Spliced, WfDoc, SpanAt, PathOf, At, ParseIndex, EditIn, Separates;
    ghost var toks := Tokens(path).value;
    block := Block(0, 0, [], []);
    LocatedNode(c, doc, toks, p, n, start);
    var index := if token == [DASH] then Some(|children|) else ParseIndex(token);
    if index.None? || index.value > |children| {
      AddFails(c, n, token, ValueOf(c, v));
      return Err(PatchFault), block;
    }
    if index.value == |children| {
      AddLast(c, doc, toks, p, n, start, v);
      if children != [] {
        var at := children[|children| - 1].end;
        var text := ExtendInsert([COMMA], value);
        if text.Err? {
          return Err(GeneratorFault), block;
        }
        r := ApplyEdit(doc, at, at, Owned(text.value));
        block := Block(at, at, [COMMA], []);
      } else {
        GapText(n);
        var text := ExtendInsert([], value);
        if text.Err? {
          return Err(GeneratorFault), block;
        }
        r := ApplyEdit(doc, pend - 1, pend - 1, Owned(text.value));
        block := Block(pend - 1, pend - 1, [], []);
      }
    } else {
      AddBefore(c, doc, toks, p, n, start, index.value, v);
      var at := children[index.value].start;
      var text := ExtendInsert([], value);
      if text.Err? {
        return Err(GeneratorFault), block;
      }
      r := ApplyEdit(doc, at, at, Owned(text.value + [COMMA]));
      block := Block(at, at, [], [COMMA]);
    }
    CommaSeparates(c, path, block);
    assert [] + Print(v) == Print(v);
    assert block.before + Print(v) + [] == block.before + Print(v);
  }

  /**
    `add`: insert or replace a member, insert into or append to an array, or replace the
    root. It succeeds exactly when the tree-level add does, and the new text reads as its
    result. Outside the root case, exactly one block of bytes changes.
   */
  method OpAdd(c: Codec, doc: bytes, path: bytes, value: Insert, ghost v: Node)
    returns (r: Result<bytes, Fault>, ghost block: Block)
    requires c.Faithful() && Good(c, doc) && Supplies(c, value, v)
    ensures Tokens(path).None? ==> r == Err(ArgumentFault)
    ensures r.Ok? <==>
              && Rendered(value).Some? && Tokens(path).Some?
              && Alter(DocValue(c, doc), Tokens(path).value, Add(ValueOf(c, v))).Some?
    ensures r.Ok? ==> Edited(c, doc, Tokens(path).value, Add(ValueOf(c, v)), r.value)
    ensures r.Ok? ==> if path == [] then r.value == Print(v) else OneBlock(c, doc, path, Print(v), r.value, block)
    ensures r.Err? ==> r.error == AddFault(DocValue(c, doc), Tokens(path))
  {
    hide ParseDoc, Wf, Unique, Print, Tokens, Located, ChildIndex, KeyOf, LeftOf, Alter,
      ValueOf, Spliced, WfDoc, SpanAt, PathOf, At, EditIn, OneBlock, Left, RestTokens, Resolve, NoSlot;
    block := Block(0, 0, [], []);
    SplitMeansTokens(path);
    var split := SplitPointer(path);
    match split {
      case Root =>
        WholeDoc(c, doc, v);
        AlterRoot(DocValue(c, doc), ValueOf(c, v));
        r := ApplyEdit(doc, 0, |doc|, value);
        return;
      case Invalid =>
        return Err(ArgumentFault), block;
      case Parent(parent, token) =>
        ParentLocated(c, doc, path);
        ghost var toks := Tokens(path).value;
        // The parent of a valid pointer is a valid pointer, so resolving it cannot fail.
        var span := SpanAt(c, doc, parent);
        if span.value.None? {
          EditFails(c, doc, toks, Add(ValueOf(c, v)));
          return Err(PatchFault), block;
        }
        var (pstart, pend) := span.value.value;
        ghost var p := PathOf(c, RootOf(doc), toks[..|toks| - 1]).value;
        ghost var n := At(RootOf(doc), p);
        LocatedNode(c, doc, toks, p, n, pstart);
        AddFaultIs(c, DocValue(c, doc), toks, n);
        var children := ContainerChildren(c, doc, pstart, pend, n);
        if children.Err? {
          AddFails(c, n, token, ValueOf(c, v));
          EditFails(c, doc, toks, Add(ValueOf(c, v)));
          return Err(children.error), block;
        }
        if children.value.0 {
          r, block := AddToObject(c, doc, path, token, pend, children.value.1, value, v, p, n, pstart);
        } else {
          r, block := AddToArray(c, doc, path, token, pend, children.value.1, value, v, p, n, pstart);
          if r.Err? && EditIn(ValueOf(c, n), token, Add(ValueOf(c, v))).None? {
            EditFails(c, doc, toks, Add(ValueOf(c, v)));
          }
        }
    }
  }

  lemma AlterRoot(v: Value, x: Value)
    ensures Alter(v, [], Add(x)) == Some(x)
    ensures Alter(v, [], Remove).None?
  {
  }

  // ----- op_remove -----

  lemma RemoveFails(c: Codec, n: Node, tok: bytes)
    requires Unique(c, n) && ChildIndex(c, n, tok).None?
    ensures EditIn(ValueOf(c, n), tok, Remove).None?
  {
    hide ValueOf, Unique, ChildIndex;
    ChildMatches(c, n, tok);
  }

  /**
    `out` is `doc` without one block, the one that holds the entry at `path` and one
    separator, and reads as the document without that entry.
   */
  ghost predicate RemovesEntry(c: Codec, doc: bytes, path: bytes, out: bytes, block: Block) {
    && ParseDoc(doc).Some? && Tokens(path).Some? && Tokens(path).value != []
    && var toks := Tokens(path).value;
    var p := PathOf(c, RootOf(doc), toks[..|toks| - 1]);
    && p.Some? && ValidPath(RootOf(doc), p.value)
    && var n := At(RootOf(doc), p.value);
    var i := ChildIndex(c, n, toks[|toks| - 1]);
    && i.Some? && n.Group? && i.value < |n.entries|
    && block.start == StartOf(doc, p.value) + RemovedBlock(n, i.value).0
    && block.end == StartOf(doc, p.value) + RemovedBlock(n, i.value).1
    && block.start <= block.end <= |doc| && out == doc[..block.start] + doc[block.end..]
    && ReadsWith(doc, p.value, RemoveEntry(n, i.value), out)
  }

  /**
    `remove`: the entry goes with its key and one separating comma, as one deleted block. It
    succeeds exactly when the tree-level remove does, and the new text reads as its result.
   */
  method OpRemove(c: Codec, doc: bytes, path: bytes) returns (r: Result<bytes, Fault>, ghost block: Block)
    requires Good(c, doc)
    ensures Tokens(path).None? ==> r == Err(ArgumentFault)
    ensures r.Ok? <==> Tokens(path).Some? && Alter(DocValue(c, doc), Tokens(path).value, Remove).Some?
    ensures r.Ok? ==> Edited(c, doc, Tokens(path).value, Remove, r.value)
    ensures r.Ok? ==> RemovesEntry(c, doc, path, r.value, block)
    ensures r.Err? ==> r.error == RemoveFault(DocValue(c, doc), Tokens(path))
  {
    hide ParseDoc, Wf, Unique, Print, Tokens, Located, ChildIndex, KeyOf, LeftOf, Alter,
      ValueOf, WfDoc, SpanAt, PathOf, At, EditIn, Left, UpTo, Through, ParseIndex, RemovesEntry, ReadsWith, RemoveEntry, Resolve;
    block := Block(0, 0, [], []);
    SplitMeansTokens(path);
    var split := SplitPointer(path);
    match split {
      case Root =>
        AlterRoot(DocValue(c, doc), DocValue(c, doc));
        return Err(PatchFault), block;
      case Invalid =>
        return Err(ArgumentFault), block;
      case Parent(parent, token) =>
        ParentLocated(c, doc, path);
        ghost var toks := Tokens(path).value;
        // The parent of a valid pointer is a valid pointer, so resolving it cannot fail.
        var span := SpanAt(c, doc, parent);
        if span.value.None? {
          EditFails(c, doc, toks, Remove);
          return Err(PatchFault), block;
        }
        var (pstart, pend) := span.value.value;
        ghost var p := PathOf(c, RootOf(doc), toks[..|toks| - 1]).value;
        ghost var n := At(RootOf(doc), p);
        LocatedNode(c, doc, toks, p, n, pstart);
        AddFaultIs(c, DocValue(c, doc), toks, n);
        var walked := ContainerChildren(c, doc, pstart, pend, n);
        if walked.Err? {
          RemoveLeafFails(c, n, token);
          EditFails(c, doc, toks, Remove);
          return Err(walked.error), block;
        }
        var children := walked.value.1;
        var found := Target(c, walked.value.0, children, token, n, pstart);
        if found.None? {
          RemoveFails(c, n, token);
          EditFails(c, doc, toks, Remove);
          return Err(PatchFault), block;
        }
        var i := found.value;
        RemoveTarget(c, doc, toks, p, n, pstart, i);
        var rs, re := RemovalSpan(c, doc, pstart, pend, children, i, n);
        r := ApplyEdit(doc, rs, re, Nothing);
        block := Block(rs, re, [], []);
        Removed(c, doc, path, toks, p, n, pstart, i, block, r.value);
    }
  }

  lemma Removed(c: Codec, doc: bytes, path: bytes, toks: seq<bytes>, p: seq<nat>, n: Node, start: nat, i: nat, block: Block, out: bytes)
    requires Located(c, doc, toks, p, n, start) && Tokens(path) == Some(toks) && ChildIndex(c, n, toks[|toks| - 1]) == Some(i)
    requires block.start == start + RemovedBlock(n, i).0 && block.end == start + RemovedBlock(n, i).1
    requires block.start <= block.end <= |doc| && out == Spliced(doc, block.start, block.end, [])
    requires ReadsWith(doc, p, RemoveEntry(n, i), out)
    ensures RemovesEntry(c, doc, path, out, block)
  {
    hide ParseDoc, Unique, Tokens, PathOf, At, RemovedBlock, RemoveEntry, StartOf, ReadsWith, Keys;
    assert out == doc[..block.start] + doc[block.end..];
  }

  lemma RemoveLeafFails(c: Codec, n: Node, tok: bytes)
    requires n.Leaf?
    ensures EditIn(ValueOf(c, n), tok, Remove).None?
  {
    hide ValueOf;
    LeafIsAtom(c, n);
  }

  /** The child a token names: by key in an object, by index in an array. */
  method Target(c: Codec, obj: bool, children: seq<ChildSpan>, token: bytes, ghost n: Node, ghost off: nat)
    returns (i: Option<nat>)
    requires n.Group? && n.obj == obj && children == SpansOf(c, n, off)
    ensures i == ChildIndex(c, n, token)
  {
    hide KeyOf, LeftOf, Through, ParseIndex, IndexOf;
    if obj {
      i := FindKey(children, token);
      FoundKey(c, n, off, token, i);
    } else {
      i := ParseIndex(token);
      if i.Some? && i.value >= |children| {
        i := None;
      }
    }
  }

  /** The three span choices of `op_remove`: the only entry, one with a successor, the last. */
  method RemovalSpan(c: Codec, doc: bytes, pstart: nat, pend: nat, children: seq<ChildSpan>, i: nat, ghost n: Node)
    returns (rs: nat, re: nat)
    requires pend == pstart + |Print(n)| <= |doc| && doc[pstart..pend] == Print(n)
    requires Wf(n) && n.Group? && i < |n.entries| && children == SpansOf(c, n, pstart)
    ensures rs == pstart + RemovedBlock(n, i).0 && re == pstart + RemovedBlock(n, i).1
  {
    hide Print, Wf, LeftOf, UpTo, Through, KeyOf;
    if |children| == 1 {
      FirstByteIn(n);
      rs, re := pstart + 1, pend - 1;
    } else if i + 1 < |children| {
      rs := EntryStart(c, doc, pstart, children, i, n);
      re := EntryStart(c, doc, pstart, children, i + 1, n);
    } else {
      rs, re := children[i - 1].end, children[i].end;
    }
  }

  /**
    After a remove every other entry of the container is still there, in order, with its key
    text and its value text.
   */
  lemma RemoveKeepsOthers(c: Codec, doc: bytes, path: bytes, out: bytes, block: Block, j: nat)
    requires RemovesEntry(c, doc, path, out, block)
    requires var toks := Tokens(path).value;
             var n := At(RootOf(doc), PathOf(c, RootOf(doc), toks[..|toks| - 1]).value);
             j < |n.entries| && j != ChildIndex(c, n, toks[|toks| - 1]).value
    ensures var toks := Tokens(path).value;
            var p := PathOf(c, RootOf(doc), toks[..|toks| - 1]).value;
            var n := At(RootOf(doc), p);
            var i := ChildIndex(c, n, toks[|toks| - 1]).value;
            && ParseDoc(out).Some? && ValidPath(RootOf(out), p)
            && var m := At(RootOf(out), p);
            && m.Group? && |m.entries| == |n.entries| - 1
            && var e := m.entries[if j < i then j else j - 1];
            e.head == n.entries[j].head && e.value == n.entries[j].value
  {
    hide ParseDoc, Tokens, PathOf, At, Put, ValidPath, ChildIndex, RemovedBlock, StartOf;
    var toks := Tokens(path).value;
    var p := PathOf(c, RootOf(doc), toks[..|toks| - 1]).value;
    var n := At(RootOf(doc), p);
    AtPut(RootOf(doc), p, RemoveEntry(n, ChildIndex(c, n, toks[|toks| - 1]).value));
  }

  lemma {:induction false} AtPut(n: Node, p: seq<nat>, m: Node)
    requires ValidPath(n, p)
    ensures ValidPath(Put(n, p, m), p) && At(Put(n, p, m), p) == m
  {
    if p != [] {
      AtPut(n.entries[p[0]].value, p[1..], m);
    }
  }

  // ----- op_test -----

  /** What a default parse makes of the text of `n`: its value, unless it nests too deep. */
  function Materialize(c: Codec, n: Node): Result<Value, Fault> {
    if Depth(n) <= MAX_NESTING then Ok(ValueOf(c, n)) else Err(NestingFault)
  }

  /** What a failing `test` raises: a nesting error for a target too deep to read, before anything is compared. */
  ghost function TestFault(v: Value, toks: Option<seq<bytes>>): Fault {
    if toks.None? then ArgumentFault
    else
      var x := Resolve(v, toks.value);
      if x.Some? && !NestsWithin(x.value, 100) then NestingFault else PatchFault
  }

  /** `test` succeeds exactly when the target exists, equals the value, and nests within the limit. */
  method OpTest(c: Codec, doc: bytes, path: bytes, expected: Value) returns (r: Result<(), Fault>)
    requires Good(c, doc)
    ensures r.Ok? <==>
              && Tokens(path).Some?
              && Resolve(DocValue(c, doc), Tokens(path).value) == Some(expected)
              && NestsWithin(expected, 100)
    ensures r.Err? ==> r.error == TestFault(DocValue(c, doc), Tokens(path))
  {
    hide ParseDoc, Wf, Unique, Print, Tokens, ValueOf, SpanAt, PathOf, At, Depth, NestsWithin, Resolve;
    SpanHolds(c, doc, path);
    var span := SpanAt(c, doc, path);
    if span.Err? {
      return Err(span.error);
    }
    if span.value.None? {
      return Err(PatchFault);
    }
    ghost var n := At(RootOf(doc), PathOf(c, RootOf(doc), Tokens(path).value).value);
    DepthMatches(c, n, MAX_NESTING);
    WholeDoc(c, doc, n);
    var (start, end) := span.value.value;
    var actual := Materialize(c, RootOf(doc[start..end]));
    if actual.Err? {
      return Err(actual.error);
    }
    if actual.value != expected {
      return Err(PatchFault);
    }
    r := Ok(());
  }

  // ----- patch_native -----

  /** A field of an operation Hash: a String, or something else. */
  datatype Field<T> = Text(text: T) | NotText

  /** An element of the operation list. */
  datatype OpHash =
    | NotHash
    | Hash(op: Option<Field<string>>, path: Option<Field<bytes>>, from: Option<Field<bytes>>, value: Option<Operand>)

  function StrField<T>(f: Option<Field<T>>): Result<T, Fault> {
    match f
    case Some(Text(text)) => Ok(text)
    case _ => Err(ArgumentFault)
  }

  ghost predicate OpGenerated(c: Codec, op: OpHash) {
    op.Hash? && op.value.Some? ==> Generated(c, op.value.value)
  }

  predicate Named(op: OpHash, name: string) {
    op.Hash? && StrField(op.op) == Ok(name) && StrField(op.path).Ok?
  }

  /** `move` and `copy`, with their two pointers. */
  predicate HasFrom(op: OpHash, name: string) {
    Named(op, name) && StrField(op.from).Ok?
  }

  /** The operations of sections 4.1 to 4.6, on pointers read as the code reads them. */
  function StepAsRead(v: Value, op: OpHash): Option<Value> {
    if op.NotHash? || StrField(op.op).Err? || StrField(op.path).Err? then None
    else
      var name, path := StrField(op.op).value, Tokens(StrField(op.path).value);
      if name == "add" || name == "replace" then
        if op.value.None? || op.value.value.text.None? || path.None? then None
        else Alter(v, path.value, if name == "add" then Add(op.value.value.value) else Replace(op.value.value.value))
      else if name == "remove" then
        if path.None? then None else Alter(v, path.value, Remove)
      else if name == "move" || name == "copy" then
        if StrField(op.from).Err? || Tokens(StrField(op.from).value).None? || path.None? then None
        else
          var from := Tokens(StrField(op.from).value).value;
          if name == "move" then Move(v, from, path.value) else Copy(v, from, path.value)
      else if name == "test" then
        if op.value.None? || path.None? then None else Test(v, path.value, op.value.value.value)
      else None
  }

  /** Every pointer the operation reads escapes each `~`, as section 3 of RFC 6901 demands. */
  predicate ProperPointers(op: OpHash) {
    && (op.Hash? && StrField(op.path).Ok? ==> WellEscaped(StrField(op.path).value))
    && (HasFrom(op, "move") || HasFrom(op, "copy") ==> WellEscaped(StrField(op.from).value))
  }

  /** RFC 6902 on values: one operation. Malformed operations and malformed pointers fail. */
  function RfcStep(v: Value, op: OpHash): Option<Value> {
    if ProperPointers(op) then StepAsRead(v, op) else None
  }

  /** What `patch_native` does, on values: `move` compares pointers as text, `test` has a depth limit. */
  ghost function NativeStep(v: Value, op: OpHash): Option<Value> {
    if HasFrom(op, "move") then
      var from, path := StrField(op.from).value, StrField(op.path).value;
      if path == from then Some(v)
      else if TextBelow(from, path) || Tokens(from).None? || Resolve(v, Tokens(from).value).None? then None
      else
        var removed := Alter(v, Tokens(from).value, Remove);
        if removed.None? || Tokens(path).None? then None
        else Alter(removed.value, Tokens(path).value, Add(Resolve(v, Tokens(from).value).value))
    else if Named(op, "test") && op.value.Some? && !WithinLimit(op.value.value.value) then None
    else StepAsRead(v, op)
  }

  ghost predicate WithinLimit(v: Value) {
    NestsWithin(v, MAX_NESTING)
  }

  // ----- where that is RFC 6902, and where it is not -----

  /** A move of a missing value onto itself: skipped, where section 4.4 wants `from` to exist. */
  ghost predicate SkipsMissing(v: Value, op: OpHash) {
    && HasFrom(op, "move") && StrField(op.path) == StrField(op.from)
    && var from := Tokens(StrField(op.from).value);
    from.None? || Resolve(v, from.value).None?
  }

  /** A `test` that holds of a value nested past the limit: refused. */
  ghost predicate TestsDeep(v: Value, op: OpHash) {
    && ProperPointers(op)
    && Named(op, "test") && op.value.Some? && !WithinLimit(op.value.value.value)
    && var path := Tokens(StrField(op.path).value);
    path.Some? && Resolve(v, path.value) == Some(op.value.value.value)
  }

  /**
    A move into its own child that the text comparison does not notice: the value is an
    array element, and the element after it, once in its place, takes the value.
   */
  ghost predicate SlipsInside(v: Value, op: OpHash) {
    && HasFrom(op, "move")
    && var from, path := StrField(op.from).value, StrField(op.path).value;
    && !TextBelow(from, path)
    && Tokens(from).Some? && Tokens(path).Some? && ProperPrefix(Tokens(from).value, Tokens(path).value)
    && Tokens(from).value != []
    && NextTakes(v, Tokens(from).value, Tokens(path).value[|Tokens(from).value|..])
  }

  /** A pointer with a `~` that escapes nothing, where RFC 6901 wants an error: read, and the operation goes through. */
  ghost predicate ReadsBadEscape(v: Value, op: OpHash) {
    && !ProperPointers(op) && StepAsRead(v, op).Some?
    && !(Named(op, "test") && op.value.Some? && !WithinLimit(op.value.value.value))
  }

  /** The deviations above are all there are. */
  lemma NativeIsRfc(v: Value, op: OpHash)
    ensures NativeStep(v, op) == RfcStep(v, op) <==>
            !SkipsMissing(v, op) && !TestsDeep(v, op) && !SlipsInside(v, op) && !ReadsBadEscape(v, op)
  {
    hide Tokens, Resolve, Alter, NestsWithin, NextTakes, WellEscaped;
    if HasFrom(op, "move") {
      var from, path := StrField(op.from).value, StrField(op.path).value;
      if TextBelow(from, path) {
        TextBelowTokens(from, path);
      } else if Tokens(from).Some? && Tokens(path).Some? && ProperPrefix(Tokens(from).value, Tokens(path).value) {
        var f, p := Tokens(from).value, Tokens(path).value;
        OnlyRootEmpty(from);
        OnlyRootEmpty(path);
        SlashFirst(path);
        assert p == f + p[|f|..];
        SlideInto(v, f, p[|f|..]);
      } else if Tokens(from).Some? && Tokens(from) == Tokens(path) && Resolve(v, Tokens(from).value).Some? {
        OnlyRootEmpty(from);
        OnlyRootEmpty(path);
        if Tokens(from).value != [] {
          RemoveAddBack(v, Tokens(from).value);
        }
      }
    }
  }

  lemma SlashFirst(ptr: bytes)
    requires Tokens(ptr).Some? && ptr != []
    ensures ptr[0] == SLASH && TextBelow([], ptr)
  {
    assert ptr[..0] == [];
  }

  lemma OnlyRootEmpty(ptr: bytes)
    ensures Tokens(ptr) == Some([]) <==> ptr == []
  {
    SplitMeansTokens(ptr);
  }

  /** With properly escaped pointers no move slips into its own child. */
  lemma EscapedNeverSlips(v: Value, op: OpHash)
    requires HasFrom(op, "move")
    requires WellEscaped(StrField(op.from).value) && WellEscaped(StrField(op.path).value)
    ensures !SlipsInside(v, op)
  {
    hide Tokens, Resolve, Alter, WellEscaped, NativeStep, NextTakes;
    var from, path := StrField(op.from).value, StrField(op.path).value;
    if Tokens(from).Some? && Tokens(path).Some? && ProperPrefix(Tokens(from).value, Tokens(path).value) {
      TokensBelowText(from, path);
    }
  }

  /** With proper pointers, two deviations are left. */
  lemma ProperPointersLeaveTwo(v: Value, op: OpHash)
    requires ProperPointers(op)
    ensures NativeStep(v, op) == RfcStep(v, op) <==> !SkipsMissing(v, op) && !TestsDeep(v, op)
  {
    hide Tokens, Resolve, Alter, NestsWithin, NextTakes, WellEscaped, StepAsRead, NativeStep, RfcStep, SkipsMissing, TestsDeep, SlipsInside;
    NativeIsRfc(v, op);
    if HasFrom(op, "move") {
      EscapedNeverSlips(v, op);
    } else {
      if SlipsInside(v, op) {
        OnlyMovesSlip(v, op);
      }
    }
  }

  lemma OnlyMovesSlip(v: Value, op: OpHash)
    requires SlipsInside(v, op)
    ensures HasFrom(op, "move")
  {
    hide Tokens, NextTakes;
  }

  /** A move within an empty object: `from` does not exist, yet the operation succeeds. */
  lemma MissingMoveSucceeds()
    ensures var x := [SLASH, 120];
            var op := Hash(Some(Text("move")), Some(Text(x)), Some(Text(x)), None);
            SkipsMissing(Dict(map[]), op) && NativeStep(Dict(map[]), op).Some? && RfcStep(Dict(map[]), op).None?
  {
    var x: bytes := [SLASH, 120];
    assert SLASH !in x[1..];
    PiecesNoSlash(x[1..]);
    var toks := Tokens(x).value;
    assert |toks| == 1;
    assert Resolve(Dict(map[]), toks).None?;
  }

  /** An `add` into an empty object at "/~", which is no pointer: it goes through. */
  lemma BadEscapeAdds(x: Operand)
    requires x.text.Some?
    ensures var op := Hash(Some(Text("add")), Some(Text([SLASH, TILDE])), None, Some(x));
            && ReadsBadEscape(Dict(map[]), op)
            && NativeStep(Dict(map[]), op) == Some(Dict(map[[TILDE] := x.value]))
            && RfcStep(Dict(map[]), op) == None
  {
    var tilde: bytes := [TILDE];
    assert [SLASH, TILDE][1..] == tilde;
    PiecesNoSlash(tilde);
    Verbatim(tilde);
    assert UnescapeAll([tilde]) == [tilde];
    assert Tokens([SLASH, TILDE]) == Some([tilde]);
    assert !WellEscaped(tilde);
  }

  /** `k` lists, one in another. */
  function Nested(k: nat): Value {
    if k == 0 then Atom([]) else List([Nested(k - 1)])
  }

  lemma {:induction false} NestedDepth(k: nat, room: nat)
    ensures NestsWithin(Nested(k), room) <==> k <= room
    decreases k
  {
    if k > 0 && room > 0 {
      NestedDepth(k - 1, room - 1);
      assert Nested(k).items[0] == Nested(k - 1);
    }
  }

  /** A list nested `k` deep, tested against itself: it holds up to 100 and is refused from 101 on. */
  lemma DeepTestRefused(k: nat)
    ensures var v := Nested(k);
            var op := Hash(Some(Text("test")), Some(Text([])), None, Some(Operand(v, None)));
            && NativeStep(v, op) == (if k <= 100 then Some(v) else None)
            && RfcStep(v, op) == Some(v)
            && (TestsDeep(v, op) <==> k >= 101)
  {
    hide Nested, NestsWithin;
    NestedDepth(k, 100);
    OnlyRootEmpty([]);
  }

  /**
    A move into its own child that goes through, against section 4.4: `from` is "/~/0", with a tilde that should
    have been escaped, and `path` is "/~0/0/k".
   */
  lemma BadEscapeSlips(x: Value)
    ensures var from, path := [SLASH, TILDE, SLASH, ZERO], [SLASH, TILDE, ZERO, SLASH, ZERO, SLASH, 107];
            var v := Dict(map[[TILDE] := List([x, Dict(map[])])]);
            var op := Hash(Some(Text("move")), Some(Text(path)), Some(Text(from)), None);
            SlipsInside(v, op) && NativeStep(v, op) != RfcStep(v, op)
  {
    hide Tokens, NextTakes, Resolve, Alter, NativeStep, RfcStep, StepAsRead, WellEscaped;
    var from, path: bytes := [SLASH, TILDE, SLASH, ZERO], [SLASH, TILDE, ZERO, SLASH, ZERO, SLASH, 107];
    SlipTokens();
    var v := Dict(map[[TILDE] := List([x, Dict(map[])])]);
    var f: seq<bytes> := [[TILDE], [ZERO]];
    var rest: seq<bytes> := [[107]];
    assert path[..|from|] != from by { assert path[..|from|][2] == ZERO; }
    assert (f + rest)[..|f|] == f && (f + rest)[|f|..] == rest;
    NextIsEmptyObject(x);
    var op := Hash(Some(Text("move")), Some(Text(path)), Some(Text(from)), None);
    NativeIsRfc(v, op);
  }

  lemma NextIsEmptyObject(x: Value)
    ensures NextTakes(Dict(map[[TILDE] := List([x, Dict(map[])])]), [[TILDE], [ZERO]], [[107]])
  {
    var f: seq<bytes> := [[TILDE], [ZERO]];
    assert f[1..] == [[ZERO]];
    assert ParseIndex([ZERO]) == Some(0) by { assert DigitsValue([ZERO]) == 0; }
    assert NextTakes(List([x, Dict(map[])]), [[ZERO]], [[107]]);
  }

  lemma SlipTokens()
    ensures Tokens([SLASH, TILDE, SLASH, ZERO]) == Some([[TILDE], [ZERO]])
    ensures Tokens([SLASH, TILDE, ZERO, SLASH, ZERO, SLASH, 107]) == Some([[TILDE], [ZERO]] + [[107]])
  {
    var a, b, z, k: bytes := [TILDE], [TILDE, ZERO], [ZERO], [107];
    PiecesNoSlash(a);
    PiecesNoSlash(b);
    PiecesNoSlash(z);
    PiecesNoSlash(k);
    PiecesConcat(a, z);
    PiecesConcat(z, k);
    PiecesConcat(b, z + [SLASH] + k);
    assert [SLASH, TILDE, SLASH, ZERO][1..] == a + [SLASH] + z;
    assert [SLASH, TILDE, ZERO, SLASH, ZERO, SLASH, 107][1..] == b + [SLASH] + (z + [SLASH] + k);
    assert [b] + ([z] + [k]) == [b, z, k] && [a] + [z] == [a, z];
    assert Unescape(a) == a && Unescape(z) == z && Unescape(k) == k by { Verbatim(a); Verbatim(z); Verbatim(k); }
    assert Unescape(b) == a by { TildeUnescaped(); }
    assert UnescapeAll([a, z]) == [a, z];
    assert UnescapeAll([b, z, k]) == [a, z] + [k];
  }

  lemma Verbatim(t: bytes)
    requires |t| == 1
    ensures Unescape(t) == t
  {
    assert t[1..] == [];
    assert ReplacePair(t, ONE, SLASH) == [t[0]] + ReplacePair(t[1..], ONE, SLASH) == t;
    assert ReplacePair(t, ZERO, TILDE) == [t[0]] + ReplacePair(t[1..], ZERO, TILDE) == t;
  }

  lemma TildeUnescaped()
    ensures Unescape([TILDE, ZERO]) == [TILDE]
  {
    var b: bytes := [TILDE, ZERO];
    assert b[1..] == [ZERO] && b[2..] == [] && [ZERO][1..] == [];
    assert ReplacePair([ZERO], ONE, SLASH) == [ZERO];
    assert ReplacePair(b, ONE, SLASH) == [TILDE] + ReplacePair(b[1..], ONE, SLASH) == b;
    assert ReplacePair(b, ZERO, TILDE) == [TILDE] + ReplacePair(b[2..], ZERO, TILDE);
  }

  // ----- one operation -----

  /** The named part of an outcome: the text reads as a value, or the value-level step fails too. */
  ghost predicate Performs(c: Codec, doc: bytes, op: OpHash, r: Result<bytes, Fault>) {
    && Good(c, doc)
    && (r.Ok? <==> NativeStep(DocValue(c, doc), op).Some?)
    && (r.Ok? ==> Good(c, r.value) && NativeStep(DocValue(c, doc), op) == Some(DocValue(c, r.value)))
  }

  /** The text of a generated operand is a node's. */
  lemma OperandNode(c: Codec, x: Operand, fallback: Node) returns (v: Node)
    requires Generated(c, x) && Wf(fallback) && Unique(c, fallback)
    ensures Supplies(c, Given(x), v)
    ensures x.text.Some? ==> ValueOf(c, v) == x.value
  {
    hide ParseDoc, Wf, Unique, Print, ValueOf;
    v := fallback;
    if x.text.Some? {
      v := RootOf(x.text.value);
      GoodRoot(c, x.text.value);
      assert [] + Print(v) + [] == Print(v);
    }
  }

  /** What a failing `replace` raises: the target is looked up before the value is asked for. */
  function ReplaceFault(v: Value, toks: Option<seq<bytes>>, value: Option<Operand>): Fault {
    if toks.None? then ArgumentFault
    else if Resolve(v, toks.value).None? then PatchFault
    else if value.None? then ArgumentFault
    else GeneratorFault
  }

  method ApplyReplace(c: Codec, doc: bytes, path: bytes, value: Option<Operand>) returns (r: Result<bytes, Fault>)
    requires Good(c, doc) && (value.Some? ==> Generated(c, value.value))
    ensures r.Ok? <==>
              && value.Some? && value.value.text.Some? && Tokens(path).Some?
              && Alter(DocValue(c, doc), Tokens(path).value, Replace(value.value.value)).Some?
    ensures r.Err? ==> r.error == ReplaceFault(DocValue(c, doc), Tokens(path), value)
    ensures r.Ok? ==> Edited(c, doc, Tokens(path).value, Replace(value.value.value), r.value)
    ensures r.Ok? ==>
              && SpanAt(c, doc, path).Ok? && SpanAt(c, doc, path).value.Some?
              && var (s, e) := SpanAt(c, doc, path).value.value;
              s <= e <= |doc| && r.value == Spliced(doc, s, e, value.value.text.value)
  {
    hide ParseDoc, Wf, Unique, Print, Tokens, ValueOf, Spliced, SpanAt, PathOf, At, Left, Alter, Resolve, PrintDoc;
    SpanHolds(c, doc, path);
    var span := SpanAt(c, doc, path);
    if span.Err? {
      return Err(span.error);
    }
    ghost var toks := Tokens(path).value;
    if span.value.None? {
      if value.Some? {
        AlterMissing(DocValue(c, doc), toks, value.value.value);
      }
      return Err(PatchFault);
    }
    if value.None? {
      return Err(ArgumentFault);
    }
    GoodRoot(c, doc);
    ghost var v := OperandNode(c, value.value, RootOf(doc));
    ReplaceMatches(c, RootOf(doc), toks, v);
    var (s, e) := span.value.value;
    r := ApplyEdit(doc, s, e, Given(value.value));
    if r.Ok? {
      ghost var d := ParseDoc(doc).value;
      ghost var p := PathOf(c, RootOf(doc), toks).value;
      ghost var n := At(d.root, p);
      assert [] + Print(n) + [] == Print(n) && [] + Print(v) + [] == Print(v);
      SpliceNode(c, d, p, [], Print(n), [], Print(v), v);
      PrintedGood(c, d.(root := Put(d.root, p, v)));
    }
  }

  lemma {:induction false} AlterMissing(v: Value, toks: seq<bytes>, x: Value)
    requires Resolve(v, toks).None?
    ensures Alter(v, toks, Replace(x)).None?
    decreases |toks|
  {
    hide Child;
    if |toks| > 1 && Child(v, toks[0]).Some? {
      AlterMissing(Child(v, toks[0]).value, toks[1..], x);
    } else if |toks| == 1 {
      assert toks[1..] == [];
    }
  }

  /** `out` is `doc` with one block put in or replaced that holds the very bytes `from` has in `source`. */
  ghost predicate AddsBytesOf(c: Codec, source: bytes, from: bytes, doc: bytes, path: bytes, out: bytes, block: Block) {
    && SpanAt(c, source, from).Ok? && SpanAt(c, source, from).value.Some?
    && var (s, e) := SpanAt(c, source, from).value.value;
    && s <= e <= |source|
    && if path == [] then out == source[s..e] else OneBlock(c, doc, path, source[s..e], out, block)
  }

  /** What a failing `move` raises once its pointers have been compared. */
  function MoveFault(v: Value, from: Option<seq<bytes>>, path: Option<seq<bytes>>): Fault {
    if from.None? then ArgumentFault
    else if Resolve(v, from.value).None? then PatchFault
    else
      var left := Alter(v, from.value, Remove);
      if left.None? then PatchFault else AddFault(left.value, path)
  }

  /** What a failing `copy` raises. */
  function CopyFault(v: Value, from: Option<seq<bytes>>, path: Option<seq<bytes>>): Fault {
    if from.None? then ArgumentFault
    else if Resolve(v, from.value).None? then PatchFault
    else AddFault(v, path)
  }

  /** `move`: the source's raw text is removed, then added. */
  method ApplyMove(c: Codec, doc: bytes, from: bytes, path: bytes)
    returns (r: Result<bytes, Fault>, ghost cut: Block, ghost block: Block)
    requires c.Faithful() && Good(c, doc)
    ensures path == from ==> r == Ok(doc)
    ensures path != from && TextBelow(from, path) ==> r == Err(PatchFault)
    ensures path != from && !TextBelow(from, path) ==>
              var v := DocValue(c, doc);
              && (r.Ok? <==>
                    && Tokens(from).Some? && Tokens(path).Some? && Resolve(v, Tokens(from).value).Some?
                    && Alter(v, Tokens(from).value, Remove).Some?
                    && Alter(Alter(v, Tokens(from).value, Remove).value, Tokens(path).value,
                             Add(Resolve(v, Tokens(from).value).value)).Some?)
              && (r.Ok? ==>
                    && Good(c, r.value)
                    && Alter(Alter(v, Tokens(from).value, Remove).value, Tokens(path).value,
                             Add(Resolve(v, Tokens(from).value).value)) == Some(DocValue(c, r.value)))
    ensures path != from && r.Ok? ==>
              && cut.start <= cut.end <= |doc|
              && var rest := doc[..cut.start] + doc[cut.end..];
              && RemovesEntry(c, doc, from, rest, cut)
              && AddsBytesOf(c, doc, from, rest, path, r.value, block)
    ensures path != from && !TextBelow(from, path) && r.Err? ==> r.error == MoveFault(DocValue(c, doc), Tokens(from), Tokens(path))
  {
    hide ParseDoc, Wf, Unique, Print, Tokens, ValueOf, SpanAt, PathOf, At, Left, Alter, Resolve, RemovesEntry, OneBlock;
    cut, block := Block(0, 0, [], []), Block(0, 0, [], []);
    if path == from {
      return Ok(doc), cut, block;
    }
    if TextBelow(from, path) {
      return Err(PatchFault), cut, block;
    }
    SpanHolds(c, doc, from);
    var span := SpanAt(c, doc, from);
    if span.Err? {
      return Err(span.error), cut, block;
    }
    if span.value.None? {
      return Err(PatchFault), cut, block;
    }
    var (s, e) := span.value.value;
    var raw := doc[s..e];
    ghost var n := At(RootOf(doc), PathOf(c, RootOf(doc), Tokens(from).value).value);
    var removed;
    removed, cut := OpRemove(c, doc, from);
    if removed.Err? {
      ParentHolds(DocValue(c, doc), Tokens(from).value);
      return Err(removed.error), cut, block;
    }
    RemovesOneBlock(c, doc, from, removed.value, cut);
    r, block := OpAdd(c, removed.value, path, Owned(raw), n);
  }

  /** What is resolved below the root has a container around it. */
  lemma {:induction false} ParentHolds(v: Value, toks: seq<bytes>)
    requires Resolve(v, toks).Some?
    ensures toks != [] ==> Resolve(v, toks[..|toks| - 1]).Some? && !Resolve(v, toks[..|toks| - 1]).value.Atom?
    decreases |toks|
  {
    hide ParseIndex;
    if |toks| > 1 {
      var init := toks[..|toks| - 1];
      assert init[0] == toks[0] && init[1..] == toks[1..][..|toks| - 2];
      ParentHolds(Child(v, toks[0]).value, toks[1..]);
    }
  }

  lemma RemovesOneBlock(c: Codec, doc: bytes, path: bytes, out: bytes, block: Block)
    requires RemovesEntry(c, doc, path, out, block)
    ensures block.start <= block.end <= |doc| && out == doc[..block.start] + doc[block.end..]
  {
    hide ParseDoc, Tokens, PathOf, At, ChildIndex, RemovedBlock, StartOf, ReadsWith, RemoveEntry;
  }

  /** `copy`: the source's raw text is added. */
  method ApplyCopy(c: Codec, doc: bytes, from: bytes, path: bytes) returns (r: Result<bytes, Fault>, ghost block: Block)
    requires c.Faithful() && Good(c, doc)
    ensures r.Ok? <==>
              && Tokens(from).Some? && Tokens(path).Some?
              && Copy(DocValue(c, doc), Tokens(from).value, Tokens(path).value).Some?
    ensures r.Ok? ==>
              && Good(c, r.value)
              && Copy(DocValue(c, doc), Tokens(from).value, Tokens(path).value) == Some(DocValue(c, r.value))
    ensures r.Ok? ==> AddsBytesOf(c, doc, from, doc, path, r.value, block)
    ensures r.Err? ==> r.error == CopyFault(DocValue(c, doc), Tokens(from), Tokens(path))
  {
    hide ParseDoc, Wf, Unique, Print, Tokens, ValueOf, SpanAt, PathOf, At, Left, Alter, Resolve, OneBlock;
    block := Block(0, 0, [], []);
    SpanHolds(c, doc, from);
    var span := SpanAt(c, doc, from);
    if span.Err? {
      return Err(span.error), block;
    }
    if span.value.None? {
      return Err(PatchFault), block;
    }
    var (s, e) := span.value.value;
    var raw := doc[s..e];
    ghost var n := At(RootOf(doc), PathOf(c, RootOf(doc), Tokens(from).value).value);
    r, block := OpAdd(c, doc, path, Owned(raw), n);
  }

  /**
    Which bytes each operation writes: `add` puts the value's own text, `replace` puts it
    over the target, `remove` cuts one entry, `copy` puts the bytes `from` has in the
    document, `move` those bytes after cutting that entry, and `test` none.
   */
  ghost predicate Writes(c: Codec, doc: bytes, op: OpHash, out: bytes, cut: Block, block: Block) {
    && (Named(op, "add") ==> Puts(c, doc, op, out, block))
    && (Named(op, "replace") ==> Overwrites(c, doc, op, out))
    && (Named(op, "remove") ==> RemovesEntry(c, doc, StrField(op.path).value, out, cut))
    && (Named(op, "copy") ==> HasFrom(op, "copy") && AddsBytesOf(c, doc, StrField(op.from).value, doc, StrField(op.path).value, out, block))
    && (Named(op, "move") ==> HasFrom(op, "move") && Carries(c, doc, StrField(op.from).value, StrField(op.path).value, out, cut, block))
    && (Named(op, "test") ==> out == doc)
  }

  /** `out` is `doc` with the operand's text put at `path`, as one block; at the root it is that text. */
  ghost predicate Puts(c: Codec, doc: bytes, op: OpHash, out: bytes, block: Block)
    requires Named(op, "add")
  {
    && op.value.Some? && op.value.value.text.Some?
    && var path, text := StrField(op.path).value, op.value.value.text.value;
    if path == [] then out == text else OneBlock(c, doc, path, text, out, block)
  }

  /** `out` is `doc` with the operand's text over the bytes of the value at `path`. */
  ghost predicate Overwrites(c: Codec, doc: bytes, op: OpHash, out: bytes)
    requires Named(op, "replace")
  {
    && op.value.Some? && op.value.value.text.Some?
    && var span := SpanAt(c, doc, StrField(op.path).value);
    && span.Ok? && span.value.Some?
    && var (s, e) := span.value.value;
    s <= e <= |doc| && out == doc[..s] + op.value.value.text.value + doc[e..]
  }

  /** `out` is `doc` without the entry at `from`, and with the bytes of its value put at `path`. */
  ghost predicate Carries(c: Codec, doc: bytes, from: bytes, path: bytes, out: bytes, cut: Block, block: Block) {
    if path == from then out == doc
    else
      && cut.start <= cut.end <= |doc|
      && var rest := doc[..cut.start] + doc[cut.end..];
      && RemovesEntry(c, doc, from, rest, cut)
      && AddsBytesOf(c, doc, from, rest, path, out, block)
  }

  lemma PutsText(c: Codec, doc: bytes, op: OpHash, v: Node, out: bytes, block: Block)
    requires Named(op, "add") && op.value.Some? && Supplies(c, Given(op.value.value), v) && op.value.value.text.Some?
    requires var path := StrField(op.path).value;
             if path == [] then out == Print(v) else OneBlock(c, doc, path, Print(v), out, block)
    ensures Puts(c, doc, op, out, block)
  {
    hide Wf, Unique, Print, OneBlock;
  }

  /** What an operation that fails raises; a missing or mistyped field is an argument error. */
  ghost function StepFault(v: Value, op: OpHash): Fault {
    if op.NotHash? || StrField(op.op).Err? || StrField(op.path).Err? then ArgumentFault
    else
      var name, path := StrField(op.op).value, Tokens(StrField(op.path).value);
      if name == "add" then if op.value.None? then ArgumentFault else AddFault(v, path)
      else if name == "replace" then ReplaceFault(v, path, op.value)
      else if name == "remove" then RemoveFault(v, path)
      else if name == "test" then if op.value.None? then ArgumentFault else TestFault(v, path)
      else if (name == "move" || name == "copy") && StrField(op.from).Ok? then
        var from := StrField(op.from).value;
        if name == "copy" then CopyFault(v, Tokens(from), path)
        else if TextBelow(from, StrField(op.path).value) then PatchFault
        else MoveFault(v, Tokens(from), path)
      else ArgumentFault
  }

  /** One operation of the list. Its text reads as what the value-level step yields. */
  method ApplyOp(c: Codec, doc: bytes, op: OpHash) returns (r: Result<bytes, Fault>, ghost cut: Block, ghost block: Block)
    requires c.Faithful() && Good(c, doc) && OpGenerated(c, op)
    ensures Performs(c, doc, op, r)
    ensures r.Err? ==> r.error == StepFault(DocValue(c, doc), op)
    ensures r.Ok? ==> Writes(c, doc, op, r.value, cut, block)
  {
    hide ParseDoc, Wf, Unique, Print, Tokens, ValueOf, Alter, Resolve, NestsWithin, TextBelow, Generated, Move, AddsBytesOf, RemovesEntry, OneBlock,
      SpanAt, Puts, AddFault, RemoveFault, ReplaceFault, MoveFault, CopyFault, TestFault;
    cut, block := Block(0, 0, [], []), Block(0, 0, [], []);
    if op.NotHash? {
      return Err(ArgumentFault), cut, block;
    }
    var name, path := StrField(op.op), StrField(op.path);
    if name.Err? || path.Err? {
      return Err(ArgumentFault), cut, block;
    }
    if name.value == "add" {
      if op.value.None? {
        return Err(ArgumentFault), cut, block;
      }
      GoodRoot(c, doc);
      ghost var v := OperandNode(c, op.value.value, RootOf(doc));
      r, block := OpAdd(c, doc, path.value, Given(op.value.value), v);
      if r.Ok? {
        PutsText(c, doc, op, v, r.value, block);
      }
    } else if name.value == "replace" {
      r := ApplyReplace(c, doc, path.value, op.value);
    } else if name.value == "remove" {
      r, cut := OpRemove(c, doc, path.value);
    } else if name.value == "move" || name.value == "copy" {
      var from := StrField(op.from);
      if from.Err? {
        return Err(ArgumentFault), cut, block;
      }
      if name.value == "move" {
        r, cut, block := ApplyMove(c, doc, from.value, path.value);
      } else {
        r, block := ApplyCopy(c, doc, from.value, path.value);
      }
    } else if name.value == "test" {
      if op.value.None? {
        return Err(ArgumentFault), cut, block;
      }
      var tested := OpTest(c, doc, path.value, op.value.value.value);
      r := if tested.Ok? then Ok(doc) else Err(tested.error);
    } else {
      r := Err(ArgumentFault);
    }
  }

  // ----- the whole list -----

  ghost function NativeFold(v: Value, ops: seq<OpHash>): Option<Value> {
    if ops == [] then Some(v)
    else
      var before := NativeFold(v, ops[..|ops| - 1]);
      if before.None? then None else NativeStep(before.value, ops[|ops| - 1])
  }

  function RfcFold(v: Value, ops: seq<OpHash>): Option<Value> {
    if ops == [] then Some(v)
    else
      var before := RfcFold(v, ops[..|ops| - 1]);
      if before.None? then None else RfcStep(before.value, ops[|ops| - 1])
  }

  lemma {:induction false} FoldStops(v: Value, ops: seq<OpHash>, k: nat)
    requires k <= |ops| && NativeFold(v, ops[..k]).None?
    ensures NativeFold(v, ops).None?
    decreases |ops|
  {
    hide NativeStep;
    if k < |ops| {
      assert ops[..|ops| - 1][..k] == ops[..k];
      FoldStops(v, ops[..|ops| - 1], k);
    } else {
      assert ops[..k] == ops;
    }
  }

  ghost predicate StepWrites(c: Codec, doc: bytes, op: OpHash, out: bytes) {
    exists cut, block :: Writes(c, doc, op, out, cut, block)
  }

  /** The documents a run goes through, each the one before with that operation's bytes written. */
  ghost predicate Trail(c: Codec, input: bytes, ops: seq<OpHash>, docs: seq<bytes>) {
    && |docs| == |ops| + 1 && docs[0] == input
    && forall k :: 0 <= k < |ops| ==> StepWrites(c, docs[k], ops[k], docs[k + 1])
  }

  /**
    `patch_native`: the operations in order over the evolving text. It succeeds exactly when
    the value-level fold does, stops at the same operation, and its text reads as the
    fold's result.
   */
  method PatchNative(c: Codec, input: bytes, ops: seq<OpHash>)
    returns (r: Result<bytes, Fault>, ghost failedAt: nat, ghost docs: seq<bytes>)
    requires c.Faithful() && Good(c, input)
    requires forall i :: 0 <= i < |ops| ==> OpGenerated(c, ops[i])
    ensures r.Ok? <==> NativeFold(DocValue(c, input), ops).Some?
    ensures r.Ok? ==> Good(c, r.value) && NativeFold(DocValue(c, input), ops) == Some(DocValue(c, r.value))
    ensures r.Err? ==>
              && failedAt < |ops|
              && NativeFold(DocValue(c, input), ops[..failedAt]).Some?
              && NativeFold(DocValue(c, input), ops[..failedAt + 1]).None?
              && r.error == StepFault(NativeFold(DocValue(c, input), ops[..failedAt]).value, ops[failedAt])
    ensures r.Ok? ==> Trail(c, input, ops, docs) && docs[|ops|] == r.value
  {
    hide ParseDoc, Unique, ValueOf, NativeStep, OpGenerated, Writes, StepFault;
    var doc := input;
    failedAt, docs := 0, [input];
    for i := 0 to |ops|
      invariant Good(c, doc) && NativeFold(DocValue(c, input), ops[..i]) == Some(DocValue(c, doc))
      invariant |docs| == i + 1 && docs[0] == input && docs[i] == doc
      invariant forall k :: 0 <= k < i ==> StepWrites(c, docs[k], ops[k], docs[k + 1])
    {
      assert ops[..i + 1][..i] == ops[..i] && ops[..i + 1][i] == ops[i];
      ghost var cut, block;
      var step;
      step, cut, block := ApplyOp(c, doc, ops[i]);
      if step.Err? {
        FoldStops(DocValue(c, input), ops, i + 1);
        return Err(step.error), i, docs;
      }
      assert StepWrites(c, doc, ops[i], step.value);
      doc := step.value;
      docs := docs + [doc];
    }
    assert ops[..|ops|] == ops;
    r := Ok(doc);
  }

  /** No operation of the RFC 6902 run meets one of the deviations. */
  ghost predicate Ordinary(v: Value, ops: seq<OpHash>) {
    forall k :: 0 <= k < |ops| && RfcFold(v, ops[..k]).Some? ==>
      var w := RfcFold(v, ops[..k]).value;
      !SkipsMissing(w, ops[k]) && !TestsDeep(w, ops[k]) && !SlipsInside(w, ops[k]) && !ReadsBadEscape(w, ops[k])
  }

  /** Over a whole run, the native fold is the RFC 6902 fold unless a deviation is met on the way. */
  lemma {:induction false} FoldIsRfc(v: Value, ops: seq<OpHash>)
    requires Ordinary(v, ops)
    ensures NativeFold(v, ops) == RfcFold(v, ops)
  {
    hide NativeStep, RfcStep, SkipsMissing, TestsDeep, SlipsInside, ReadsBadEscape;
    if ops != [] {
      var init := ops[..|ops| - 1];
      forall k | 0 <= k < |init|
        ensures init[..k] == ops[..k] && init[k] == ops[k]
      {
      }
      FoldIsRfc(v, init);
      if RfcFold(v, init).Some? {
        NativeIsRfc(RfcFold(v, init).value, ops[|ops| - 1]);
      }
    }
  }
}
