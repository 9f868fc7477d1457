/**
  Which formatting strings keep generated text readable: whitespace, and nothing else, as
  soon as any container can be written and read.
 */
module Formats {
  import opened Bytes
  import opened Syntax
  import opened Grammar
  import opened Printer
  import opened RoundTrip
  import opened Generate
  import opened Lines
  import opened LineTrip
  import Mended
  import Sinks
  import ValueSinks
  import V = Values

  const EMPTY: bytes := [QUOTE, QUOTE]

  /** Only one token spells the empty string, as a key and as a value. */
  ghost predicate OneEmptySpelling(c: V.Codec, scalar: Value -> bytes) {
    && (forall t :: IsString(t) && c.decode(t) == [] ==> t == EMPTY)
    && (forall t :: IsToken(t) && c.scalar(t) == scalar(Str([])) ==> t == EMPTY)
  }

  /** The text of `v` parses to what `v` means, under the parse options. */
  ghost predicate ReadsBack(c: V.Codec, g: Config, scalar: Value -> bytes, maxNesting: nat, allow: bool, v: Value)
    requires Plain(g, v, g.startDepth).Ok?
  {
    LineResult(c, Plain(g, v, g.startDepth).value, maxNesting, allow) == Ok(Meaning(scalar, v))
  }

  /** A value that generates, and that the parse options allow. */
  ghost predicate Fair(g: Config, maxNesting: nat, allow: bool, v: Value) {
    Spelled(v) && Plain(g, v, g.startDepth).Ok? && Within(v, maxNesting) && (allow || NoRepeats(v))
  }

  ghost predicate AllReadBack(c: V.Codec, g: Config, scalar: Value -> bytes, maxNesting: nat, allow: bool) {
    forall v :: Fair(g, maxNesting, allow, v) ==> ReadsBack(c, g, scalar, maxNesting, allow, v)
  }

  /** No container is both written and read: the formatting is never used. */
  ghost predicate OnlyScalars(g: Config, maxNesting: nat) {
    TooDeep(g, g.startDepth + 1) || maxNesting == 0
  }

  // ----- scalars -----

  lemma ScalarReadsBack(c: V.Codec, g: Config, scalar: Value -> bytes, maxNesting: nat, allow: bool, v: Value)
    requires Escapes(c, g) && Reads(c, g, scalar) && IsScalar(v) && Spelled(v) && Plain(g, v, g.startDepth).Ok?
    ensures ReadsBack(c, g, scalar, maxNesting, allow, v)
  {
    hide Plain, ParseDoc, Escapes, Spelled, IsToken, Sinks.TextOutcome, ValueSinks.RefusedRepeat, Mended.ReadRoot;
    ScalarDepth(g, v, g.startDepth);
    ScalarIsToken(c, g, v);
    var t := Plain(g, v, 0).value;
    assert PrintDoc(Doc([], Leaf(t), [])) == t by { PrintsLeaf(t); }
    DocReads(Doc([], Leaf(t), []));
    Mended.ReadRootIs(t);
    ValueSinks.DriveAccepts(c, t, maxNesting, allow);
  }

  lemma FairIsScalar(g: Config, maxNesting: nat, allow: bool, v: Value)
    requires Fair(g, maxNesting, allow, v) && OnlyScalars(g, maxNesting)
    ensures IsScalar(v)
  {
    hide Plain, PlainItems, PlainPairs, Spelled;
    if v.Array? {
      PlainArray(g, v.items, g.startDepth);
    } else if v.Hash? {
      PlainHash(g, v.pairs, g.startDepth);
    }
  }

  // ----- counting what is not whitespace -----

  function Solid(s: bytes): nat {
    if s == [] then 0 else Solid(s[..|s| - 1]) + (if IsWs(s[|s| - 1]) then 0 else 1)
  }

  lemma {:induction false} SolidAdds(a: bytes, b: bytes)
    ensures Solid(a + b) == Solid(a) + Solid(b)
  {
    if b == [] {
      assert a + b == a;
    } else {
      var init := b[..|b| - 1];
      assert (a + b)[..|a + b| - 1] == a + init;
      SolidAdds(a, init);
    }
  }

  lemma {:induction false} SolidNone(s: bytes)
    ensures Solid(s) == 0 <==> AllWs(s)
  {
    if s != [] {
      SolidNone(s[..|s| - 1]);
      assert s == s[..|s| - 1] + [s[|s| - 1]];
    }
  }

  lemma SolidBytes()
    ensures Solid([LBRACKET]) == 1 && Solid([RBRACKET]) == 1 && Solid([LBRACE]) == 1 && Solid([RBRACE]) == 1
    ensures Solid([COLON]) == 1 && Solid(EMPTY) == 2
  {
    assert EMPTY[..1] == [QUOTE] && [QUOTE][..0] == [] && [LBRACKET][..0] == [] && [COLON][..0] == [];
    assert [RBRACKET][..0] == [] && [LBRACE][..0] == [] && [RBRACE][..0] == [];
  }

  lemma SolidFive(a: bytes, b: bytes, c: bytes, d: bytes, e: bytes)
    ensures Solid(a + b + c + d + e) == Solid(a) + Solid(b) + Solid(c) + Solid(d) + Solid(e)
  {
    hide Solid;
    SolidAdds(a, b);
    SolidAdds(a + b, c);
    SolidAdds(a + b + c, d);
    SolidAdds(a + b + c + d, e);
  }

  lemma AllWsParts(a: bytes, b: bytes)
    requires AllWs(a + b)
    ensures AllWs(a) && AllWs(b)
  {
    assert forall i :: 0 <= i < |a| ==> a[i] == (a + b)[i];
    assert forall i :: 0 <= i < |b| ==> b[i] == (a + b)[|a| + i];
  }

  // ----- arrays -----

  const ONE_ITEM: Value := Array([Str([])])

  lemma EmptyQuoted(c: V.Codec, g: Config, scalar: Value -> bytes)
    requires Escapes(c, g) && OneEmptySpelling(c, scalar)
    ensures QuotedText(g, []) == EMPTY
  {
    hide QuotedText;
  }

  /** The text of an array of one empty string. */
  lemma OneItemText(g: Config)
    requires !TooDeep(g, g.startDepth + 1) && QuotedText(g, []) == EMPTY
    ensures Plain(g, ONE_ITEM, g.startDepth) ==
            Ok([LBRACKET] + (g.arrayNl + Indent(g, g.startDepth + 1)) + EMPTY + CloseText(g, g.arrayNl, g.startDepth) + [RBRACKET])
  {
    hide Plain, PlainItems, QuotedText, Indent, CloseText;
    var d := g.startDepth;
    PlainArray(g, [Str([])], d);
    PlainItemsStep(g, [Str([])], 0, d + 1);
    PlainItemsStep(g, [Str([])], 1, d + 1);
    PlainScalar(g, Str([]), d + 1);
    var lead, close := g.arrayNl + Indent(g, d + 1), CloseText(g, g.arrayNl, d);
    assert ItemLead(g, 0, d + 1) == lead;
    FlatFive([LBRACKET], lead, EMPTY, close, [RBRACKET]);
  }

  lemma FlatFive(a: bytes, b: bytes, c: bytes, d: bytes, e: bytes)
    ensures a + (b + c + []) + (d + e) == a + b + c + d + e
  {
  }

  /** A document that reads as a list of one empty string has four bytes that are not whitespace. */
  lemma OneItemSolid(c: V.Codec, scalar: Value -> bytes, t: bytes)
    requires OneEmptySpelling(c, scalar) && ParseDoc(t).Some?
    requires V.ValueOf(c, ParseDoc(t).value.root) == V.List([V.Atom(scalar(Str([])))])
    ensures Solid(t) == 4
  {
    hide ParseDoc, V.ValueOf, V.ValuesOf, Print, IsToken, Solid, V.Keys, V.MapOf;
    DocSound(t);
    var d := ParseDoc(t).value;
    var n := d.root;
    GroupOf(c, n);
    V.ValueOfGroup(c, n);
    var e := n.entries[0];
    V.ValuesOfAt(c, n.entries, 0);
    LeafOf(c, scalar, e.value, n);
    assert n.entries == [e];
    PrintsGroup(n.obj, n.gap, n.entries);
    BodyOne(e);
    PrintsEntry(e);
    EntrySolid(d, n, e);
  }

  lemma GroupOf(c: V.Codec, n: Node)
    requires !V.ValueOf(c, n).Atom?
    ensures n.Group? && (n.obj <==> V.ValueOf(c, n).Dict?)
  {
    hide V.Keys, V.MapOf, V.ValuesOf, V.ValueOf;
    if n.Leaf? {
      V.LeafIsAtom(c, n);
    } else {
      V.ValueOfGroup(c, n);
    }
  }

  /** An entry of a well-formed group that reads as the empty string is its one token. */
  lemma LeafOf(c: V.Codec, scalar: Value -> bytes, n: Node, parent: Node)
    requires OneEmptySpelling(c, scalar) && V.ValueOf(c, n) == V.Atom(scalar(Str([])))
    requires Wf(parent) && parent.Group? && parent.entries != [] && parent.entries[0].value == n
    ensures n == Leaf(EMPTY) && WfEntry(parent.obj, parent.entries[0])
  {
    hide V.ValueOf, V.Keys, V.MapOf, V.ValuesOf, IsToken, WfLabel;
    WfEntryAt(parent, 0);
    ValueWf(parent.obj, parent.entries[0]);
    if n.Group? {
      V.ValueOfGroup(c, n);
    } else {
      ValueSinks.LeafValue(c, n);
      assert IsToken(n.text) && c.scalar(n.text) == scalar(Str([]));
    }
  }

  lemma ValueWf(obj: bool, e: Entry)
    requires WfEntry(obj, e)
    ensures Wf(e.value) && (e.value.Leaf? ==> IsToken(e.value.text))
  {
    hide IsToken, WfLabel, AllWs;
  }

  lemma EntrySolid(d: Doc, n: Node, e: Entry)
    requires WfDoc(d) && d.root == n && n.Group? && !n.obj && n.entries == [e] && WfEntry(false, e) && e.value == Leaf(EMPTY)
    requires Print(n) == Wrap(false, n.gap, Texts([e])) && Body(Texts([e])) == PrintEntry(e)
    requires PrintEntry(e) == e.lead + PrintLabel(e.head) + Print(e.value) + e.trail
    ensures Solid(PrintDoc(d)) == 4
  {
    hide Print, Texts, Body, Solid, Wf, PrintEntry;
    PrintsLeaf(EMPTY);
    assert Texts([e]) != [] by { TextsOne(e); }
    assert e.lead + [] == e.lead;
    assert Print(n) == [LBRACKET] + (e.lead + EMPTY + e.trail) + [RBRACKET];
    SolidFive(d.lead, [LBRACKET], e.lead + EMPTY + e.trail, [RBRACKET], d.trail);
    SolidAdds(e.lead, EMPTY);
    SolidAdds(e.lead + EMPTY, e.trail);
    assert PrintDoc(d) == d.lead + [LBRACKET] + (e.lead + EMPTY + e.trail) + [RBRACKET] + d.trail;
    SolidNone(d.lead);
    SolidNone(d.trail);
    SolidNone(e.lead);
    SolidNone(e.trail);
    SolidBytes();
  }

  lemma OneItemFair(g: Config, maxNesting: nat, allow: bool)
    requires !OnlyScalars(g, maxNesting) && Plain(g, ONE_ITEM, g.startDepth).Ok?
    ensures Fair(g, maxNesting, allow, ONE_ITEM)
  {
    hide Plain;
  }

  /** If one array reads back, the strings arrays are formatted with are whitespace. */
  lemma ArraysForceWs(c: V.Codec, g: Config, scalar: Value -> bytes, maxNesting: nat, allow: bool)
    requires Escapes(c, g) && OneEmptySpelling(c, scalar)
    requires !OnlyScalars(g, maxNesting) && AllReadBack(c, g, scalar, maxNesting, allow)
    ensures AllWs(g.arrayNl) && AllWs(g.indent)
  {
    hide Plain, ParseDoc, Escapes, OneEmptySpelling, QuotedText, Indent, CloseText, LineResult, Fair, V.ValueOf, Solid, AllWs, Meaning;
    EmptyQuoted(c, g, scalar);
    OneItemText(g);
    OneItemFair(g, maxNesting, allow);
    var t := Plain(g, ONE_ITEM, g.startDepth).value;
    assert ReadsBack(c, g, scalar, maxNesting, allow, ONE_ITEM);
    ResultParses(c, t, maxNesting, allow, Meaning(scalar, ONE_ITEM));
    OneItemMeans(scalar);
    OneItemSolid(c, scalar, t);
    var lead, close := g.arrayNl + Indent(g, g.startDepth + 1), CloseText(g, g.arrayNl, g.startDepth);
    SolidFive([LBRACKET], lead, EMPTY, close, [RBRACKET]);
    SolidBytes();
    SolidNone(lead);
    AllWsParts(g.arrayNl, Indent(g, g.startDepth + 1));
    IndentEnds(g, g.startDepth);
    AllWsParts(Indent(g, g.startDepth), g.indent);
  }

  lemma OneItemMeans(scalar: Value -> bytes)
    ensures Meaning(scalar, ONE_ITEM) == V.List([V.Atom(scalar(Str([])))])
  {
  }

  lemma IndentEnds(g: Config, n: nat)
    ensures Indent(g, n + 1) == Indent(g, n) + g.indent
  {
  }

  /** A line that parses to a value is a document with that value. */
  lemma ResultParses(c: V.Codec, t: bytes, maxNesting: nat, allow: bool, v: V.Value)
    requires LineResult(c, t, maxNesting, allow) == Ok(v)
    ensures ParseDoc(t).Some? && V.ValueOf(c, ParseDoc(t).value.root) == v
  {
    hide ParseDoc, Sinks.TextOutcome, ValueSinks.RefusedRepeat, Mended.ReadRoot, V.ValueOf, V.Depth, V.Unique;
    ValueSinks.DriveAccepts(c, t, maxNesting, allow);
    Mended.ReadRootIs(t);
  }

  // ----- hashes -----

  function OnePair(k: bytes): Value {
    Hash([Pair(StrKey(0, k, false), Str([]))])
  }

  /** What precedes the key of a one-member Hash's text, and what follows it. */
  ghost function BeforeKey(g: Config): bytes {
    g.objectNl + Indent(g, g.startDepth + 1)
  }

  ghost function AfterKey(g: Config): bytes {
    g.spaceBefore + [COLON] + g.space + EMPTY + (CloseText(g, g.objectNl, g.startDepth) + [RBRACE])
  }

  lemma OnePairText(g: Config, k: bytes)
    requires !TooDeep(g, g.startDepth + 1) && QuotedText(g, []) == EMPTY
    ensures Plain(g, OnePair(k), g.startDepth) == Ok([LBRACE] + (BeforeKey(g) + QuotedText(g, k) + AfterKey(g)))
  {
    hide Plain, PlainPairs, QuotedText, Indent, CloseText;
    var d, ps := g.startDepth, OnePair(k).pairs;
    PlainHash(g, ps, d);
    PlainPairsStep(g, ps, 0, d + 1);
    PlainPairsStep(g, ps, 1, d + 1);
    PlainScalar(g, Str([]), d + 1);
    assert !Refuses(g, ps, 0);
    FlatPair(g.objectNl + Indent(g, d + 1), QuotedText(g, k), g.spaceBefore, g.space, CloseText(g, g.objectNl, d) + [RBRACE], g.objectNl, Indent(g, d + 1));
  }

  lemma FlatPair(lead: bytes, q: bytes, before: bytes, space: bytes, close: bytes, nl: bytes, indent: bytes)
    requires lead == nl + indent
    ensures [LBRACE] + (([] + nl + indent + q + before + [COLON] + space) + EMPTY + []) + close
            == [LBRACE] + (lead + q + (before + [COLON] + space + EMPTY + close))
  {
  }

  lemma OnePairFair(g: Config, maxNesting: nat, allow: bool, k: bytes)
    requires !OnlyScalars(g, maxNesting) && Plain(g, OnePair(k), g.startDepth).Ok?
    ensures Fair(g, maxNesting, allow, OnePair(k))
  {
    hide Plain;
    var v := OnePair(k);
    assert |v.pairs| == 1 && v.pairs[0].value == Str([]);
    assert Spelled(Str([])) && Within(Str([]), maxNesting - 1) && NoRepeats(Str([]));
    assert !KeysRepeat(v.pairs);
  }

  lemma OnePairMeans(scalar: Value -> bytes, k: bytes)
    ensures Meaning(scalar, OnePair(k)) == V.Dict(map[k := V.Atom(scalar(Str([])))])
  {
    var ps := OnePair(k).pairs;
    assert KeyTexts(ps) == [k];
    assert V.MapOf([k], [V.Atom(scalar(Str([])))]) == map[k := V.Atom(scalar(Str([])))];
    assert Meaning(scalar, ps[0].value) == V.Atom(scalar(Str([])));
    assert seq(|ps|, i requires 0 <= i < |ps| => assert ps[i].value < ps[i]; Meaning(scalar, ps[i].value)) == [V.Atom(scalar(Str([])))];
  }

  /** What a document is whose value is an object of one member: every entry's key is that member's. */
  ghost predicate PairDoc(c: V.Codec, k: bytes, t: bytes, d: Doc) {
    && WfDoc(d) && PrintDoc(d) == t && d.root.Group? && d.root.obj && d.root.entries != []
    && forall i :: 0 <= i < |d.root.entries| ==> d.root.entries[i].head.Key? && c.decode(d.root.entries[i].head.text) == k
  }

  lemma IsPairDoc(c: V.Codec, k: bytes, x: V.Value, t: bytes)
    requires ParseDoc(t).Some? && V.ValueOf(c, ParseDoc(t).value.root) == V.Dict(map[k := x])
    ensures PairDoc(c, k, t, ParseDoc(t).value)
    ensures |ParseDoc(t).value.root.entries| == 1 ==> V.ValueOf(c, ParseDoc(t).value.root.entries[0].value) == x
  {
    hide ParseDoc, V.ValueOf, V.ValuesOf, V.MapOf, Print, PrintDoc, AllWs;
    DocSound(t);
    var d := ParseDoc(t).value;
    var n := d.root;
    GroupOf(c, n);
    V.ValueOfGroup(c, n);
    var ks, vs := V.Keys(c, n.entries), V.ValuesOf(c, n.entries);
    V.MapOfKeys(ks, vs);
    assert k in map[k := x];
    assert forall key :: key in ks ==> key in map[k := x];
    forall i | 0 <= i < |n.entries|
      ensures n.entries[i].head.Key? && c.decode(n.entries[i].head.text) == k
    {
      assert WfEntry(true, n.entries[i]);
      assert ks[i] in ks;
    }
    if |n.entries| == 1 {
      V.ValuesOfAt(c, n.entries, 0);
      assert V.Distinct(ks);
      V.MapOfAt(ks, vs, 0);
    }
  }

  /** A pair document's text, around its first key. */
  ghost function FirstKey(d: Doc): bytes
    requires d.root.Group? && d.root.entries != [] && d.root.entries[0].head.Key?
  {
    d.root.entries[0].head.text
  }

  ghost function PastKey(d: Doc): bytes
    requires d.root.Group? && d.root.entries != [] && d.root.entries[0].head.Key?
  {
    var e := d.root.entries[0];
    e.head.pre + [COLON] + e.head.post + Print(e.value) + e.trail + Tail(Texts(d.root.entries[1..])) + [RBRACE] + d.trail
  }

  lemma PairText(d: Doc)
    requires WfDoc(d) && d.root.Group? && d.root.obj && d.root.entries != [] && d.root.entries[0].head.Key?
    ensures PrintDoc(d) == d.lead + ([LBRACE] + (d.root.entries[0].lead + FirstKey(d) + PastKey(d)))
    ensures IsString(FirstKey(d)) && AllWs(d.root.entries[0].lead)
  {
    hide Print, Texts, Tail, PrintEntry, IsString, AllWs;
    var n := d.root;
    var e, more := n.entries[0], n.entries[1..];
    assert WfEntry(true, e);
    assert n.entries == [e] + more;
    PrintsGroup(true, n.gap, n.entries);
    TextsCons(e, more);
    assert Texts(n.entries) != [];
    assert Body(Texts(n.entries)) == PrintEntry(e) + Tail(Texts(more)) by {
      assert ([PrintEntry(e)] + Texts(more))[1..] == Texts(more);
    }
    PrintsEntry(e);
    FlatEntry(d.lead, e.lead, e.head.text, e.head.pre, e.head.post, Print(e.value), e.trail, Tail(Texts(more)), d.trail);
  }

  lemma FlatEntry(a: bytes, lead: bytes, k: bytes, pre: bytes, post: bytes, v: bytes, trail: bytes, more: bytes, z: bytes)
    ensures a + ([LBRACE] + ((lead + (k + pre + [COLON] + post) + v + trail) + more) + [RBRACE]) + z
            == a + ([LBRACE] + (lead + k + (pre + [COLON] + post + v + trail + more + [RBRACE] + z)))
  {
  }

  /** Two texts `w + string + rest` that agree: the same whitespace, string and rest. */
  lemma SameString(w: bytes, k: bytes, r: bytes, w': bytes, k': bytes, r': bytes)
    requires AllWs(w) && AllWs(w') && IsString(k) && IsString(k') && w + k + r == w' + k' + r'
    ensures w == w' && k == k' && r == r'
  {
    hide IsString, AllWs;
    assert !StartsWs(k + r) && !StartsWs(k' + r') by { StringStart(k, r); StringStart(k', r'); }
    assert w + k + r == w + (k + r) && w' + k' + r' == w' + (k' + r');
    WsCut(w, k + r);
    WsCut(w', k' + r');
    StringReads(k, r);
    StringReads(k', r');
  }

  lemma StringStart(k: bytes, r: bytes)
    requires IsString(k)
    ensures !StartsWs(k + r) && k != [] && k[0] == QUOTE
  {
  }

  /** No whitespace in front of the brace: the text starts with it. */
  lemma NoLead(d: Doc, t: bytes)
    requires AllWs(d.lead) && d.lead + ([LBRACE] + t) == PrintDoc(d) && PrintDoc(d) != [] && PrintDoc(d)[0] == LBRACE
    ensures d.lead == [] && PrintDoc(d)[1..] == t
  {
    hide PrintDoc;
    BraceFirst(d.lead, [LBRACE] + t);
    assert [] + ([LBRACE] + t) == [LBRACE] + t;
  }

  lemma BraceFirst(w: bytes, u: bytes)
    requires AllWs(w) && u != [] && (w + u)[0] == LBRACE
    ensures w == []
  {
    assert |w| > 0 ==> IsWs(w[0]);
  }

  /**
    The document that `{lead "k" rest` reads as, for two keys: what precedes the key is
    whitespace, or the first key would be read out of it and be the same for both.
   */
  lemma LeadIsWs(c: V.Codec, lead: bytes, q: bytes, q': bytes, rest: bytes, k: bytes, d: Doc, d': Doc)
    requires IsString(q) && IsString(q') && q == EMPTY && k != []
    requires forall t :: IsString(t) && c.decode(t) == [] ==> t == EMPTY
    requires PairDoc(c, [], [LBRACE] + (lead + q + rest), d) && PairDoc(c, k, [LBRACE] + (lead + q' + rest), d')
    requires c.decode(EMPTY) == []
    ensures AllWs(lead)
  {
    hide Print, Texts, IsString, AllWs, PrintDoc, WfDoc;
    KeyFirst(c, [], [LBRACE] + (lead + q + rest), d);
    KeyFirst(c, k, [LBRACE] + (lead + q' + rest), d');
    assert FirstKey(d) == EMPTY;
    var n := WsLen(lead);
    WsAlone(lead);
    var w, solid := lead[..n], lead[n..];
    assert lead == w + solid;
    if solid == [] {
      assert lead == w;
    } else {
      PastLead(w, solid, q, rest, d.root.entries[0].lead, EMPTY, PastKey(d));
      PastLead(w, solid, q', rest, d'.root.entries[0].lead, FirstKey(d'), PastKey(d'));
      SameTwo(solid, q, q', rest, PastKey(d));
      SameKey(solid + q' + rest, FirstKey(d'), PastKey(d'));
    }
  }

  /** The same text cut after the whitespace in front of its first solid byte. */
  lemma PastLead(w: bytes, solid: bytes, q: bytes, rest: bytes, lead: bytes, key: bytes, past: bytes)
    requires AllWs(w) && solid != [] && !StartsWs(solid) && AllWs(lead) && IsString(key)
    requires (w + solid) + q + rest == lead + key + past
    ensures solid + q + rest == key + past
  {
    hide IsString, AllWs;
    assert (w + solid) + q + rest == w + (solid + q + rest) && lead + key + past == lead + (key + past);
    assert !StartsWs(solid + q + rest);
    StringStart(key, past);
    WsCut(w, solid + q + rest);
    WsCut(lead, key + past);
  }

  /** A text that starts with two quotes has the empty string for its first key. */
  lemma SameKey(t: bytes, key: bytes, past: bytes)
    requires IsString(key) && t == key + past && |t| >= 2 && t[..2] == EMPTY
    ensures key == EMPTY
  {
    hide IsString;
    assert IsString(EMPTY) by { EmptyIsString(); }
    assert t == EMPTY + t[2..];
    StringReads(EMPTY, t[2..]);
    StringReads(key, past);
  }

  lemma EmptyIsString()
    ensures IsString(EMPTY)
  {
    assert EMPTY[1..] == [QUOTE];
  }

  /** The first two bytes of `solid + q + rest` are quotes, so those of `solid + q' + rest` are. */
  lemma SameTwo(solid: bytes, q: bytes, q': bytes, rest: bytes, past: bytes)
    requires solid != [] && solid + q + rest == EMPTY + past && q == EMPTY && IsString(q')
    ensures |solid + q' + rest| >= 2 && (solid + q' + rest)[..2] == EMPTY
  {
    StringStart(q', rest);
    assert (solid + q + rest)[0] == QUOTE && (solid + q + rest)[1] == QUOTE;
    assert solid[0] == QUOTE;
    if |solid| > 1 {
      assert (solid + q + rest)[1] == solid[1];
      assert (solid + q' + rest)[1] == solid[1];
    } else {
      assert (solid + q' + rest)[1] == q'[0];
    }
    assert (solid + q' + rest)[0] == solid[0];
  }

  lemma KeyFirst(c: V.Codec, k: bytes, t: bytes, d: Doc)
    requires PairDoc(c, k, t, d) && t != [] && t[0] == LBRACE
    ensures d.root.Group? && d.root.obj && d.root.entries != [] && d.root.entries[0].head.Key?
    ensures d.lead == [] && t[1..] == d.root.entries[0].lead + FirstKey(d) + PastKey(d)
    ensures IsString(FirstKey(d)) && AllWs(d.root.entries[0].lead) && c.decode(FirstKey(d)) == k
  {
    hide Print, PrintDoc, Texts, IsString, AllWs, Wf;
    PairText(d);
    NoLead(d, d.root.entries[0].lead + FirstKey(d) + PastKey(d));
  }

  /** The same document with another first key. */
  function WithKey(d: Doc, q: bytes): Doc
    requires d.root.Group? && d.root.entries != [] && d.root.entries[0].head.Key?
  {
    var e := d.root.entries[0];
    d.(root := d.root.(entries := [e.(head := e.head.(text := q))] + d.root.entries[1..]))
  }

  lemma WithKeyText(d: Doc, q: bytes)
    requires WfDoc(d) && d.root.Group? && d.root.obj && d.root.entries != [] && d.root.entries[0].head.Key? && IsString(q)
    ensures WfDoc(WithKey(d, q)) && PastKey(WithKey(d, q)) == PastKey(d) && FirstKey(WithKey(d, q)) == q
    ensures WithKey(d, q).root.entries[0].lead == d.root.entries[0].lead
    ensures WithKey(d, q).root.entries[1..] == d.root.entries[1..]
  {
    hide Print, Texts, Tail, IsString, AllWs, IsToken;
    var n, n' := d.root, WithKey(d, q).root;
    assert n'.entries[1..] == n.entries[1..];
    assert WfEntry(true, n.entries[0]);
    forall i | 0 <= i < |n'.entries|
      ensures WfEntry(true, n'.entries[i])
    {
      assert WfEntry(true, n.entries[i]);
    }
  }

  /** With whitespace in front of the key, a text that reads as one member under two keys has one entry. */
  lemma OneEntry(c: V.Codec, lead: bytes, q: bytes, q': bytes, rest: bytes, k: bytes, k': bytes, d: Doc, d': Doc)
    requires AllWs(lead) && IsString(q) && IsString(q') && k != k'
    requires PairDoc(c, k, [LBRACE] + (lead + q + rest), d) && PairDoc(c, k', [LBRACE] + (lead + q' + rest), d')
    ensures |d.root.entries| == 1 && FirstKey(d) == q && PastKey(d) == rest && d.root.entries[0].lead == lead
  {
    hide Print, Texts, Tail, IsString, AllWs, PrintDoc, WfDoc, PastKey;
    var t, t' := [LBRACE] + (lead + q + rest), [LBRACE] + (lead + q' + rest);
    KeyFirst(c, k, t, d);
    KeyFirst(c, k', t', d');
    assert t[1..] == lead + q + rest && t'[1..] == lead + q' + rest;
    SameString(lead, q, rest, d.root.entries[0].lead, FirstKey(d), PastKey(d));
    var swapped := WithKey(d, q');
    WithKeyText(d, q');
    PairText(swapped);
    assert PrintDoc(swapped) == t';
    DocReads(swapped);
    DocReads(d');
    assert d' == swapped;
    if |d.root.entries| > 1 {
      SecondKey(c, k, t, d);
    }
  }

  lemma SecondKey(c: V.Codec, k: bytes, t: bytes, d: Doc)
    requires PairDoc(c, k, t, d) && |d.root.entries| > 1
    ensures d.root.entries[1..][0].head.Key? && c.decode(d.root.entries[1..][0].head.text) == k
  {
    hide Print, PrintDoc, Wf;
    assert d.root.entries[1..][0] == d.root.entries[1];
  }

  lemma PairSolid(d: Doc)
    requires WfDoc(d) && d.root.Group? && d.root.obj && |d.root.entries| == 1 && d.root.entries[0].head.Key?
    requires d.root.entries[0].value == Leaf(EMPTY)
    ensures Solid(PastKey(d)) == 4
  {
    hide Print, Texts, IsString, Solid, Wf, IsToken;
    var e := d.root.entries[0];
    assert WfEntry(true, e) by { WfEntryAt(d.root, 0); }
    assert d.root.entries[1..] == [];
    assert Tail(Texts([])) == [] by { Syntax.NoTexts(); }
    PrintsLeaf(EMPTY);
    var a, b := e.head.pre + [COLON] + e.head.post + EMPTY + e.trail, [RBRACE];
    assert PastKey(d) == a + b + d.trail;
    SolidFive(e.head.pre, [COLON], e.head.post, EMPTY, e.trail);
    SolidAdds(a, b);
    SolidAdds(a + b, d.trail);
    SolidNone(e.head.pre);
    SolidNone(e.head.post);
    SolidNone(e.trail);
    SolidNone(d.trail);
    SolidBytes();
  }

  lemma WfEntryAt(n: Node, i: nat)
    requires Wf(n) && n.Group? && i < |n.entries|
    ensures WfEntry(n.obj, n.entries[i])
  {
    hide WfEntry;
  }

  lemma AfterSolid(g: Config)
    requires Solid(AfterKey(g)) == 4
    ensures AllWs(g.spaceBefore) && AllWs(g.space)
  {
    hide Solid, CloseText, AllWs;
    var close := CloseText(g, g.objectNl, g.startDepth);
    SolidFive(g.spaceBefore, [COLON], g.space, EMPTY, close + [RBRACE]);
    SolidAdds(close, [RBRACE]);
    SolidBytes();
    SolidNone(g.spaceBefore);
    SolidNone(g.space);
  }

  /** What reads back under key `k`. */
  lemma PairReads(c: V.Codec, g: Config, scalar: Value -> bytes, maxNesting: nat, allow: bool, k: bytes) returns (d: Doc)
    requires Escapes(c, g) && OneEmptySpelling(c, scalar)
    requires !OnlyScalars(g, maxNesting) && AllReadBack(c, g, scalar, maxNesting, allow)
    ensures PairDoc(c, k, [LBRACE] + (BeforeKey(g) + QuotedText(g, k) + AfterKey(g)), d)
    ensures |d.root.entries| == 1 ==> V.ValueOf(c, d.root.entries[0].value) == V.Atom(scalar(Str([])))
    ensures IsString(QuotedText(g, k)) && QuotedText(g, []) == EMPTY && c.decode(EMPTY) == []
  {
    hide Plain, ParseDoc, OneEmptySpelling, QuotedText, BeforeKey, AfterKey, LineResult, Fair, V.ValueOf, Meaning, PairDoc, OnePair;
    EmptyQuoted(c, g, scalar);
    OnePairText(g, k);
    OnePairFair(g, maxNesting, allow, k);
    var v := OnePair(k);
    var t := Plain(g, v, g.startDepth).value;
    assert ReadsBack(c, g, scalar, maxNesting, allow, v);
    ResultParses(c, t, maxNesting, allow, Meaning(scalar, v));
    OnePairMeans(scalar, k);
    IsPairDoc(c, k, V.Atom(scalar(Str([]))), t);
    d := ParseDoc(t).value;
  }

  /** If one-member Hashes read back under two keys, the strings Hashes are formatted with are whitespace. */
  lemma HashesForceWs(c: V.Codec, g: Config, scalar: Value -> bytes, maxNesting: nat, allow: bool)
    requires Escapes(c, g) && OneEmptySpelling(c, scalar)
    requires !OnlyScalars(g, maxNesting) && AllReadBack(c, g, scalar, maxNesting, allow)
    ensures AllWs(g.objectNl) && AllWs(g.spaceBefore) && AllWs(g.space)
  {
    hide AllReadBack, Escapes, QuotedText, AfterKey, Indent, V.ValueOf, Solid, AllWs, IsString, Print, Texts, IsToken;
    var k: bytes := [97];
    var d := PairReads(c, g, scalar, maxNesting, allow, []);
    var d' := PairReads(c, g, scalar, maxNesting, allow, k);
    var q, q' := QuotedText(g, []), QuotedText(g, k);
    LeadIsWs(c, BeforeKey(g), q, q', AfterKey(g), k, d, d');
    AllWsParts(g.objectNl, Indent(g, g.startDepth + 1));
    OneEntry(c, BeforeKey(g), q, q', AfterKey(g), [], k, d, d');
    LeafOf(c, scalar, d.root.entries[0].value, d.root);
    PairSolid(d);
    AfterSolid(g);
  }

  // ----- the exact condition -----

  /**
    Every value that generates and that the parse options allow is read back, if and only if
    the formatting strings are whitespace or are never used.
   */
  lemma WhitespaceDecides(c: V.Codec, g: Config, scalar: Value -> bytes, maxNesting: nat, allow: bool)
    requires Escapes(c, g) && Reads(c, g, scalar) && OneEmptySpelling(c, scalar)
    ensures AllReadBack(c, g, scalar, maxNesting, allow) <==> WsFormat(g) || OnlyScalars(g, maxNesting)
  {
    hide Plain, Escapes, Reads, OneEmptySpelling, LineResult, Meaning, Within, NoRepeats, Spelled, AllWs;
    if WsFormat(g) || OnlyScalars(g, maxNesting) {
      forall v | Fair(g, maxNesting, allow, v)
        ensures ReadsBack(c, g, scalar, maxNesting, allow, v)
      {
        if OnlyScalars(g, maxNesting) {
          FairIsScalar(g, maxNesting, allow, v);
          ScalarReadsBack(c, g, scalar, maxNesting, allow, v);
        } else {
          TextResult(c, g, scalar, v, g.startDepth, maxNesting, allow);
        }
      }
    } else if AllReadBack(c, g, scalar, maxNesting, allow) {
      ArraysForceWs(c, g, scalar, maxNesting, allow);
      HashesForceWs(c, g, scalar, maxNesting, allow);
    }
  }

  /** Walking the lines generated for `vs` gives every value back. */
  ghost predicate WalksBack(c: V.Codec, g: Config, scalar: Value -> bytes, maxNesting: nat, allow: bool, vs: seq<Value>)
    requires PlainAll(g, vs).Ok?
  {
    var docs := Walked(Unlines(PlainAll(g, vs).value));
    && |docs| == |vs|
    && forall i :: 0 <= i < |vs| ==> LineResult(c, docs[i].text, maxNesting, allow) == Ok(Meaning(scalar, vs[i]))
  }

  ghost predicate AllWalkBack(c: V.Codec, g: Config, scalar: Value -> bytes, maxNesting: nat, allow: bool) {
    forall vs :: PlainAll(g, vs).Ok? && (forall i :: 0 <= i < |vs| ==> Fair(g, maxNesting, allow, vs[i])) ==>
      WalksBack(c, g, scalar, maxNesting, allow, vs)
  }

  /**
    Walking inverts generating for every list of values, under options the framing check
    accepts, if and only if the formatting strings are whitespace or are never used.
   */
  lemma WalkInvertsExactly(c: V.Codec, g: Config, scalar: Value -> bytes, maxNesting: nat, allow: bool)
    requires !BreaksLineFraming(g) && Escapes(c, g) && Reads(c, g, scalar) && OneEmptySpelling(c, scalar)
    ensures AllWalkBack(c, g, scalar, maxNesting, allow) <==> WsFormat(g) || OnlyScalars(g, maxNesting)
  {
    hide Plain, PlainAll, BreaksLineFraming, Escapes, Reads, OneEmptySpelling, WsFormat, OnlyScalars, WalksBack, ReadsBack, Spelled, Within, NoRepeats;
    WhitespaceDecides(c, g, scalar, maxNesting, allow);
    if AllReadBack(c, g, scalar, maxNesting, allow) {
      forall vs | PlainAll(g, vs).Ok? && (forall i :: 0 <= i < |vs| ==> Fair(g, maxNesting, allow, vs[i]))
        ensures WalksBack(c, g, scalar, maxNesting, allow, vs)
      {
        EachWalksBack(c, g, scalar, maxNesting, allow, vs);
      }
    }
    if AllWalkBack(c, g, scalar, maxNesting, allow) {
      forall v | Fair(g, maxNesting, allow, v)
        ensures ReadsBack(c, g, scalar, maxNesting, allow, v)
      {
        OneGenerates(g, v, maxNesting, allow);
        assert [v][0] == v;
        assert WalksBack(c, g, scalar, maxNesting, allow, [v]);
        OneWalksBack(c, g, scalar, maxNesting, allow, v);
      }
    }
  }

  lemma OneGenerates(g: Config, v: Value, maxNesting: nat, allow: bool)
    requires Fair(g, maxNesting, allow, v)
    ensures PlainAll(g, [v]).Ok?
  {
    hide Plain, Spelled, Within, NoRepeats;
    assert [v][..0] == [] && PlainAll(g, []) == Ok([]);
  }

  lemma EachWalksBack(c: V.Codec, g: Config, scalar: Value -> bytes, maxNesting: nat, allow: bool, vs: seq<Value>)
    requires !BreaksLineFraming(g) && Escapes(c, g) && PlainAll(g, vs).Ok?
    requires AllReadBack(c, g, scalar, maxNesting, allow)
    requires forall i :: 0 <= i < |vs| ==> Fair(g, maxNesting, allow, vs[i])
    ensures WalksBack(c, g, scalar, maxNesting, allow, vs)
  {
    hide Plain, PlainAll, BreaksLineFraming, Escapes, LineResult, Walked, Unlines, Meaning, Spelled, Within, NoRepeats;
    FramingExact(c, g, vs);
    forall i | 0 <= i < |vs|
      ensures LineResult(c, Walked(Unlines(PlainAll(g, vs).value))[i].text, maxNesting, allow) == Ok(Meaning(scalar, vs[i]))
    {
      assert ReadsBack(c, g, scalar, maxNesting, allow, vs[i]);
    }
  }

  lemma OneWalksBack(c: V.Codec, g: Config, scalar: Value -> bytes, maxNesting: nat, allow: bool, v: Value)
    requires !BreaksLineFraming(g) && Escapes(c, g) && PlainAll(g, [v]).Ok? && Fair(g, maxNesting, allow, v)
    requires WalksBack(c, g, scalar, maxNesting, allow, [v])
    ensures ReadsBack(c, g, scalar, maxNesting, allow, v)
  {
    hide Plain, PlainAll, BreaksLineFraming, Escapes, LineResult, Walked, Unlines, Meaning, Spelled, Within, NoRepeats;
    assert forall i :: 0 <= i < |[v]| ==> Spelled([v][i]);
    FramingExact(c, g, [v]);
    assert [v][0] == v;
  }
}
