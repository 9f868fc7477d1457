/**
  The reading direction: a parser for exactly the text `Syntax` prints. It stands for the
  grammar the tokenizer, the pull reader and the pointer resolver share. That it inverts
  `Print` means a document has one reading, so spans and values are functions of its bytes.
 */
module Grammar {
  import opened Bytes
  import opened Syntax

  datatype Parsed<+T> = Fail | Got(value: T, rest: bytes)

  function ParseNode(s: bytes): (r: Parsed<Node>)
    ensures r.Got? ==> |r.rest| < |s|
    decreases |s|, 0
  {
    if s == [] then Fail
    else if s[0] == LBRACE || s[0] == LBRACKET then
      var obj := s[0] == LBRACE;
      var gap := WsLen(s[1..]);
      var inner := s[1..][gap..];
      if inner != [] && inner[0] == Closer(obj) then
        Got(Group(obj, s[1..][..gap], []), inner[1..])
      else
        var p := ParseEntries(obj, s[1..]);
        if p.Got? && p.rest != [] && p.rest[0] == Closer(obj) then
          Got(Group(obj, [], p.value), p.rest[1..])
        else Fail
    else
      var n := TokenLen(s);
      if n == 0 then Fail else Got(Leaf(s[..n]), s[n..])
  }

  function ParseEntries(obj: bool, s: bytes): (r: Parsed<seq<Entry>>)
    ensures r.Got? ==> |r.rest| < |s| && r.value != []
    decreases |s|, 3
  {
    var first := ParseEntry(obj, s);
    if first.Fail? then Fail
    else if first.rest != [] && first.rest[0] == COMMA then
      var more := ParseEntries(obj, first.rest[1..]);
      if more.Fail? then Fail else Got([first.value] + more.value, more.rest)
    else Got([first.value], first.rest)
  }

  function ParseEntry(obj: bool, s: bytes): (r: Parsed<Entry>)
    ensures r.Got? ==> |r.rest| < |s|
    decreases |s|, 2
  {
    var lead := WsLen(s);
    var head := ParseLabel(obj, s[lead..]);
    if head.Fail? then Fail
    else
      var value := ParseNode(head.rest);
      if value.Fail? then Fail
      else
        var trail := WsLen(value.rest);
        Got(Entry(s[..lead], head.value, value.value, value.rest[..trail]), value.rest[trail..])
  }

  function ParseLabel(obj: bool, s: bytes): (r: Parsed<Label>)
    ensures r.Got? ==> |r.rest| <= |s|
  {
    if !obj then Got(Bare, s)
    else
      var n := StringLen(s);
      var pre := WsLen(s[n..]);
      var colon := s[n..][pre..];
      if n == 0 || colon == [] || colon[0] != COLON then Fail
      else
        var post := WsLen(colon[1..]);
        Got(Key(s[..n], s[n..][..pre], colon[1..][..post]), colon[1..][post..])
  }

  function ParseDoc(s: bytes): Option<Doc> {
    var lead := WsLen(s);
    var root := ParseNode(s[lead..]);
    if root.Got? && WsLen(root.rest) == |root.rest| then Some(Doc(s[..lead], root.value, root.rest))
    else None
  }

  // ----- unfolding, one step at a time -----

  lemma NodeStep(s: bytes)
    requires ParseNode(s).Got?
    ensures s != []
    ensures s[0] == LBRACE || s[0] == LBRACKET ==>
              var obj := s[0] == LBRACE; var gap := WsLen(s[1..]); var inner := s[1..][gap..];
              if inner != [] && inner[0] == Closer(obj)
              then ParseNode(s) == Got(Group(obj, s[1..][..gap], []), inner[1..])
              else var p := ParseEntries(obj, s[1..]);
                   && p.Got? && p.rest != [] && p.rest[0] == Closer(obj)
                   && ParseNode(s) == Got(Group(obj, [], p.value), p.rest[1..])
    ensures s[0] != LBRACE && s[0] != LBRACKET ==>
              TokenLen(s) > 0 && ParseNode(s) == Got(Leaf(s[..TokenLen(s)]), s[TokenLen(s)..])
  {
    hide ParseEntries, WsLen, TokenLen;
  }

  lemma EntriesStep(obj: bool, s: bytes)
    requires ParseEntries(obj, s).Got?
    ensures var first := ParseEntry(obj, s);
            && first.Got?
            && if first.rest != [] && first.rest[0] == COMMA
               then var more := ParseEntries(obj, first.rest[1..]);
                    more.Got? && ParseEntries(obj, s) == Got([first.value] + more.value, more.rest)
               else ParseEntries(obj, s) == Got([first.value], first.rest)
  {
    hide ParseEntry;
  }

  lemma EntryStep(obj: bool, s: bytes)
    requires ParseEntry(obj, s).Got?
    ensures var lead := WsLen(s);
            var head := ParseLabel(obj, s[lead..]);
            && head.Got?
            && var value := ParseNode(head.rest);
            && value.Got?
            && var trail := WsLen(value.rest);
            ParseEntry(obj, s) == Got(Entry(s[..lead], head.value, value.value, value.rest[..trail]), value.rest[trail..])
  {
    hide ParseLabel, ParseNode, WsLen;
  }

  // ----- what is read prints back -----

  lemma {:induction false} NodeSound(s: bytes)
    requires ParseNode(s).Got?
    ensures Wf(ParseNode(s).value)
    ensures s == Print(ParseNode(s).value) + ParseNode(s).rest
    decreases |s|, 0
  {
    NodeStep(s);
    hide ParseNode, ParseEntries, WsLen, TokenLen, IsToken, Texts, Body, Print, WfEntry;
    if s[0] == LBRACE || s[0] == LBRACKET {
      var obj := s[0] == LBRACE;
      var gap := WsLen(s[1..]);
      var inner := s[1..][gap..];
      if inner != [] && inner[0] == Closer(obj) {
        WsAlone(s[1..]);
        EmptyGroup(s, obj, gap);
      } else {
        var p := ParseEntries(obj, s[1..]);
        EntriesSound(obj, s[1..]);
        FullGroup(s, obj, p.value, p.rest);
      }
    } else {
      TokenAlone(s);
      assert Print(Leaf(s[..TokenLen(s)])) == s[..TokenLen(s)] by { PrintsLeaf(s[..TokenLen(s)]); }
    }
  }

  lemma PrintsLeaf(text: bytes)
    ensures Print(Leaf(text)) == text
  {
  }

  lemma EmptyGroup(s: bytes, obj: bool, gap: nat)
    requires s != [] && gap < |s[1..]| && s[0] == Opener(obj) && s[1..][gap] == Closer(obj)
    ensures s == Print(Group(obj, s[1..][..gap], [])) + s[1..][gap..][1..]
  {
    hide Print, Body;
    PrintsGroup(obj, s[1..][..gap], []);
    CutAt(s, 1);
    CutAt(s[1..], gap);
    CutAt(s[1..][gap..], 1);
    Chain3(s, [Opener(obj)], s[1..], s[1..][..gap], s[1..][gap..], [Closer(obj)], s[1..][gap..][1..]);
  }

  lemma FullGroup(s: bytes, obj: bool, es: seq<Entry>, rest: bytes)
    requires s != [] && s[0] == Opener(obj) && rest != [] && rest[0] == Closer(obj)
    requires es != [] && s[1..] == Body(Texts(es)) + rest
    ensures s == Print(Group(obj, [], es)) + rest[1..]
  {
    hide Print, Body, Texts;
    PrintsGroup(obj, [], es);
    CutAt(s, 1);
    CutAt(rest, 1);
    Chain3(s, [Opener(obj)], s[1..], Body(Texts(es)), rest, [Closer(obj)], rest[1..]);
  }

  /** `s` starts with the text of these entries. */
  ghost predicate ReadsEntries(obj: bool, s: bytes, es: seq<Entry>, rest: bytes) {
    && es != []
    && (forall i :: 0 <= i < |es| ==> WfEntry(obj, es[i]))
    && s == Body(Texts(es)) + rest
  }

  lemma ReadsOne(obj: bool, s: bytes, e: Entry, rest: bytes)
    requires WfEntry(obj, e) && s == PrintEntry(e) + rest
    ensures ReadsEntries(obj, s, [e], rest)
  {
    hide WfEntry, Body, Texts, PrintEntry;
    BodyOne(e);
  }

  lemma ReadsMore(obj: bool, s: bytes, e: Entry, after: bytes, more: seq<Entry>, rest: bytes)
    requires WfEntry(obj, e) && s == PrintEntry(e) + after
    requires after != [] && after[0] == COMMA && ReadsEntries(obj, after[1..], more, rest)
    ensures ReadsEntries(obj, s, [e] + more, rest)
  {
    hide WfEntry, Body, Texts, PrintEntry;
    BodyCons(e, more);
    CutAt(after, 1);
    Chain3(s, PrintEntry(e), after, [COMMA], after[1..], Body(Texts(more)), rest);
  }

  lemma {:induction false} EntriesSound(obj: bool, s: bytes)
    requires ParseEntries(obj, s).Got?
    ensures ReadsEntries(obj, s, ParseEntries(obj, s).value, ParseEntries(obj, s).rest)
    decreases |s|, 3
  {
    hide ParseEntry, ParseEntries, WfEntry, ReadsEntries, PrintEntry;
    EntriesStep(obj, s);
    EntrySound(obj, s);
    var first := ParseEntry(obj, s);
    if first.rest != [] && first.rest[0] == COMMA {
      var more := ParseEntries(obj, first.rest[1..]);
      EntriesSound(obj, first.rest[1..]);
      ReadsMore(obj, s, first.value, first.rest, more.value, more.rest);
    } else {
      ReadsOne(obj, s, first.value, first.rest);
    }
  }

  lemma {:induction false} EntrySound(obj: bool, s: bytes)
    requires ParseEntry(obj, s).Got?
    ensures WfEntry(obj, ParseEntry(obj, s).value)
    ensures s == PrintEntry(ParseEntry(obj, s).value) + ParseEntry(obj, s).rest
    decreases |s|, 2
  {
    EntryStep(obj, s);
    hide ParseEntry, ParseLabel, ParseNode, WsLen, PrintEntry, Print, PrintLabel, WfLabel, Wf, AllWs;
    var lead := WsLen(s);
    var head := ParseLabel(obj, s[lead..]);
    var value := ParseNode(head.rest);
    WsAlone(s);
    WsAlone(value.rest);
    LabelSound(obj, s[lead..]);
    NodeSound(head.rest);
    PrintsEntry(ParseEntry(obj, s).value);
    var trail := WsLen(value.rest);
    CutAt(s, lead);
    CutAt(value.rest, trail);
    Chain4(s, s[..lead], s[lead..], PrintLabel(head.value), head.rest, Print(value.value), value.rest,
           value.rest[..trail], value.rest[trail..]);
  }

  lemma LabelSound(obj: bool, s: bytes)
    requires ParseLabel(obj, s).Got?
    ensures WfLabel(obj, ParseLabel(obj, s).value)
    ensures s == PrintLabel(ParseLabel(obj, s).value) + ParseLabel(obj, s).rest
  {
    hide WsLen, StringLen, IsString, AllWs;
    if obj {
      var n := StringLen(s);
      var pre := WsLen(s[n..]);
      var colon := s[n..][pre..];
      var post := WsLen(colon[1..]);
      StringAlone(s);
      WsAlone(s[n..]);
      WsAlone(colon[1..]);
      CutAt(s, n);
      CutAt(s[n..], pre);
      CutAt(colon, 1);
      CutAt(colon[1..], post);
      Chain4(s, s[..n], s[n..], s[n..][..pre], colon, [COLON], colon[1..], colon[1..][..post], colon[1..][post..]);
    }
  }

  lemma {:induction false} QuotedAlone(s: bytes)
    requires QuotedLen(s) > 0
    ensures QuotedLen(s[..QuotedLen(s)]) == QuotedLen(s)
  {
    var n := QuotedLen(s);
    var t := s[..n];
    if s[0] != QUOTE {
      var k := if s[0] == BACKSLASH then 2 else 1;
      QuotedAlone(s[k..]);
      assert t[k..] == s[k..][..n - k];
    }
  }

  lemma StringAlone(s: bytes)
    requires StringLen(s) > 0
    ensures IsString(s[..StringLen(s)])
  {
    QuotedAlone(s[1..]);
    var t := s[..StringLen(s)];
    assert t[1..] == s[1..][..QuotedLen(s[1..])];
  }

  lemma {:induction false} BareAlone(s: bytes)
    ensures BareLen(s[..BareLen(s)]) == BareLen(s)
  {
    if s != [] && IsBare(s[0]) {
      BareAlone(s[1..]);
      var t := s[..BareLen(s)];
      assert t[1..] == s[1..][..BareLen(s[1..])];
    }
  }

  lemma TokenAlone(s: bytes)
    requires TokenLen(s) > 0
    ensures IsToken(s[..TokenLen(s)])
  {
    if s[0] == QUOTE {
      StringAlone(s);
    } else {
      BareAlone(s);
    }
  }

  // ----- what is printed reads back -----

  /** Text that may follow a value: no byte that would lengthen a bare token. */
  ghost predicate Follows(rest: bytes) {
    rest == [] || !IsBare(rest[0])
  }

  lemma {:induction false} QuotedReads(t: bytes, rest: bytes)
    requires t != [] && QuotedLen(t) == |t|
    ensures QuotedLen(t + rest) == |t|
  {
    if t[0] != QUOTE {
      var k := if t[0] == BACKSLASH then 2 else 1;
      QuotedReads(t[k..], rest);
      assert (t + rest)[k..] == t[k..] + rest;
    }
  }

  lemma {:induction false} BareReads(t: bytes, rest: bytes)
    requires BareLen(t) == |t| && Follows(rest)
    ensures BareLen(t + rest) == |t|
  {
    if t == [] {
      assert t + rest == rest;
    } else {
      BareReads(t[1..], rest);
      assert (t + rest)[1..] == t[1..] + rest;
    }
  }

  lemma StringReads(t: bytes, rest: bytes)
    requires IsString(t)
    ensures StringLen(t + rest) == |t|
    ensures (t + rest)[..|t|] == t && (t + rest)[|t|..] == rest
  {
    QuotedReads(t[1..], rest);
    assert (t + rest)[1..] == t[1..] + rest;
  }

  lemma TokenReads(t: bytes, rest: bytes)
    requires IsToken(t) && Follows(rest)
    ensures ParseNode(t + rest) == Got(Leaf(t), rest)
  {
    var s := t + rest;
    if t[0] == QUOTE {
      StringReads(t, rest);
    } else {
      BareReads(t, rest);
    }
    assert s[..|t|] == t && s[|t|..] == rest;
  }

  lemma LabelReads(obj: bool, l: Label, rest: bytes)
    requires WfLabel(obj, l) && !StartsWs(rest)
    ensures ParseLabel(obj, PrintLabel(l) + rest) == Got(l, rest)
    ensures obj ==> PrintLabel(l) != [] && PrintLabel(l)[0] == QUOTE
  {
    if obj {
      assert l.text[0] == QUOTE && |l.text| >= 2;
      hide WsLen, StringLen, AllWs, IsString;
      var after := l.post + rest;
      var colon := [COLON] + after;
      assert PrintLabel(l) + rest == l.text + (l.pre + colon);
      StringReads(l.text, l.pre + colon);
      WsCut(l.pre, colon);
      assert colon[1..] == after;
      WsCut(l.post, rest);
    } else {
      assert [] + rest == rest;
    }
  }

  lemma {:induction false} NodeReads(n: Node, rest: bytes)
    requires Wf(n) && Follows(rest)
    ensures ParseNode(Print(n) + rest) == Got(n, rest)
    decreases n, 0
  {
    hide ParseNode, ParseEntries, Print, Texts, Body;
    match n
    case Leaf(text) =>
      PrintsLeaf(text);
      TokenReads(text, rest);
    case Group(obj, gap, es) =>
      if es == [] {
        EmptyReads(obj, gap, rest);
      } else {
        EntriesRead(obj, es, [Closer(obj)] + rest);
        GroupReads(obj, es, rest);
      }
  }

  lemma EmptyReads(obj: bool, gap: bytes, rest: bytes)
    requires AllWs(gap)
    ensures ParseNode(Print(Group(obj, gap, [])) + rest) == Got(Group(obj, gap, []), rest)
  {
    hide WsLen, AllWs, Print, ParseEntries, TokenLen, Texts;
    PrintsGroup(obj, gap, []);
    var close := [Closer(obj)] + rest;
    var s := Print(Group(obj, gap, [])) + rest;
    assert s[1..] == gap + close;
    assert close[1..] == rest;
    WsCut(gap, close);
  }

  /** Reading a group, once its entries are known to read back. */
  lemma GroupReads(obj: bool, es: seq<Entry>, rest: bytes)
    requires es != [] && WfEntry(obj, es[0])
    requires var close := [Closer(obj)] + rest;
             ParseEntries(obj, Body(Texts(es)) + close) == Got(es, close)
    ensures ParseNode(Print(Group(obj, [], es)) + rest) == Got(Group(obj, [], es), rest)
  {
    hide WsLen, Print, ParseEntries, TokenLen, Texts, Body, WfEntry;
    var close := [Closer(obj)] + rest;
    var s := Print(Group(obj, [], es)) + rest;
    PrintsGroup(obj, [], es);
    assert close[1..] == rest;
    assert s[1..] == Body(Texts(es)) + close;
    BodyFirst(obj, es, close);
  }

  /** A non-empty body cannot be taken for a gap and a closer. */
  lemma BodyFirst(obj: bool, es: seq<Entry>, close: bytes)
    requires es != [] && WfEntry(obj, es[0])
    ensures var s := Body(Texts(es)) + close; var g := WsLen(s);
            g < |s| && s[g] != Closer(obj)
  {
    hide Print, PrintEntry, WsLen, Wf, WfLabel, AllWs, Tail, PrintLabel, Texts;
    var e := es[0];
    assert es == [e] + es[1..];
    TextsConcat([e], es[1..]);
    TextsOne(e);
    PrintsEntry(e);
    FirstByte(e.value);
    var more := Tail(Texts(es)[1..]) + close;
    var t := PrintLabel(e.head) + (Print(e.value) + (e.trail + more));
    HeadFirst(obj, e);
    assert Body(Texts(es)) + close == e.lead + t;
    WsCut(e.lead, t);
  }

  /** An entry's text, past its leading whitespace, starts with a quote or with its value. */
  lemma HeadFirst(obj: bool, e: Entry)
    requires WfEntry(obj, e)
    ensures obj ==> PrintLabel(e.head) != [] && PrintLabel(e.head)[0] == QUOTE
    ensures !obj ==> PrintLabel(e.head) == []
  {
    hide ParseLabel;
    LabelReads(obj, e.head, []);
  }

  lemma {:induction false} EntriesRead(obj: bool, es: seq<Entry>, rest: bytes)
    requires es != [] && forall i :: 0 <= i < |es| ==> WfEntry(obj, es[i])
    requires rest != [] && (rest[0] == RBRACE || rest[0] == RBRACKET)
    ensures ParseEntries(obj, Body(Texts(es)) + rest) == Got(es, rest)
    decreases es, 2
  {
    hide WfEntry, PrintEntry, ParseEntry, Body, Texts;
    var more := es[1..];
    if more == [] {
      assert es == [es[0]];
      BodyOne(es[0]);
      EntryReads(obj, es[0], rest);
    } else {
      EntriesRead(obj, more, rest);
      assert [es[0]] + more == es;
      BodyCons(es[0], more);
      var after := [COMMA] + (Body(Texts(more)) + rest);
      assert Body(Texts(es)) + rest == PrintEntry(es[0]) + after;
      EntryReads(obj, es[0], after);
      assert after[1..] == Body(Texts(more)) + rest;
    }
  }

  lemma {:induction false} EntryReads(obj: bool, e: Entry, rest: bytes)
    requires WfEntry(obj, e)
    requires rest != [] && (rest[0] == COMMA || rest[0] == RBRACE || rest[0] == RBRACKET)
    ensures ParseEntry(obj, PrintEntry(e) + rest) == Got(e, rest)
    decreases e, 1
  {
    hide PrintEntry, Print, ParseNode, ParseLabel, Wf, PrintLabel, WfLabel, AllWs, WsLen;
    var after := e.trail + rest;
    var value := Print(e.value) + after;
    var head := PrintLabel(e.head) + value;
    assert PrintEntry(e) + rest == e.lead + head by { PrintsEntry(e); }
    TrailFollows(e.trail, rest);
    NodeReads(e.value, after);
    FirstByte(e.value);
    LabelReads(obj, e.head, value);
    HeadFirst(obj, e);
    WsCut(e.lead, head);
    WsCut(e.trail, rest);
  }

  lemma TrailFollows(trail: bytes, rest: bytes)
    requires AllWs(trail) && rest != []
    requires rest[0] == COMMA || rest[0] == RBRACE || rest[0] == RBRACKET
    ensures Follows(trail + rest) && !StartsWs(rest)
  {
  }

  // ----- whole documents -----

  /** The text of a document determines it: parsing inverts printing. */
  lemma DocReads(d: Doc)
    requires WfDoc(d)
    ensures ParseDoc(PrintDoc(d)) == Some(d)
  {
    hide Print, Wf, ParseNode, WsLen;
    var s := Print(d.root) + d.trail;
    FirstByte(d.root);
    NodeReads(d.root, d.trail);
    assert PrintDoc(d) == d.lead + s;
    WsCut(d.lead, s);
    assert d.trail + [] == d.trail;
    WsCut(d.trail, []);
  }

  /** Whatever parses is well formed and prints back byte for byte. */
  lemma DocSound(s: bytes)
    requires ParseDoc(s).Some?
    ensures WfDoc(ParseDoc(s).value) && PrintDoc(ParseDoc(s).value) == s
  {
    hide ParseNode, Print, Wf, WsLen, AllWs;
    var lead := WsLen(s);
    NodeSound(s[lead..]);
    WsAlone(s);
    var rest := ParseNode(s[lead..]).rest;
    WsAlone(rest);
    assert rest[..|rest|] == rest;
    assert s == s[..lead] + s[lead..];
  }
}
