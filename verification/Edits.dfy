/**
  Byte edits against the tree: what replacing one block of a document's text does to the
  document it reads as. Everything here is about text; `Patch` holds the operations.
 */
module Edits {
  import opened Bytes
  import opened Syntax
  import opened Values
  import opened Tree
  import opened Entries
  import opened Grammar
  import Pointer

  /** Text that reads as a document in which no object repeats a key. */
  ghost predicate Good(c: Codec, doc: bytes) {
    ParseDoc(doc).Some? && Unique(c, ParseDoc(doc).value.root)
  }

  function RootOf(doc: bytes): Node
    requires ParseDoc(doc).Some?
  {
    ParseDoc(doc).value.root
  }

  /** The value of a document's text. */
  function DocValue(c: Codec, doc: bytes): Value
    requires ParseDoc(doc).Some?
  {
    ValueOf(c, RootOf(doc))
  }

  /** Where the node at `p` starts in the document. */
  function StartOf(doc: bytes, p: seq<nat>): nat
    requires ParseDoc(doc).Some? && ValidPath(RootOf(doc), p)
  {
    |ParseDoc(doc).value.lead| + |Left(RootOf(doc), p)|
  }

  /** Bytes `[start, end)` of `doc` replaced by `ins`. */
  function Spliced(doc: bytes, start: nat, end: nat, ins: bytes): bytes
    requires start <= end <= |doc|
  {
    doc[..start] + ins + doc[end..]
  }

  lemma SplicedParts(x: bytes, mid: bytes, y: bytes, ins: bytes)
    ensures Spliced(x + mid + y, |x|, |x| + |mid|, ins) == x + ins + y
  {
    var s := x + mid + y;
    assert s[..|x|] == x && s[|x| + |mid|..] == y;
  }

  lemma GoodRoot(c: Codec, doc: bytes)
    requires Good(c, doc)
    ensures Wf(RootOf(doc)) && Unique(c, RootOf(doc)) && WfDoc(ParseDoc(doc).value)
    ensures PrintDoc(ParseDoc(doc).value) == doc
  {
    hide ParseDoc, Wf, Unique, PrintDoc;
    DocSound(doc);
  }

  /** A node is where its path says. */
  lemma NodeText(doc: bytes, p: seq<nat>)
    requires ParseDoc(doc).Some? && ValidPath(RootOf(doc), p)
    ensures var n := At(RootOf(doc), p);
            var s := StartOf(doc, p);
            && s + |Print(n)| <= |doc|
            && doc[s..s + |Print(n)|] == Print(n)
            && doc == doc[..s] + Print(n) + doc[s + |Print(n)|..]
            && Wf(n)
  {
    hide ParseDoc, Wf, Print, Left, Right, At;
    DocSound(doc);
    var d := ParseDoc(doc).value;
    PathText(d.root, p);
    WfAt(d.root, p);
    Around(doc, d.lead, Left(d.root, p), Print(At(d.root, p)), Right(d.root, p), d.trail);
  }

  lemma NodeSpan(c: Codec, doc: bytes, p: seq<nat>)
    requires Good(c, doc) && ValidPath(RootOf(doc), p)
    ensures var n := At(RootOf(doc), p);
            var s := StartOf(doc, p);
            && s + |Print(n)| <= |doc|
            && doc[s..s + |Print(n)|] == Print(n)
            && doc == doc[..s] + Print(n) + doc[s + |Print(n)|..]
            && Wf(n) && Unique(c, n)
  {
    hide ParseDoc, Wf, Unique, Print, StartOf, At;
    NodeText(doc, p);
    GoodRoot(c, doc);
    AtKeeps(c, RootOf(doc), p);
  }

  lemma Around(doc: bytes, lead: bytes, left: bytes, mid: bytes, right: bytes, trail: bytes)
    requires doc == lead + (left + mid + right) + trail
    ensures var s := |lead| + |left|;
            && s + |mid| <= |doc|
            && doc[s..s + |mid|] == mid
            && doc[..s] == lead + left
            && doc[s + |mid|..] == right + trail
            && doc == doc[..s] + mid + doc[s + |mid|..]
  {
  }

  /** `toks` names a place inside `n`, the node at `p`, whose text starts at `start`. */
  ghost predicate Located(c: Codec, doc: bytes, toks: seq<bytes>, p: seq<nat>, n: Node, start: nat) {
    && Good(c, doc)
    && toks != []
    && PathOf(c, RootOf(doc), toks[..|toks| - 1]) == Some(p)
    && ValidPath(RootOf(doc), p)
    && n == At(RootOf(doc), p)
    && start == StartOf(doc, p)
  }

  /** `out` reads as the document the tree-level edit yields. */
  ghost predicate Edited(c: Codec, doc: bytes, toks: seq<bytes>, e: Edit, out: bytes) {
    && Good(c, doc)
    && Good(c, out)
    && Alter(DocValue(c, doc), toks, e) == Some(DocValue(c, out))
  }

  /** `out` reads as the document with `m` in place of the node at `p`, everything else unchanged. */
  ghost predicate ReadsWith(doc: bytes, p: seq<nat>, m: Node, out: bytes) {
    && ParseDoc(doc).Some? && ValidPath(RootOf(doc), p)
    && ParseDoc(out) == Some(ParseDoc(doc).value.(root := Put(RootOf(doc), p, m)))
  }

  lemma LocatedNode(c: Codec, doc: bytes, toks: seq<bytes>, p: seq<nat>, n: Node, start: nat)
    requires Located(c, doc, toks, p, n, start)
    ensures toks != [] && Wf(n) && Unique(c, n)
    ensures start + |Print(n)| <= |doc| && doc[start..start + |Print(n)|] == Print(n)
    ensures doc == doc[..start] + Print(n) + doc[start + |Print(n)|..]
  {
    hide ParseDoc, Wf, Unique, Print, Left, At, PathOf;
    NodeSpan(c, doc, p);
  }

  /** Seven pieces of text, regrouped around the one in the middle. */
  lemma Regroup(lead: bytes, l: bytes, a: bytes, mid: bytes, b: bytes, r: bytes, trail: bytes)
    ensures lead + (l + (a + mid + b) + r) + trail == (lead + l + a) + mid + (b + r + trail)
  {
    Assoc(l, a + mid + b, r);
    assert l + (a + mid + b) + r == (l + a) + mid + (b + r);
    assert lead + ((l + a) + mid + (b + r)) + trail == (lead + (l + a)) + mid + ((b + r) + trail);
    Assoc(lead, l, a);
    Assoc(b, r, trail);
  }

  lemma Assoc(x: bytes, y: bytes, z: bytes)
    ensures (x + y) + z == x + (y + z)
  {
  }

  /** `t` reads `mid`, between `a` and `b`, between `l` and `r`. */
  ghost predicate Nested(t: bytes, l: bytes, a: bytes, mid: bytes, b: bytes, r: bytes) {
    t == l + (a + mid + b) + r
  }

  /**
    The heart of every edit. Where the text of the node at `p` is `a + mid + b`, and
    `a + ins + b` is the text of `m`, splicing `ins` over `mid` yields the text of the
    document with `m` in the node's place.
   */
  lemma SpliceNode(c: Codec, d: Doc, p: seq<nat>, a: bytes, mid: bytes, b: bytes, ins: bytes, m: Node)
    requires WfDoc(d) && Unique(c, d.root) && ValidPath(d.root, p)
    requires Print(At(d.root, p)) == a + mid + b && Print(m) == a + ins + b
    requires Wf(m) && Unique(c, m)
    ensures var s := |d.lead| + |Left(d.root, p)| + |a|;
            var d' := d.(root := Put(d.root, p, m));
            && s + |mid| <= |PrintDoc(d)|
            && Spliced(PrintDoc(d), s, s + |mid|, ins) == PrintDoc(d')
            && WfDoc(d') && Unique(c, d'.root)
  {
    hide Wf, Unique, Print, Left, Right, At, Put, Spliced, PrintDoc, Nested, AllWs;
    NestedAt(d.root, p, a, mid, b, ins, m);
    PutKeeps(c, d.root, p, m);
    SpliceText(d, d.(root := Put(d.root, p, m)), Left(d.root, p), a, mid, b, Right(d.root, p), ins);
  }

  lemma NestedAt(n: Node, p: seq<nat>, a: bytes, mid: bytes, b: bytes, ins: bytes, m: Node)
    requires ValidPath(n, p) && Print(At(n, p)) == a + mid + b && Print(m) == a + ins + b
    ensures Nested(Print(n), Left(n, p), a, mid, b, Right(n, p))
    ensures Nested(Print(Put(n, p, m)), Left(n, p), a, ins, b, Right(n, p))
  {
    hide Print, Left, Right, At, Put;
    PathText(n, p);
    PutText(n, p, m);
  }

  /** What a well-formed document prints is a good text that reads as it. */
  lemma PrintedGood(c: Codec, d: Doc)
    requires WfDoc(d) && Unique(c, d.root)
    ensures Good(c, PrintDoc(d)) && RootOf(PrintDoc(d)) == d.root
    ensures ParseDoc(PrintDoc(d)) == Some(d)
  {
    hide ParseDoc, Wf, Unique, Print, PrintDoc, AllWs;
    DocReads(d);
  }

  lemma SpliceText(d: Doc, d': Doc, l: bytes, a: bytes, mid: bytes, b: bytes, r: bytes, ins: bytes)
    requires d'.lead == d.lead && d'.trail == d.trail
    requires Nested(Print(d.root), l, a, mid, b, r) && Nested(Print(d'.root), l, a, ins, b, r)
    ensures var s := |d.lead| + |l| + |a|;
            && s + |mid| <= |PrintDoc(d)|
            && Spliced(PrintDoc(d), s, s + |mid|, ins) == PrintDoc(d')
  {
    hide Print, Spliced;
    Regroup(d.lead, l, a, mid, b, r, d.trail);
    Regroup(d.lead, l, a, ins, b, r, d.trail);
    SplicedParts(d.lead + l + a, mid, b + r + d.trail, ins);
  }

  /** Replacing a whole document by a node's text. */
  lemma WholeDoc(c: Codec, doc: bytes, m: Node)
    requires Wf(m) && Unique(c, m)
    ensures Spliced(doc, 0, |doc|, Print(m)) == Print(m)
    ensures Good(c, Print(m)) && RootOf(Print(m)) == m
    ensures ParseDoc(Print(m)) == Some(Doc([], m, []))
  {
    hide ParseDoc, Wf, Unique, Print;
    assert AllWs([]) by { NoWs(); }
    var d := Doc([], m, []);
    assert PrintDoc(d) == Print(m);
    DocReads(d);
  }

  /** An edit inside the container at the parent tokens is the tree-level edit. */
  lemma EditParent(c: Codec, doc: bytes, toks: seq<bytes>, p: seq<nat>, n: Node, start: nat,
                   a: bytes, mid: bytes, b: bytes, ins: bytes, m: Node, e: Edit)
    requires Located(c, doc, toks, p, n, start) && Wf(m) && Unique(c, m)
    requires Print(n) == a + mid + b && Print(m) == a + ins + b
    requires EditIn(ValueOf(c, n), toks[|toks| - 1], e) == Some(ValueOf(c, m))
    ensures start + |a| + |mid| <= |doc|
    ensures Edited(c, doc, toks, e, Spliced(doc, start + |a|, start + |a| + |mid|, ins))
    ensures ReadsWith(doc, p, m, Spliced(doc, start + |a|, start + |a| + |mid|, ins))
  {
    hide ParseDoc, Wf, Unique, Print, PathOf, At, Put, Spliced, EditIn, ValueOf, Alter, Left, PrintDoc;
    GoodRoot(c, doc);
    var d := ParseDoc(doc).value;
    SpliceNode(c, d, p, a, mid, b, ins, m);
    PrintedGood(c, d.(root := Put(d.root, p, m)));
    AlterMatches(c, RootOf(doc), toks, e, m);
  }

  // ----- the branches of add -----

  /** The member exists: its value is replaced. */
  lemma AddMember(c: Codec, doc: bytes, toks: seq<bytes>, p: seq<nat>, n: Node, start: nat, i: nat, v: Node)
    requires Located(c, doc, toks, p, n, start) && Wf(v) && Unique(c, v)
    requires n.Group? && n.obj && ChildIndex(c, n, toks[|toks| - 1]) == Some(i)
    ensures start + |LeftOf(n, i)| <= start + |Through(n, i)| <= |doc|
    ensures Edited(c, doc, toks, Add(ValueOf(c, v)), Spliced(doc, start + |LeftOf(n, i)|, start + |Through(n, i)|, Print(v)))
  {
    hide Located, Edited, ReadsWith, Wf, Unique, Print, Spliced, LeftOf, RightOf, ChildIndex, EditIn, PutChild, ValueOf;
    LocatedNode(c, doc, toks, p, n, start);
    ChildText(n, i);
    PutChildText(n, i, v);
    PutChildKeeps(c, n, i, v);
    AddMemberValue(c, n, toks[|toks| - 1], i, v);
    EditParent(c, doc, toks, p, n, start, LeftOf(n, i), Print(n.entries[i].value), RightOf(n, i), Print(v),
               PutChild(n, i, v), Add(ValueOf(c, v)));
  }

  lemma AddMemberValue(c: Codec, n: Node, tok: bytes, i: nat, v: Node)
    requires Unique(c, n) && n.Group? && n.obj && ChildIndex(c, n, tok) == Some(i)
    ensures EditIn(ValueOf(c, n), tok, Add(ValueOf(c, v))) == Some(ValueOf(c, PutChild(n, i, v)))
  {
    hide Unique, ValueOf, ChildIndex;
    GroupKind(c, n);
    ChildMatches(c, n, tok);
    PutChildMatches(c, n, tok, v);
  }

  lemma GroupKind(c: Codec, n: Node)
    requires n.Group?
    ensures if n.obj then ValueOf(c, n).Dict? else ValueOf(c, n).List? && |ValueOf(c, n).items| == |n.entries|
  {
    hide ValuesOf, Keys, MapOf;
  }

  /** The token neither names nor precedes an entry: the new one comes last. */
  ghost predicate GoesLast(c: Codec, n: Node, tok: bytes) {
    && n.Group?
    && if n.obj then ChildIndex(c, n, tok).None?
       else tok == [DASH] || Pointer.ParseIndex(tok) == Some(|n.entries|)
  }

  /** Where a new last entry goes: after the last value, or before the bracket. */
  function LastPosition(n: Node): nat
    requires n.Group?
  {
    if n.entries == [] then 1 + |n.gap| else |Through(n, |n.entries| - 1)|
  }

  /** What is inserted there. */
  function LastInsertion(c: Codec, n: Node, tok: bytes, v: Node): bytes
    requires n.Group?
  {
    var text := PrintLabel(NewHead(c, n.obj, tok)) + Print(v);
    if n.entries == [] then text else [COMMA] + text
  }

  lemma AppendBlock(c: Codec, n: Node, tok: bytes, v: Node) returns (a: bytes, b: bytes)
    requires n.Group?
    ensures Print(n) == a + [] + b && |a| == LastPosition(n)
    ensures Print(Append(n, NewHead(c, n.obj, tok), v)) == a + LastInsertion(c, n, tok, v) + b
  {
    hide Print, LeftOf, RightOf, Append, NewHead, PrintLabel;
    var head := NewHead(c, n.obj, tok);
    if n.entries == [] {
      FillText(n, head, v);
      a, b := [Opener(n.obj)] + n.gap, [Closer(n.obj)];
    } else {
      var k := |n.entries| - 1;
      AppendText(n, head, v);
      ThroughText(n, k);
      a, b := Through(n, k), RightOf(n, k);
    }
    assert a + [] == a;
  }

  /** A new member, or a new last element. */
  lemma AddLast(c: Codec, doc: bytes, toks: seq<bytes>, p: seq<nat>, n: Node, start: nat, v: Node)
    requires c.Faithful() && Located(c, doc, toks, p, n, start) && Wf(v) && Unique(c, v)
    requires GoesLast(c, n, toks[|toks| - 1])
    ensures start + LastPosition(n) <= |doc|
    ensures Edited(c, doc, toks, Add(ValueOf(c, v)),
                   Spliced(doc, start + LastPosition(n), start + LastPosition(n), LastInsertion(c, n, toks[|toks| - 1], v)))
  {
    hide Located, Edited, ReadsWith, Wf, Unique, Print, Spliced, LastPosition, LastInsertion, EditIn, Append, NewHead,
      ValueOf, GoesLast;
    LocatedNode(c, doc, toks, p, n, start);
    var tok := toks[|toks| - 1];
    AppendLast(c, n, tok, v);
    var a, b := AppendBlock(c, n, tok, v);
    EditParent(c, doc, toks, p, n, start, a, [], b, LastInsertion(c, n, tok, v),
               Append(n, NewHead(c, n.obj, tok), v), Add(ValueOf(c, v)));
  }

  lemma AppendLast(c: Codec, n: Node, tok: bytes, v: Node)
    requires c.Faithful() && GoesLast(c, n, tok) && Wf(n) && Unique(c, n) && Wf(v) && Unique(c, v)
    ensures n.Group?
    ensures var n' := Append(n, NewHead(c, n.obj, tok), v);
            && Wf(n') && Unique(c, n')
            && EditIn(ValueOf(c, n), tok, Add(ValueOf(c, v))) == Some(ValueOf(c, n'))
  {
    hide Wf, Unique, EditIn, Append, NewHead, ValueOf, Keys, IndexOf, Pointer.ParseIndex;
    if n.obj {
      IndexOfNone(Keys(c, n.entries), tok);
    }
    AppendKeeps(c, n, tok, v);
    AppendMatches(c, n, tok, v);
  }

  /** A new element in front of an existing one. */
  lemma AddBefore(c: Codec, doc: bytes, toks: seq<bytes>, p: seq<nat>, n: Node, start: nat, i: nat, v: Node)
    requires Located(c, doc, toks, p, n, start) && Wf(v) && Unique(c, v)
    requires n.Group? && !n.obj && i < |n.entries|
    requires toks[|toks| - 1] != [DASH] && Pointer.ParseIndex(toks[|toks| - 1]) == Some(i)
    ensures start + |LeftOf(n, i)| <= |doc|
    ensures Edited(c, doc, toks, Add(ValueOf(c, v)),
                   Spliced(doc, start + |LeftOf(n, i)|, start + |LeftOf(n, i)|, Print(v) + [COMMA]))
  {
    hide Located, Edited, ReadsWith, Wf, Unique, Print, Spliced, LeftOf, RightOf, EditIn, InsertBefore, ValueOf,
      Pointer.ParseIndex;
    LocatedNode(c, doc, toks, p, n, start);
    var tok := toks[|toks| - 1];
    ElementHead(n, i);
    InsertText(n, i, v);
    InsertKeeps(c, n, i, v);
    InsertMatches(c, n, tok, v);
    ChildText(n, i);
    var after := Print(n.entries[i].value) + RightOf(n, i);
    assert LeftOf(n, i) + [] + after == LeftOf(n, i) + Print(n.entries[i].value) + RightOf(n, i);
    EditParent(c, doc, toks, p, n, start, LeftOf(n, i), [], after, Print(v) + [COMMA], InsertBefore(n, i, v),
               Add(ValueOf(c, v)));
  }

  lemma ElementHead(n: Node, i: nat)
    requires Wf(n) && n.Group? && !n.obj && i < |n.entries|
    ensures n.entries[i].head == Bare
  {
    assert WfEntry(n.obj, n.entries[i]);
  }

  // ----- the branches of remove -----

  /** The block `remove` deletes, as offsets into the container's text. */
  function RemovedBlock(n: Node, i: nat): (nat, nat)
    requires n.Group? && i < |n.entries|
  {
    if |n.entries| == 1 then (1, |Print(n)| - 1)
    else if i + 1 < |n.entries| then (|UpTo(n, i)|, |UpTo(n, i + 1)|)
    else (|Through(n, i - 1)|, |Through(n, i)|)
  }

  /** The container's text without that block is the container without that entry. */
  lemma RemovedText(n: Node, i: nat)
    requires n.Group? && i < |n.entries|
    ensures var (s, e) := RemovedBlock(n, i);
            && s <= e <= |Print(n)|
            && Print(RemoveEntry(n, i)) == Print(n)[..s] + [] + Print(n)[e..]
  {
    hide Print, UpTo, Through, RemoveEntry;
    if |n.entries| == 1 {
      RemovedOnly(n);
    } else if i + 1 < |n.entries| {
      RemovedMid(n, i);
    } else {
      RemovedLast(n);
    }
  }

  lemma RemovedOnly(n: Node)
    requires n.Group? && |n.entries| == 1
    ensures |Print(n)| >= 2 && Print(RemoveEntry(n, 0)) == Print(n)[..1] + [] + Print(n)[|Print(n)| - 1..]
  {
    hide Print, PrintEntry, RemoveEntry;
    RemoveOnlyText(n);
    var t := Print(n);
    assert t[..1] == [Opener(n.obj)] && t[|t| - 1..] == [Closer(n.obj)];
  }

  lemma RemovedMid(n: Node, i: nat)
    requires n.Group? && i + 1 < |n.entries|
    ensures |UpTo(n, i)| <= |UpTo(n, i + 1)| <= |Print(n)|
    ensures Print(RemoveEntry(n, i)) == Print(n)[..|UpTo(n, i)|] + [] + Print(n)[|UpTo(n, i + 1)|..]
  {
    hide *;
    RemoveMidText(n, i);
    UpToLonger(n, i);
    UpToText(n, i);
    UpToText(n, i + 1);
    TwoCuts(Print(n), UpTo(n, i), From(n, i), UpTo(n, i + 1), From(n, i + 1), Print(RemoveEntry(n, i)));
  }

  lemma RemovedLast(n: Node)
    requires n.Group? && |n.entries| > 1
    ensures var i := |n.entries| - 1;
            && |Through(n, i - 1)| <= |Through(n, i)| <= |Print(n)|
            && Print(RemoveEntry(n, i)) == Print(n)[..|Through(n, i - 1)|] + [] + Print(n)[|Through(n, i)|..]
  {
    hide *;
    var i := |n.entries| - 1;
    RemoveLastText(n);
    ThroughText(n, i - 1);
    ThroughText(n, i);
    ThroughLonger(n, i - 1);
    TwoCuts(Print(n), Through(n, i - 1), RightOf(n, i - 1), Through(n, i), RightOf(n, i), Print(RemoveEntry(n, i)));
  }

  lemma TwoCuts(t: bytes, a: bytes, a': bytes, b: bytes, b': bytes, out: bytes)
    requires t == a + a' == b + b' && |a| <= |b| && out == a + b'
    ensures |b| <= |t| && out == t[..|a|] + [] + t[|b|..]
  {
    assert t[..|a|] == a && t[|b|..] == b';
  }

  /**
    What the block holds: the entry and one separating comma, unless it is the only entry;
    never text of another entry's key or value.
   */
  lemma RemovedBlockHolds(n: Node, i: nat)
    requires n.Group? && i < |n.entries|
    ensures var (s, e) := RemovedBlock(n, i);
            var x := n.entries[i];
            s <= e <= |Print(n)|
            && Print(n)[s..e] ==
               if |n.entries| == 1 then x.lead + PrintLabel(x.head) + Print(x.value) + x.trail
               else if i + 1 < |n.entries| then
                 PrintLabel(x.head) + Print(x.value) + x.trail + [COMMA] + n.entries[i + 1].lead
               else n.entries[i - 1].trail + [COMMA] + x.lead + PrintLabel(x.head) + Print(x.value)
  {
    hide Print, PrintLabel, UpTo, Through;
    if |n.entries| == 1 {
      OnlyHolds(n);
    } else if i + 1 < |n.entries| {
      MidHolds(n, i);
    } else {
      LastHolds(n);
    }
  }

  lemma OnlyHolds(n: Node)
    requires n.Group? && |n.entries| == 1
    ensures var x := n.entries[0];
            && |Print(n)| >= 2
            && Print(n)[1..|Print(n)| - 1] == x.lead + PrintLabel(x.head) + Print(x.value) + x.trail
  {
    hide Print, PrintLabel, PrintEntry, Texts, Body;
    var x := n.entries[0];
    assert n.entries == [x];
    PrintsGroup(n.obj, n.gap, n.entries);
    BodyOne(x);
    PrintsEntry(x);
    assert Texts(n.entries) != [] by { TextsOne(x); }
    assert Print(n) == [Opener(n.obj)] + PrintEntry(x) + [Closer(n.obj)];
  }

  lemma MidHolds(n: Node, i: nat)
    requires n.Group? && i + 1 < |n.entries|
    ensures var x := n.entries[i];
            && |UpTo(n, i)| <= |UpTo(n, i + 1)| <= |Print(n)|
            && Print(n)[|UpTo(n, i)|..|UpTo(n, i + 1)|] ==
               PrintLabel(x.head) + Print(x.value) + x.trail + [COMMA] + n.entries[i + 1].lead
  {
    hide Print, PrintLabel, LeftOf, From, UpTo;
    var x := n.entries[i];
    UpToLonger(n, i);
    UpToText(n, i);
    UpToText(n, i + 1);
    var mid := PrintLabel(x.head) + Print(x.value) + x.trail + [COMMA] + n.entries[i + 1].lead;
    Grouped(UpTo(n, i), PrintLabel(x.head), Print(x.value), x.trail, n.entries[i + 1].lead);
    assert UpTo(n, i + 1) == UpTo(n, i) + mid;
    Between(Print(n), UpTo(n, i), mid, From(n, i + 1));
  }

  lemma LastHolds(n: Node)
    requires n.Group? && |n.entries| > 1
    ensures var i := |n.entries| - 1;
            var x := n.entries[i];
            && |Through(n, i - 1)| <= |Through(n, i)| <= |Print(n)|
            && Print(n)[|Through(n, i - 1)|..|Through(n, i)|] ==
               n.entries[i - 1].trail + [COMMA] + x.lead + PrintLabel(x.head) + Print(x.value)
  {
    hide Print, PrintLabel, LeftOf, RightOf, UpTo;
    var i := |n.entries| - 1;
    var x := n.entries[i];
    UpToLonger(n, i - 1);
    UpToText(n, i);
    ThroughText(n, i);
    var mid := n.entries[i - 1].trail + [COMMA] + x.lead + PrintLabel(x.head) + Print(x.value);
    Chained(Through(n, i - 1), n.entries[i - 1].trail, x.lead, PrintLabel(x.head), Print(x.value));
    assert Through(n, i) == Through(n, i - 1) + mid;
    Between(Print(n), Through(n, i - 1), mid, RightOf(n, i));
  }

  lemma Grouped(u: bytes, a: bytes, b: bytes, c: bytes, d: bytes)
    ensures (u + a + b) + c + [COMMA] + d == u + (a + b + c + [COMMA] + d)
  {
  }

  lemma Chained(u: bytes, a: bytes, b: bytes, c: bytes, d: bytes)
    ensures (u + a + [COMMA] + b) + c + d == u + (a + [COMMA] + b + c + d)
  {
  }

  lemma Between(t: bytes, a: bytes, b: bytes, c: bytes)
    requires t == a + b + c
    ensures t[|a|..|a + b|] == b
  {
  }

  lemma ThroughLonger(n: Node, i: nat)
    requires n.Group? && i + 1 < |n.entries|
    ensures |Through(n, i)| <= |Through(n, i + 1)|
  {
    hide Print, LeftOf, UpTo, From, RightOf, PrintLabel;
    UpToLonger(n, i);
    UpToText(n, i + 1);
  }

  /** Deleting that block from the document is the tree-level remove. */
  lemma RemoveTarget(c: Codec, doc: bytes, toks: seq<bytes>, p: seq<nat>, n: Node, start: nat, i: nat)
    requires Located(c, doc, toks, p, n, start) && ChildIndex(c, n, toks[|toks| - 1]) == Some(i)
    ensures RemovedBlock(n, i).0 <= RemovedBlock(n, i).1 && start + RemovedBlock(n, i).1 <= |doc|
    ensures Edited(c, doc, toks, Remove,
                   Spliced(doc, start + RemovedBlock(n, i).0, start + RemovedBlock(n, i).1, []))
    ensures ReadsWith(doc, p, RemoveEntry(n, i), Spliced(doc, start + RemovedBlock(n, i).0, start + RemovedBlock(n, i).1, []))
  {
    hide Located, Edited, ReadsWith, Wf, Unique, Print, Spliced, ChildIndex, RemovedBlock, RemoveEntry, EditIn, ValueOf;
    var (s, e) := RemovedBlock(n, i);
    LocatedNode(c, doc, toks, p, n, start);
    RemovedText(n, i);
    RemoveKeeps(c, n, i);
    RemoveMatches(c, n, toks[|toks| - 1]);
    var t := Print(n);
    assert t == t[..s] + t[s..e] + t[e..];
    EditParent(c, doc, toks, p, n, start, t[..s], t[s..e], t[e..], [], RemoveEntry(n, i), Remove);
  }
}
