/**
  What a parser meets in any text before it stops: the tree read so far, with a hole where
  the text breaks off. Events and tokens of malformed text are those of its mended tree up
  to the hole.
 */
module Mended {
  import opened Bytes
  import opened Syntax
  import opened Grammar
  import opened Tree
  import opened Paths

  /** The node at the start of `s`, up to where `s` stops being one. */
  function MendNode(s: bytes): Node
    decreases |s|, 1
  {
    var r := ParseNode(s);
    if r.Got? then r.value
    else if s == [] || (s[0] != LBRACE && s[0] != LBRACKET) then HOLE
    else Group(s[0] == LBRACE, [], MendEntries(s[0] == LBRACE, s[1..]))
  }

  /** The entries of a container that never closes; the last one has the hole. */
  function MendEntries(obj: bool, s: bytes): (es: seq<Entry>)
    ensures es != []
    decreases |s|, 3
  {
    var first := ParseEntry(obj, s);
    if first.Fail? then [MendEntry(obj, s)]
    else if first.rest != [] && first.rest[0] == COMMA then [first.value] + MendEntries(obj, first.rest[1..])
    else [first.value, HoleEntry([])]
  }

  /** An entry that breaks off, at its key or inside its value. */
  function MendEntry(obj: bool, s: bytes): Entry
    decreases |s|, 2
  {
    var lead := WsLen(s);
    var head := ParseLabel(obj, s[lead..]);
    if head.Fail? then HoleEntry(s[..lead]) else Entry(s[..lead], head.value, MendNode(head.rest), [])
  }

  function HoleEntry(lead: bytes): Entry {
    Entry(lead, Bare, HOLE, [])
  }

  /** The root a reader of `s` walks. */
  function ReadRoot(s: bytes): Node {
    MendNode(s[WsLen(s)..])
  }

  lemma MendStep(s: bytes)
    ensures ParseNode(s).Got? ==> MendNode(s) == ParseNode(s).value
    ensures ParseNode(s).Fail? ==>
              if s == [] || (s[0] != LBRACE && s[0] != LBRACKET) then MendNode(s) == HOLE
              else MendNode(s) == Group(s[0] == LBRACE, [], MendEntries(s[0] == LBRACE, s[1..]))
  {
    hide ParseNode, MendEntries;
  }

  lemma MendEntriesStep(obj: bool, s: bytes)
    ensures var first := ParseEntry(obj, s);
            MendEntries(obj, s) ==
            if first.Fail? then [MendEntry(obj, s)]
            else if first.rest != [] && first.rest[0] == COMMA then [first.value] + MendEntries(obj, first.rest[1..])
            else [first.value, HoleEntry([])]
  {
    hide ParseEntry, MendEntry, HoleEntry;
  }

  lemma MendEntryStep(obj: bool, s: bytes)
    ensures var lead := WsLen(s);
            var head := ParseLabel(obj, s[lead..]);
            MendEntry(obj, s) ==
            if head.Fail? then HoleEntry(s[..lead]) else Entry(s[..lead], head.value, MendNode(head.rest), [])
  {
    hide WsLen, ParseLabel, MendNode;
  }

  /** A document's root is read whole. */
  lemma ReadRootIs(s: bytes)
    requires ParseDoc(s).Some?
    ensures ReadRoot(s) == ParseDoc(s).value.root && NoHole(ReadRoot(s))
    ensures WsLen(s) == |ParseDoc(s).value.lead|
  {
    hide ParseNode, MendNode, Wf, PrintDoc, NoHole;
    MendStep(s[WsLen(s)..]);
    DocSound(s);
    WfNoHole(ParseDoc(s).value.root);
  }

  // ----- a broken node has a hole -----

  lemma {:induction false} BrokenHasHole(s: bytes)
    requires ParseNode(s).Fail?
    ensures !NoHole(MendNode(s))
    decreases |s|, 1
  {
    hide ParseNode, MendNode, MendEntries;
    MendStep(s);
    if s != [] && (s[0] == LBRACE || s[0] == LBRACKET) {
      var i := EntriesHaveHole(s[0] == LBRACE, s[1..]);
      assert !NoHole(MendNode(s).entries[i].value);
    }
  }

  lemma {:induction false} EntriesHaveHole(obj: bool, s: bytes) returns (i: nat)
    ensures i < |MendEntries(obj, s)| && !NoHole(MendEntries(obj, s)[i].value)
    decreases |s|, 3
  {
    hide ParseEntry, ParseLabel, MendNode, MendEntries, MendEntry, WsLen;
    MendEntriesStep(obj, s);
    MendEntryStep(obj, s);
    var first := ParseEntry(obj, s);
    if first.Fail? {
      i := 0;
      var head := ParseLabel(obj, s[WsLen(s)..]);
      if head.Got? {
        BrokenEntry(obj, s);
        BrokenHasHole(head.rest);
      }
    } else if first.rest != [] && first.rest[0] == COMMA {
      var j := EntriesHaveHole(obj, first.rest[1..]);
      i := j + 1;
    } else {
      i := 1;
    }
  }

  /** An entry whose key is there and that does not parse has a value that does not. */
  lemma BrokenEntry(obj: bool, s: bytes)
    requires ParseEntry(obj, s).Fail? && ParseLabel(obj, s[WsLen(s)..]).Got?
    ensures ParseNode(ParseLabel(obj, s[WsLen(s)..]).rest).Fail?
  {
    hide ParseLabel, ParseNode, WsLen;
  }

  // ----- what is whole, and its text -----

  /** The node at `p` is there to its end, and so is everything before it. */
  ghost predicate Whole(n: Node, p: seq<nat>)
    requires ValidPath(n, p)
  {
    if p == [] then NoHole(n)
    else
      && (forall i :: 0 <= i < p[0] ==> NoHole(n.entries[i].value))
      && Whole(n.entries[p[0]].value, p[1..])
  }

  lemma {:induction false} WholeAt(n: Node, p: seq<nat>)
    requires ValidPath(n, p) && Whole(n, p)
    ensures NoHole(At(n, p))
  {
    if p != [] {
      WholeAt(n.entries[p[0]].value, p[1..]);
    }
  }

  /** `s` starts with `t`. */
  predicate Starts(s: bytes, t: bytes) {
    |t| <= |s| && s[..|t|] == t
  }

  /** The text of `n` up to the end of the node at `p`. */
  ghost function UpToEnd(n: Node, p: seq<nat>): bytes
    requires ValidPath(n, p)
  {
    Left(n, p) + Print(At(n, p))
  }

  /** What is whole in the mended tree is in the text, byte for byte and at the same place. */
  lemma {:induction false} MendText(s: bytes, p: seq<nat>)
    requires ValidPath(MendNode(s), p) && Whole(MendNode(s), p)
    ensures Starts(s, UpToEnd(MendNode(s), p))
    decreases |s|, 1
  {
    hide ParseNode, MendNode, MendEntries, Print, Left, Right, LeftOf, Wf, NoHole;
    MendStep(s);
    var n := MendNode(s);
    if ParseNode(s).Got? {
      NodeSound(s);
      PathText(n, p);
      StartsWith(s, UpToEnd(n, p), Right(n, p), ParseNode(s).rest);
    } else {
      BrokenHasHole(s);
      assert p != [] && n != HOLE by { NoHoleInHole(n, p); }
      var obj, i := s[0] == LBRACE, p[0];
      EntriesText(obj, s[1..], i, p[1..]);
      LeftIs(n, i, p);
      assert s == [Opener(obj)] + s[1..];
      StartsAfter([Opener(obj)], s[1..], EntryUpTo(n.entries, i, p[1..]));
    }
  }

  lemma NoHoleInHole(n: Node, p: seq<nat>)
    requires ValidPath(n, p) && Whole(n, p) && !NoHole(n)
    ensures p != [] && n != HOLE
  {
    hide NoHole;
  }

  lemma StartsWith(s: bytes, t: bytes, u: bytes, rest: bytes)
    requires s == t + u + rest
    ensures Starts(s, t)
  {
  }

  lemma StartsAfter(a: bytes, s: bytes, t: bytes)
    requires Starts(s, t)
    ensures Starts(a + s, a + t)
  {
  }

  /** The text of some entries, up to the end of a place in entry `i`. */
  ghost function EntryUpTo(es: seq<Entry>, i: nat, q: seq<nat>): bytes
    requires i < |es| && ValidPath(es[i].value, q)
  {
    Pre(Texts(es[..i])) + es[i].lead + PrintLabel(es[i].head) + UpToEnd(es[i].value, q)
  }

  lemma LeftIs(n: Node, i: nat, p: seq<nat>)
    requires n.Group? && ValidPath(n, p) && p != [] && p[0] == i
    ensures UpToEnd(n, p) == [Opener(n.obj)] + EntryUpTo(n.entries, i, p[1..])
  {
    hide Print, Texts, Pre, PrintLabel;
    var e := n.entries[i];
    Flatten([Opener(n.obj)], Pre(Texts(n.entries[..i])), e.lead, PrintLabel(e.head), Left(e.value, p[1..]), Print(At(e.value, p[1..])));
  }

  lemma Flatten(a: bytes, b: bytes, c: bytes, d: bytes, e: bytes, f: bytes)
    ensures (a + b + c + d) + e + f == a + (b + c + d + (e + f))
  {
  }

  lemma {:induction false} EntriesText(obj: bool, s: bytes, i: nat, q: seq<nat>)
    requires var es := MendEntries(obj, s);
             && i < |es| && ValidPath(es[i].value, q) && Whole(es[i].value, q)
             && forall j :: 0 <= j < i ==> NoHole(es[j].value)
    ensures Starts(s, EntryUpTo(MendEntries(obj, s), i, q))
    decreases |s|, 3
  {
    hide ParseEntry, MendEntries, MendEntry, Print, PrintEntry, PrintLabel, Texts, Pre, Left, Whole, ValidPath;
    MendEntriesStep(obj, s);
    var first := ParseEntry(obj, s);
    var es := MendEntries(obj, s);
    if first.Got? {
      EntrySound(obj, s);
      if i == 0 {
        FirstEntryText(s, first.value, first.rest, q, es);
      } else if first.rest != [] && first.rest[0] == COMMA {
        var more := MendEntries(obj, first.rest[1..]);
        assert es == [first.value] + more;
        assert forall j :: 0 <= j < i - 1 ==> more[j] == es[j + 1];
        EntriesText(obj, first.rest[1..], i - 1, q);
        LaterEntryText(s, first.value, first.rest, more, i - 1, q);
      } else {
        assert es[i].value == HOLE;
        assert false by { HoleNotWhole(q); }
      }
    } else {
      BrokenEntryText(obj, s, q);
      assert es[..0] == [];
      assert EntryUpTo(es, 0, q) == EntryUpTo([MendEntry(obj, s)], 0, q);
    }
  }

  lemma HoleNotWhole(q: seq<nat>)
    requires ValidPath(HOLE, q)
    ensures !Whole(HOLE, q)
  {
  }

  lemma NothingBefore(es: seq<Entry>, q: seq<nat>)
    requires es != [] && ValidPath(es[0].value, q)
    ensures EntryUpTo(es, 0, q) == es[0].lead + PrintLabel(es[0].head) + UpToEnd(es[0].value, q)
  {
    hide Print, PrintLabel, Left;
    assert es[..0] == [] && Pre(Texts([])) == [];
    assert [] + es[0].lead == es[0].lead;
  }

  lemma FirstEntryText(s: bytes, e: Entry, rest: bytes, q: seq<nat>, es: seq<Entry>)
    requires s == PrintEntry(e) + rest && es != [] && es[0] == e && ValidPath(e.value, q)
    ensures Starts(s, EntryUpTo(es, 0, q))
  {
    hide Print, PrintEntry, PrintLabel, Left, Right;
    NothingBefore(es, q);
    PrintsEntry(e);
    PathText(e.value, q);
    Reassoc(e.lead + PrintLabel(e.head), UpToEnd(e.value, q), Right(e.value, q), e.trail);
    StartsWith(s, EntryUpTo(es, 0, q), Right(e.value, q) + e.trail, rest);
  }

  lemma Reassoc(a: bytes, b: bytes, c: bytes, d: bytes)
    ensures a + (b + c) + d == a + b + (c + d)
  {
  }

  lemma LaterEntryText(s: bytes, e: Entry, rest: bytes, more: seq<Entry>, i: nat, q: seq<nat>)
    requires s == PrintEntry(e) + rest && rest != [] && rest[0] == COMMA
    requires i < |more| && ValidPath(more[i].value, q) && Starts(rest[1..], EntryUpTo(more, i, q))
    ensures Starts(s, EntryUpTo([e] + more, i + 1, q))
  {
    hide Print, PrintEntry, PrintLabel, Left, Texts, UpToEnd;
    var es := [e] + more;
    assert es[..i + 1] == [e] + more[..i] && es[i + 1] == more[i];
    PreCons(e, more[..i]);
    var m := more[i];
    assert rest == [COMMA] + rest[1..];
    StartsAfter([COMMA], rest[1..], EntryUpTo(more, i, q));
    StartsAfter(PrintEntry(e), rest, [COMMA] + EntryUpTo(more, i, q));
    Lifted(PrintEntry(e), Pre(Texts(more[..i])), m.lead, PrintLabel(m.head), UpToEnd(m.value, q));
  }

  lemma Lifted(a: bytes, b: bytes, c: bytes, d: bytes, e: bytes)
    ensures a + ([COMMA] + (b + c + d + e)) == (a + [COMMA] + b) + c + d + e
  {
  }

  lemma PreCons(e: Entry, es: seq<Entry>)
    ensures Pre(Texts([e] + es)) == PrintEntry(e) + [COMMA] + Pre(Texts(es))
  {
    hide PrintEntry, Texts;
    if es == [] {
      assert [e] + es == [e];
      TextsOne(e);
      assert Texts(es) == [] by { Syntax.NoTexts(); }
      assert [PrintEntry(e)][1..] == [];
      assert PrintEntry(e) + [] == PrintEntry(e);
      assert PrintEntry(e) + [COMMA] + [] == PrintEntry(e) + [COMMA];
    } else {
      BodyCons(e, es);
      assert Texts(es) != [] && Texts([e] + es) != [];
      var p, b := PrintEntry(e), Body(Texts(es));
      assert p + [COMMA] + b + [COMMA] == p + [COMMA] + (b + [COMMA]);
    }
  }

  lemma {:induction false} BrokenEntryText(obj: bool, s: bytes, q: seq<nat>)
    requires ParseEntry(obj, s).Fail?
    requires var e := MendEntry(obj, s); ValidPath(e.value, q) && Whole(e.value, q)
    ensures Starts(s, EntryUpTo([MendEntry(obj, s)], 0, q))
    decreases |s|, 2
  {
    hide ParseLabel, MendNode, MendEntry, Print, PrintLabel, Left, WsLen, Whole, ValidPath;
    MendEntryStep(obj, s);
    var lead := WsLen(s);
    var head := ParseLabel(obj, s[lead..]);
    if head.Fail? {
      assert false by { HoleNotWhole(q); }
    } else {
      var e := MendEntry(obj, s);
      MendText(head.rest, q);
      LabelSound(obj, s[lead..]);
      NothingBefore([e], q);
      var t := UpToEnd(e.value, q);
      StartsAfter(PrintLabel(head.value), head.rest, t);
      StartsAfter(s[..lead], s[lead..], PrintLabel(head.value) + t);
      assert s == s[..lead] + s[lead..];
      assert s[..lead] + (PrintLabel(head.value) + t) == s[..lead] + PrintLabel(head.value) + t;
    }
  }

  /** A whole node of what a reader walks is in the text where its path says. */
  lemma ReadText(s: bytes, p: seq<nat>)
    requires ValidPath(ReadRoot(s), p) && Whole(ReadRoot(s), p)
    ensures var n := ReadRoot(s); var start := WsLen(s) + |Left(n, p)|;
            && start + |Print(At(n, p))| <= |s|
            && s[start..start + |Print(At(n, p))|] == Print(At(n, p))
  {
    hide MendNode, Print, Left, WsLen, Whole, ValidPath, At;
    var lead := WsLen(s);
    var n := ReadRoot(s);
    MendText(s[lead..], p);
    StartsAfter(s[..lead], s[lead..], UpToEnd(n, p));
    assert s == s[..lead] + s[lead..];
    MiddleOf(s, s[..lead], Left(n, p), Print(At(n, p)));
  }

  lemma MiddleOf(s: bytes, a: bytes, b: bytes, c: bytes)
    requires Starts(s, a + (b + c))
    ensures |a| + |b| + |c| <= |s| && s[|a| + |b|..|a| + |b| + |c|] == c
  {
    var t := a + (b + c);
    assert t[|a| + |b|..] == c;
    assert s[..|t|][|a| + |b|..] == s[|a| + |b|..|t|];
  }

  // ----- nothing before the break is lost -----

  lemma {:induction false} EntriesAhead(obj: bool, es: seq<Entry>, rest: bytes)
    requires forall i :: 0 <= i < |es| ==> WfEntry(obj, es[i])
    ensures MendEntries(obj, Pre(Texts(es)) + rest) == es + MendEntries(obj, rest)
  {
    hide WfEntry, ParseEntry, MendEntries, MendEntry, PrintEntry, Texts, Pre;
    if es == [] {
      assert Pre(Texts([])) == [] by { NoPre(); }
      assert [] + rest == rest && [] + MendEntries(obj, rest) == MendEntries(obj, rest);
    } else {
      var e, more := es[0], es[1..];
      assert es == [e] + more;
      EntriesAhead(obj, more, rest);
      PreCons(e, more);
      var after := [COMMA] + (Pre(Texts(more)) + rest);
      var s := Pre(Texts(es)) + rest;
      assert s == PrintEntry(e) + after;
      EntryReads(obj, e, after);
      MendEntriesStep(obj, s);
      assert after[1..] == Pre(Texts(more)) + rest;
      assert [e] + (more + MendEntries(obj, rest)) == es + MendEntries(obj, rest);
    }
  }

  lemma NoPre()
    ensures Pre(Texts([])) == []
  {
  }

  /** In a container that does not parse, every entry that is whole and followed by a comma is read, just as it stands. */
  lemma ReadsAhead(obj: bool, es: seq<Entry>, rest: bytes)
    requires forall i :: 0 <= i < |es| ==> WfEntry(obj, es[i])
    requires ParseNode([Opener(obj)] + (Pre(Texts(es)) + rest)).Fail?
    ensures ReadRoot([Opener(obj)] + (Pre(Texts(es)) + rest)) == Group(obj, [], es + MendEntries(obj, rest))
  {
    hide WfEntry, ParseNode, MendEntries, MendNode, Texts, Pre;
    var s := [Opener(obj)] + (Pre(Texts(es)) + rest);
    assert WsLen(s) == 0 && s[0..] == s && s[1..] == Pre(Texts(es)) + rest;
    MendStep(s);
    EntriesAhead(obj, es, rest);
  }
}
