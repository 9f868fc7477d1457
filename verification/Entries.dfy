/**
  Adding and removing one entry of a container, as concrete text: which entry is new, which
  whitespace moves to a neighbour, and which single block of the container's text changes.
 */
module Entries {
  import opened Bytes
  import opened Syntax
  import opened Values
  import opened Tree
  import Pointer

  /** What the generator writes before a new entry's value. */
  function NewHead(c: Codec, obj: bool, tok: bytes): Label {
    if obj then Key(c.quote(tok), [], []) else Bare
  }

  // ----- the three edits -----

  /** A new last entry; it takes over the whitespace before the closing bracket. */
  function Append(n: Node, head: Label, v: Node): Node
    requires n.Group?
  {
    var es := n.entries;
    if es == [] then Group(n.obj, [], [Entry(n.gap, head, v, [])])
    else
      var k := |es| - 1;
      n.(entries := es[..k] + [es[k].(trail := [])] + [Entry([], head, v, es[k].trail)])
  }

  /** A new array element in front of entry `i`, in its place after the leading whitespace. */
  function InsertBefore(n: Node, i: nat, v: Node): Node
    requires n.Group? && i < |n.entries|
  {
    var es := n.entries;
    n.(entries := es[..i] + [Entry(es[i].lead, Bare, v, [])] + ([es[i].(lead := [])] + es[i + 1..]))
  }

  /** The entry disappears with one separator; a neighbour takes over its outer whitespace. */
  function RemoveEntry(n: Node, i: nat): Node
    requires n.Group? && i < |n.entries|
  {
    var es := n.entries;
    if |es| == 1 then Group(n.obj, [], [])
    else if i + 1 < |es| then n.(entries := es[..i] + [es[i + 1].(lead := es[i].lead)] + es[i + 2..])
    else n.(entries := es[..i - 1] + [es[i - 1].(trail := es[i].trail)])
  }

  // ----- the blocks of text they touch -----

  /** The text up to and including the value of entry `i`. */
  function Through(n: Node, i: nat): bytes
    requires n.Group? && i < |n.entries|
  {
    LeftOf(n, i) + Print(n.entries[i].value)
  }

  /** The text up to the start of entry `i`, past its leading whitespace. */
  function UpTo(n: Node, i: nat): bytes
    requires n.Group? && i < |n.entries|
  {
    [Opener(n.obj)] + Pre(Texts(n.entries[..i])) + n.entries[i].lead
  }

  /** The text from the start of entry `i`. */
  function From(n: Node, i: nat): bytes
    requires n.Group? && i < |n.entries|
  {
    PrintLabel(n.entries[i].head) + Print(n.entries[i].value) + RightOf(n, i)
  }

  lemma ThroughText(n: Node, i: nat)
    requires n.Group? && i < |n.entries|
    ensures Print(n) == Through(n, i) + RightOf(n, i)
  {
    hide LeftOf, RightOf, Print;
    ChildText(n, i);
  }

  lemma UpToText(n: Node, i: nat)
    requires n.Group? && i < |n.entries|
    ensures Print(n) == UpTo(n, i) + From(n, i)
    ensures LeftOf(n, i) == UpTo(n, i) + PrintLabel(n.entries[i].head)
  {
    hide RightOf, Print, PrintLabel, Texts, Pre;
    ChildText(n, i);
  }

  lemma TailOne(x: bytes)
    ensures Tail([x]) == [COMMA] + x
  {
    assert [x][1..] == [];
  }

  lemma TailEntries(e: Entry, b: seq<Entry>)
    ensures Tail(Texts([e] + b)) == [COMMA] + PrintEntry(e) + Tail(Texts(b))
  {
    hide Texts, PrintEntry;
    TextsOne(e);
    TextsConcat([e], b);
    TailConcat([PrintEntry(e)], Texts(b));
    TailOne(PrintEntry(e));
  }

  /** An empty container: the new entry goes in front of the closing bracket. */
  lemma FillText(n: Node, head: Label, v: Node)
    requires n.Group? && n.entries == []
    ensures Print(n) == [Opener(n.obj)] + n.gap + [Closer(n.obj)]
    ensures Print(Append(n, head, v)) ==
            [Opener(n.obj)] + n.gap + (PrintLabel(head) + Print(v)) + [Closer(n.obj)]
  {
    hide Print, PrintLabel, Texts;
    var e := Entry(n.gap, head, v, []);
    PrintsGroup(n.obj, n.gap, []);
    assert Texts([]) == [];
    PrintsGroup(n.obj, [], [e]);
    TextsOne(e);
    PrintsEntry(e);
    BodyOne(e);
  }

  /** Otherwise the comma and the new entry go right after the last value. */
  lemma AppendText(n: Node, head: Label, v: Node)
    requires n.Group? && n.entries != []
    ensures var k := |n.entries| - 1;
            Print(Append(n, head, v)) == Through(n, k) + ([COMMA] + (PrintLabel(head) + Print(v))) + RightOf(n, k)
  {
    hide Print, PrintLabel, PrintEntry, Texts, Pre, Tail;
    var es := n.entries;
    var k := |es| - 1;
    var n' := Append(n, head, v);
    var x := Entry([], head, v, es[k].trail);
    var es' := n'.entries;
    assert es'[..k] == es[..k] && es'[k + 1..] == [x] + [] && es[k + 1..] == [];
    TailEntries(x, []);
    PrintsEntry(x);
    TailNil();
    ChildText(n', k);
  }

  lemma TailNil()
    ensures Tail(Texts([])) == []
  {
  }

  /** The new element and its comma go right in front of the value of entry `i`. */
  lemma InsertText(n: Node, i: nat, v: Node)
    requires n.Group? && i < |n.entries| && n.entries[i].head == Bare
    ensures Print(InsertBefore(n, i, v)) ==
            LeftOf(n, i) + (Print(v) + [COMMA]) + (Print(n.entries[i].value) + RightOf(n, i))
  {
    hide Print, PrintEntry, Texts, Pre, Tail;
    var es := n.entries;
    var n' := InsertBefore(n, i, v);
    var e := es[i].(lead := []);
    var es' := n'.entries;
    assert es'[..i] == es[..i] && es'[i + 1..] == [e] + es[i + 1..];
    TailEntries(e, es[i + 1..]);
    PrintsEntry(e);
    ChildText(n', i);
  }

  /** Removing the only entry empties the brackets. */
  lemma RemoveOnlyText(n: Node)
    requires n.Group? && |n.entries| == 1
    ensures Print(n) == [Opener(n.obj)] + PrintEntry(n.entries[0]) + [Closer(n.obj)]
    ensures Print(RemoveEntry(n, 0)) == [Opener(n.obj)] + [Closer(n.obj)]
  {
    hide Print, PrintEntry;
    PrintsGroup(n.obj, n.gap, n.entries);
    PrintsGroup(n.obj, [], []);
    assert n.entries == [n.entries[0]];
    BodyOne(n.entries[0]);
  }

  /** Removing an entry that has a successor drops the text between the two entries' starts. */
  lemma RemoveMidText(n: Node, i: nat)
    requires n.Group? && i + 1 < |n.entries|
    ensures Print(RemoveEntry(n, i)) == UpTo(n, i) + From(n, i + 1)
    ensures |UpTo(n, i)| <= |UpTo(n, i + 1)|
  {
    hide Print, PrintLabel, PrintEntry, Texts, Pre, Tail;
    var es := n.entries;
    var n' := RemoveEntry(n, i);
    var es' := n'.entries;
    assert es'[..i] == es[..i] && es'[i + 1..] == es[i + 2..];
    UpToText(n', i);
    UpToLonger(n, i);
  }

  lemma UpToLonger(n: Node, i: nat)
    requires n.Group? && i + 1 < |n.entries|
    ensures UpTo(n, i + 1) == Through(n, i) + n.entries[i].trail + [COMMA] + n.entries[i + 1].lead
    ensures |UpTo(n, i)| <= |UpTo(n, i + 1)|
  {
    hide Print, PrintLabel, PrintEntry, Texts, Pre;
    var es := n.entries;
    PreNext(es, i);
    PrintsEntry(es[i]);
  }

  /** What precedes the next entry: what precedes this one, its text, and a comma. */
  lemma PreNext(es: seq<Entry>, i: nat)
    requires i < |es|
    ensures Pre(Texts(es[..i + 1])) == Pre(Texts(es[..i])) + PrintEntry(es[i]) + [COMMA]
  {
    hide Texts, PrintEntry, Body, Tail;
    var a := Texts(es[..i]);
    assert es[..i + 1] == es[..i] + [es[i]];
    TextsConcat(es[..i], [es[i]]);
    TextsOne(es[i]);
    BodyAround(a, PrintEntry(es[i]), []);
    assert a + [PrintEntry(es[i])] + [] == a + [PrintEntry(es[i])];
    assert Tail([]) == [] by { TailEmpty(); }
  }

  lemma TailEmpty()
    ensures Tail([]) == []
  {
  }

  /** Removing the last of several entries drops the text between the two values' ends. */
  lemma RemoveLastText(n: Node)
    requires n.Group? && |n.entries| >= 2
    ensures var k := |n.entries| - 1;
            Print(RemoveEntry(n, k)) == Through(n, k - 1) + RightOf(n, k)
  {
    hide Print, PrintLabel, PrintEntry, Texts, Pre, Tail;
    var es := n.entries;
    var k := |es| - 1;
    var n' := RemoveEntry(n, k);
    var es' := n'.entries;
    assert es'[..k - 1] == es[..k - 1] && es'[k..] == [] && es[k + 1..] == [];
    ThroughText(n', k - 1);
  }

  // ----- they keep documents well formed and keys distinct -----

  lemma AppendKeeps(c: Codec, n: Node, tok: bytes, v: Node)
    requires c.Faithful() && n.Group? && Wf(n) && Unique(c, n) && Wf(v) && Unique(c, v)
    requires n.obj ==> tok !in Keys(c, n.entries)
    ensures Wf(Append(n, NewHead(c, n.obj, tok), v)) && Unique(c, Append(n, NewHead(c, n.obj, tok), v))
  {
    hide IsString, IsToken, AllWs;
    assert AllWs([]) by { NoWs(); }
    var n' := Append(n, NewHead(c, n.obj, tok), v);
    forall j | 0 <= j < |n'.entries|
      ensures WfEntry(n.obj, n'.entries[j]) && Unique(c, n'.entries[j].value)
    {
      if j < |n.entries| {
        assert WfEntry(n.obj, n.entries[j]);
      } else {
        assert n.entries != [] ==> WfEntry(n.obj, n.entries[|n.entries| - 1]);
      }
    }
    AppendKeys(c, n, tok, v);
  }

  lemma NoWs()
    ensures AllWs([])
  {
  }

  lemma AppendKeys(c: Codec, n: Node, tok: bytes, v: Node)
    requires c.Faithful() && n.Group?
    ensures n.obj ==> Keys(c, Append(n, NewHead(c, n.obj, tok), v).entries) == Keys(c, n.entries) + [tok]
  {
  }

  lemma InsertKeeps(c: Codec, n: Node, i: nat, v: Node)
    requires n.Group? && !n.obj && Wf(n) && Unique(c, n) && Wf(v) && Unique(c, v) && i < |n.entries|
    ensures Wf(InsertBefore(n, i, v)) && Unique(c, InsertBefore(n, i, v))
  {
    hide IsString, IsToken, AllWs, WfLabel;
    assert AllWs([]) by { NoWs(); }
    assert WfLabel(false, Bare) by { BareWf(); }
    var n' := InsertBefore(n, i, v);
    var es, es' := n.entries, n'.entries;
    assert WfEntry(n.obj, es[i]);
    forall j | 0 <= j < |es'|
      ensures WfEntry(n.obj, es'[j]) && Unique(c, es'[j].value)
    {
      if j < i {
        assert es'[j] == es[j] && WfEntry(n.obj, es[j]);
      } else if j > i + 1 {
        assert es'[j] == es[j - 1] && WfEntry(n.obj, es[j - 1]);
      }
    }
  }

  lemma BareWf()
    ensures WfLabel(false, Bare)
  {
  }

  lemma RemoveKeeps(c: Codec, n: Node, i: nat)
    requires n.Group? && Wf(n) && Unique(c, n) && i < |n.entries|
    ensures Wf(RemoveEntry(n, i)) && Unique(c, RemoveEntry(n, i))
  {
    hide IsString, IsToken, AllWs, WfLabel, Distinct;
    assert AllWs([]) by { NoWs(); }
    var n' := RemoveEntry(n, i);
    var es, es' := n.entries, n'.entries;
    forall j | 0 <= j < |es'|
      ensures WfEntry(n.obj, es'[j]) && Unique(c, es'[j].value)
    {
      assert WfEntry(n.obj, es[i]);
      if j < i {
        assert WfEntry(n.obj, es[j]);
      } else {
        assert WfEntry(n.obj, es[j + 1]);
      }
    }
    RemoveKeys(c, n, i);
    if n.obj {
      DistinctWithout(Keys(c, es), i);
    }
  }

  lemma DistinctWithout(ks: seq<bytes>, i: nat)
    requires Distinct(ks) && i < |ks|
    ensures Distinct(ks[..i] + ks[i + 1..])
  {
  }

  lemma RemoveKeys(c: Codec, n: Node, i: nat)
    requires n.Group? && i < |n.entries|
    ensures Keys(c, RemoveEntry(n, i).entries) == Keys(c, n.entries)[..i] + Keys(c, n.entries)[i + 1..]
  {
  }

  // ----- and they are the tree edits -----

  lemma AppendValues(c: Codec, n: Node, head: Label, v: Node)
    requires n.Group?
    ensures ValuesOf(c, Append(n, head, v).entries) == ValuesOf(c, n.entries) + [ValueOf(c, v)]
  {
    hide ValuesOf, ValueOf;
    var es, es' := n.entries, Append(n, head, v).entries;
    forall j | 0 <= j < |es'|
      ensures ValuesOf(c, es')[j] == (ValuesOf(c, es) + [ValueOf(c, v)])[j]
    {
      ValuesOfAt(c, es', j);
      if j < |es| {
        ValuesOfAt(c, es, j);
      }
    }
  }

  lemma InsertValues(c: Codec, n: Node, i: nat, v: Node)
    requires n.Group? && i < |n.entries|
    ensures ValuesOf(c, InsertBefore(n, i, v).entries) ==
            ValuesOf(c, n.entries)[..i] + [ValueOf(c, v)] + ValuesOf(c, n.entries)[i..]
  {
    hide ValuesOf, ValueOf;
    var es, es' := n.entries, InsertBefore(n, i, v).entries;
    var vs := ValuesOf(c, es);
    forall j | 0 <= j < |es'|
      ensures ValuesOf(c, es')[j] == (vs[..i] + [ValueOf(c, v)] + vs[i..])[j]
    {
      ValuesOfAt(c, es', j);
      if j < i {
        ValuesOfAt(c, es, j);
      } else if j > i {
        ValuesOfAt(c, es, j - 1);
      }
    }
  }

  lemma RemoveValues(c: Codec, n: Node, i: nat)
    requires n.Group? && i < |n.entries|
    ensures ValuesOf(c, RemoveEntry(n, i).entries) == ValuesOf(c, n.entries)[..i] + ValuesOf(c, n.entries)[i + 1..]
  {
    hide ValuesOf, ValueOf;
    var es, es' := n.entries, RemoveEntry(n, i).entries;
    var vs := ValuesOf(c, es);
    forall j | 0 <= j < |es'|
      ensures ValuesOf(c, es')[j] == (vs[..i] + vs[i + 1..])[j]
    {
      ValuesOfAt(c, es', j);
      ValuesOfAt(c, es, if j < i then j else j + 1);
    }
  }

  /** A new member of an object, or a new last element of an array. */
  lemma AppendMatches(c: Codec, n: Node, tok: bytes, v: Node)
    requires c.Faithful() && n.Group? && Unique(c, n)
    requires if n.obj then ChildIndex(c, n, tok).None? else
             tok == [DASH] || Pointer.ParseIndex(tok) == Some(|n.entries|)
    ensures EditIn(ValueOf(c, n), tok, Add(ValueOf(c, v))) == Some(ValueOf(c, Append(n, NewHead(c, n.obj, tok), v)))
  {
    hide ValuesOf, ValueOf, Keys, MapOf, Append, NewHead, Pointer.ParseIndex, Unique;
    var head := NewHead(c, n.obj, tok);
    var n' := Append(n, head, v);
    AppendShape(n, head, v);
    ValueOfGroup(c, n);
    ValueOfGroup(c, n');
    AppendValues(c, n, head, v);
    if n.obj {
      AppendKeys(c, n, tok, v);
      MapOfSnoc(Keys(c, n.entries), ValuesOf(c, n.entries), tok, ValueOf(c, v));
    } else {
      var vs := ValuesOf(c, n.entries);
      assert vs[..|vs|] + [ValueOf(c, v)] + vs[|vs|..] == vs + [ValueOf(c, v)];
    }
  }

  lemma AppendShape(n: Node, head: Label, v: Node)
    requires n.Group?
    ensures Append(n, head, v).Group? && Append(n, head, v).obj == n.obj
    ensures |Append(n, head, v).entries| == |n.entries| + 1
  {
  }

  lemma MapOfSnoc(ks: seq<bytes>, vs: seq<Value>, k: bytes, x: Value)
    requires |ks| == |vs|
    ensures MapOf(ks + [k], vs + [x]) == MapOf(ks, vs)[k := x]
  {
    assert (ks + [k])[..|ks|] == ks && (vs + [x])[..|vs|] == vs;
  }

  lemma InsertMatches(c: Codec, n: Node, tok: bytes, v: Node)
    requires n.Group? && !n.obj && tok != [DASH]
    requires Pointer.ParseIndex(tok).Some? && Pointer.ParseIndex(tok).value < |n.entries|
    ensures EditIn(ValueOf(c, n), tok, Add(ValueOf(c, v))) ==
            Some(ValueOf(c, InsertBefore(n, Pointer.ParseIndex(tok).value, v)))
  {
    hide ValuesOf, ValueOf, Keys, MapOf, Pointer.ParseIndex;
    var i := Pointer.ParseIndex(tok).value;
    ValueOfGroup(c, n);
    ValueOfGroup(c, InsertBefore(n, i, v));
    InsertValues(c, n, i, v);
  }

  lemma RemoveMatches(c: Codec, n: Node, tok: bytes)
    requires Unique(c, n) && ChildIndex(c, n, tok).Some?
    ensures EditIn(ValueOf(c, n), tok, Remove) == Some(ValueOf(c, RemoveEntry(n, ChildIndex(c, n, tok).value)))
  {
    hide ValuesOf, ValueOf, Keys, MapOf, Pointer.ParseIndex, IndexOf, RemoveEntry, Unique;
    var i := ChildIndex(c, n, tok).value;
    ChildMatches(c, n, tok);
    RemoveShape(n, i);
    ValueOfGroup(c, n);
    ValueOfGroup(c, RemoveEntry(n, i));
    RemoveValues(c, n, i);
    RemoveKeys(c, n, i);
    if n.obj {
      UniqueAt(c, n, i);
      MapOfWithout(Keys(c, n.entries), ValuesOf(c, n.entries), i);
    }
  }

  lemma RemoveShape(n: Node, i: nat)
    requires n.Group? && i < |n.entries|
    ensures RemoveEntry(n, i).Group? && RemoveEntry(n, i).obj == n.obj
    ensures |RemoveEntry(n, i).entries| == |n.entries| - 1
  {
  }

  lemma MapOfWithout(ks: seq<bytes>, vs: seq<Value>, i: nat)
    requires |ks| == |vs| && Distinct(ks) && i < |ks|
    ensures MapOf(ks[..i] + ks[i + 1..], vs[..i] + vs[i + 1..]) == MapOf(ks, vs) - {ks[i]}
  {
    hide MapOf;
    var ks', vs' := ks[..i] + ks[i + 1..], vs[..i] + vs[i + 1..];
    var m := MapOf(ks, vs) - {ks[i]};
    DistinctWithout(ks, i);
    MapOfKeys(ks, vs);
    WithoutMembers(ks, i);
    forall j | 0 <= j < |ks'|
      ensures m[ks'[j]] == vs'[j]
    {
      var k := if j < i then j else j + 1;
      assert ks'[j] == ks[k] && vs'[j] == vs[k];
      MapOfAt(ks, vs, k);
    }
    MapOfIs(ks', vs', m);
  }

  lemma WithoutMembers(ks: seq<bytes>, i: nat)
    requires Distinct(ks) && i < |ks|
    ensures forall k :: k in ks[..i] + ks[i + 1..] <==> k in ks && k != ks[i]
  {
    var ks' := ks[..i] + ks[i + 1..];
    forall k | k in ks && k != ks[i]
      ensures k in ks'
    {
      var j :| 0 <= j < |ks| && ks[j] == k;
      assert ks'[if j < i then j else j - 1] == k;
    }
  }
}
