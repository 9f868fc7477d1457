/**
  Nodes inside a document: the path a pointer resolves to, the text on either side of a
  node, and what replacing a node does to the text and to the value.
 */
module Tree {
  import opened Bytes
  import opened Syntax
  import opened Values
  import Pointer

  // ----- one level -----

  function IndexOf(ks: seq<bytes>, k: bytes): (r: Option<nat>)
    ensures r.Some? ==> r.value < |ks| && ks[r.value] == k
  {
    if ks == [] then None
    else if ks[0] == k then Some(0)
    else
      var r := IndexOf(ks[1..], k);
      if r.Some? then Some(r.value + 1) else None
  }

  lemma {:induction false} IndexOfFirst(ks: seq<bytes>, k: bytes)
    ensures IndexOf(ks, k).Some? ==> k !in ks[..IndexOf(ks, k).value]
  {
    if ks != [] && ks[0] != k {
      IndexOfFirst(ks[1..], k);
      if IndexOf(ks, k).Some? {
        assert ks[..IndexOf(ks, k).value] == [ks[0]] + ks[1..][..IndexOf(ks[1..], k).value];
      }
    }
  }

  lemma {:induction false} IndexOfNone(ks: seq<bytes>, k: bytes)
    ensures IndexOf(ks, k).None? <==> k !in ks
  {
    if ks != [] {
      IndexOfNone(ks[1..], k);
      assert ks == [ks[0]] + ks[1..];
    }
  }

  /** The entry a reference token names: the first with that key, or the one at that index. */
  function ChildIndex(c: Codec, n: Node, tok: bytes): (r: Option<nat>)
    ensures r.Some? ==> n.Group? && r.value < |n.entries|
  {
    if n.Leaf? then None
    else if n.obj then IndexOf(Keys(c, n.entries), tok)
    else
      var i := Pointer.ParseIndex(tok);
      if i.Some? && i.value < |n.entries| then i else None
  }

  function PutChild(n: Node, i: nat, m: Node): Node
    requires n.Group? && i < |n.entries|
  {
    n.(entries := n.entries[i := n.entries[i].(value := m)])
  }

  /** The text of `n` before the value of entry `i`. */
  function LeftOf(n: Node, i: nat): bytes
    requires n.Group? && i < |n.entries|
  {
    [Opener(n.obj)] + Pre(Texts(n.entries[..i])) + n.entries[i].lead + PrintLabel(n.entries[i].head)
  }

  /** The text of `n` after the value of entry `i`. */
  function RightOf(n: Node, i: nat): bytes
    requires n.Group? && i < |n.entries|
  {
    n.entries[i].trail + Tail(Texts(n.entries[i + 1..])) + [Closer(n.obj)]
  }

  /** A group's entries, seen from one of them. */
  lemma EntriesAround(a: seq<Entry>, e: Entry, b: seq<Entry>)
    ensures Body(Texts(a + [e] + b)) == Pre(Texts(a)) + PrintEntry(e) + Tail(Texts(b))
  {
    hide Texts, Body, Pre, Tail, PrintEntry;
    TextsConcat(a + [e], b);
    TextsConcat(a, [e]);
    TextsOne(e);
    BodyAround(Texts(a), PrintEntry(e), Texts(b));
  }

  lemma SplitEntries(es: seq<Entry>, i: nat)
    requires i < |es|
    ensures es == es[..i] + [es[i]] + es[i + 1..]
  {
  }

  lemma ChildText(n: Node, i: nat)
    requires n.Group? && i < |n.entries|
    ensures Print(n) == LeftOf(n, i) + Print(n.entries[i].value) + RightOf(n, i)
  {
    hide Texts, Body, Pre, Tail, PrintEntry, Print, PrintLabel;
    var es := n.entries;
    PrintsGroup(n.obj, n.gap, es);
    SplitEntries(es, i);
    EntriesAround(es[..i], es[i], es[i + 1..]);
    PrintsEntry(es[i]);
  }

  lemma PutSides(n: Node, i: nat, m: Node)
    requires n.Group? && i < |n.entries|
    ensures LeftOf(PutChild(n, i, m), i) == LeftOf(n, i)
    ensures RightOf(PutChild(n, i, m), i) == RightOf(n, i)
  {
    hide Texts, Pre, Tail, PrintLabel;
    var es, es' := n.entries, PutChild(n, i, m).entries;
    assert es'[..i] == es[..i] && es'[i + 1..] == es[i + 1..];
  }

  lemma PutChildText(n: Node, i: nat, m: Node)
    requires n.Group? && i < |n.entries|
    ensures Print(PutChild(n, i, m)) == LeftOf(n, i) + Print(m) + RightOf(n, i)
  {
    hide Print, LeftOf, RightOf;
    ChildText(PutChild(n, i, m), i);
    PutSides(n, i, m);
  }

  // ----- paths -----

  predicate ValidPath(n: Node, p: seq<nat>) {
    p == [] || (n.Group? && p[0] < |n.entries| && ValidPath(n.entries[p[0]].value, p[1..]))
  }

  function At(n: Node, p: seq<nat>): Node
    requires ValidPath(n, p)
  {
    if p == [] then n else At(n.entries[p[0]].value, p[1..])
  }

  function Put(n: Node, p: seq<nat>, m: Node): Node
    requires ValidPath(n, p)
  {
    if p == [] then m else PutChild(n, p[0], Put(n.entries[p[0]].value, p[1..], m))
  }

  function Left(n: Node, p: seq<nat>): bytes
    requires ValidPath(n, p)
  {
    if p == [] then [] else LeftOf(n, p[0]) + Left(n.entries[p[0]].value, p[1..])
  }

  function Right(n: Node, p: seq<nat>): bytes
    requires ValidPath(n, p)
  {
    if p == [] then [] else Right(n.entries[p[0]].value, p[1..]) + RightOf(n, p[0])
  }

  /** A node's text is its left side, its own text and its right side. */
  lemma {:induction false} PathText(n: Node, p: seq<nat>)
    requires ValidPath(n, p)
    ensures Print(n) == Left(n, p) + Print(At(n, p)) + Right(n, p)
  {
    hide Print, LeftOf, RightOf;
    if p != [] {
      ChildText(n, p[0]);
      PathText(n.entries[p[0]].value, p[1..]);
    }
  }

  /** Replacing a node replaces its text and leaves both sides alone. */
  lemma {:induction false} PutText(n: Node, p: seq<nat>, m: Node)
    requires ValidPath(n, p)
    ensures Print(Put(n, p, m)) == Left(n, p) + Print(m) + Right(n, p)
  {
    hide Print, LeftOf, RightOf;
    if p != [] {
      var child := n.entries[p[0]].value;
      PutText(child, p[1..], m);
      PutChildText(n, p[0], Put(child, p[1..], m));
    }
  }

  lemma PutChildKeeps(c: Codec, n: Node, i: nat, m: Node)
    requires n.Group? && i < |n.entries| && Wf(n) && Unique(c, n) && Wf(m) && Unique(c, m)
    ensures Wf(PutChild(n, i, m)) && Unique(c, PutChild(n, i, m))
    ensures Keys(c, PutChild(n, i, m).entries) == Keys(c, n.entries)
  {
    hide WfLabel, IsToken;
    var n' := PutChild(n, i, m);
    assert Keys(c, n'.entries) == Keys(c, n.entries);
    forall j | 0 <= j < |n'.entries|
      ensures WfEntry(n.obj, n'.entries[j])
    {
      assert WfEntry(n.obj, n.entries[j]);
    }
  }

  lemma ChildKeeps(c: Codec, n: Node, i: nat)
    requires n.Group? && i < |n.entries| && Wf(n) && Unique(c, n)
    ensures Wf(n.entries[i].value) && Unique(c, n.entries[i].value)
  {
    assert WfEntry(n.obj, n.entries[i]);
  }

  lemma {:induction false} PutKeeps(c: Codec, n: Node, p: seq<nat>, m: Node)
    requires ValidPath(n, p) && Wf(n) && Unique(c, n) && Wf(m) && Unique(c, m)
    ensures Wf(Put(n, p, m)) && Unique(c, Put(n, p, m))
  {
    hide Wf, Unique;
    if p != [] {
      ChildKeeps(c, n, p[0]);
      PutKeeps(c, n.entries[p[0]].value, p[1..], m);
      PutChildKeeps(c, n, p[0], Put(n.entries[p[0]].value, p[1..], m));
    }
  }

  lemma {:induction false} AtKeeps(c: Codec, n: Node, p: seq<nat>)
    requires ValidPath(n, p) && Wf(n) && Unique(c, n)
    ensures Wf(At(n, p)) && Unique(c, At(n, p))
  {
    hide Wf, Unique;
    if p != [] {
      ChildKeeps(c, n, p[0]);
      AtKeeps(c, n.entries[p[0]].value, p[1..]);
    }
  }

  lemma {:induction false} WfAt(n: Node, p: seq<nat>)
    requires ValidPath(n, p) && Wf(n)
    ensures Wf(At(n, p))
  {
    if p != [] {
      assert WfEntry(n.obj, n.entries[p[0]]);
      WfAt(n.entries[p[0]].value, p[1..]);
    }
  }

  lemma {:induction false} PathConcat(n: Node, p: seq<nat>, q: seq<nat>)
    requires ValidPath(n, p) && ValidPath(At(n, p), q)
    ensures ValidPath(n, p + q) && At(n, p + q) == At(At(n, p), q)
    ensures Left(n, p + q) == Left(n, p) + Left(At(n, p), q)
  {
    hide LeftOf;
    if p == [] {
      assert p + q == q;
    } else {
      assert (p + q)[0] == p[0] && (p + q)[1..] == p[1..] + q;
      PathConcat(n.entries[p[0]].value, p[1..], q);
    }
  }

  // ----- pointers -----

  /** The node a list of reference tokens resolves to. */
  function PathOf(c: Codec, n: Node, toks: seq<bytes>): Option<seq<nat>>
    decreases |toks|
  {
    if toks == [] then Some([])
    else
      var i := ChildIndex(c, n, toks[0]);
      if i.None? then None
      else
        var p := PathOf(c, n.entries[i.value].value, toks[1..]);
        if p.None? then None else Some([i.value] + p.value)
  }

  lemma {:induction false} PathOfValid(c: Codec, n: Node, toks: seq<bytes>)
    requires PathOf(c, n, toks).Some?
    ensures ValidPath(n, PathOf(c, n, toks).value)
    decreases |toks|
  {
    if toks != [] {
      var i := ChildIndex(c, n, toks[0]).value;
      PathOfValid(c, n.entries[i].value, toks[1..]);
      var p := PathOf(c, n.entries[i].value, toks[1..]).value;
      assert ([i] + p)[1..] == p;
    }
  }

  /** The entry found in the text is the child found in the value. */
  lemma ChildMatches(c: Codec, n: Node, tok: bytes)
    requires Unique(c, n)
    ensures var i := ChildIndex(c, n, tok);
            Child(ValueOf(c, n), tok) == if i.None? then None else Some(ValueOf(c, n.entries[i.value].value))
  {
    hide ValueOf, ValuesOf, MapOf, Pointer.ParseIndex, IndexOf;
    if n.Leaf? {
      ValueOfLeaf(c, n.text);
    } else {
      var es := n.entries;
      ValueOfGroup(c, n);
      var i := ChildIndex(c, n, tok);
      if i.Some? {
        ValuesOfAt(c, es, i.value);
      }
      if n.obj {
        IndexOfNone(Keys(c, es), tok);
        MapOfKeys(Keys(c, es), ValuesOf(c, es));
        if i.Some? {
          MapOfAt(Keys(c, es), ValuesOf(c, es), i.value);
        }
      }
    }
  }

  lemma ValueOfLeaf(c: Codec, text: bytes)
    ensures ValueOf(c, Leaf(text)) == Atom(c.scalar(text))
  {
  }

  lemma {:induction false} ValuesOfPut(c: Codec, es: seq<Entry>, i: nat, m: Node)
    requires i < |es|
    ensures ValuesOf(c, es[i := es[i].(value := m)]) == ValuesOf(c, es)[i := ValueOf(c, m)]
  {
    hide ValueOf, ValuesOf;
    var e' := es[i].(value := m);
    var es' := es[i := e'];
    forall j | 0 <= j < |es|
      ensures ValuesOf(c, es')[j] == ValuesOf(c, es)[i := ValueOf(c, m)][j]
    {
      ValuesOfAt(c, es', j);
      ValuesOfAt(c, es, j);
    }
  }

  /** Replacing the entry a token names sets the child it names. */
  lemma PutChildMatches(c: Codec, n: Node, tok: bytes, m: Node)
    requires Unique(c, n) && ChildIndex(c, n, tok).Some? && Child(ValueOf(c, n), tok).Some?
    ensures var i := ChildIndex(c, n, tok).value;
            ValueOf(c, PutChild(n, i, m)) == SetChild(ValueOf(c, n), tok, ValueOf(c, m))
  {
    hide ValueOf, ValuesOf, Keys, MapOf, Pointer.ParseIndex, IndexOf, Unique;
    var i := ChildIndex(c, n, tok).value;
    var es := n.entries;
    var n' := PutChild(n, i, m);
    ValueOfGroup(c, n);
    ValueOfGroup(c, n');
    ValuesOfPut(c, es, i, m);
    KeysPut(c, es, i, m);
    if n.obj {
      UniqueAt(c, n, i);
      MapOfPut(Keys(c, es), ValuesOf(c, es), i, ValueOf(c, m));
    }
  }

  lemma KeysPut(c: Codec, es: seq<Entry>, i: nat, m: Node)
    requires i < |es|
    ensures Keys(c, es[i := es[i].(value := m)]) == Keys(c, es)
  {
  }

  lemma MapOfPut(ks: seq<bytes>, vs: seq<Value>, i: nat, x: Value)
    requires |ks| == |vs| && Distinct(ks) && i < |ks|
    ensures MapOf(ks, vs[i := x]) == MapOf(ks, vs)[ks[i] := x]
  {
    hide MapOf;
    MapOfKeys(ks, vs);
    forall j | 0 <= j < |ks|
      ensures MapOf(ks, vs)[ks[i] := x][ks[j]] == vs[i := x][j]
    {
      MapOfAt(ks, vs, j);
    }
    MapOfIs(ks, vs[i := x], MapOf(ks, vs)[ks[i] := x]);
  }

  /** Resolving in the text is resolving in the value. */
  lemma {:induction false} ResolveMatches(c: Codec, n: Node, toks: seq<bytes>)
    requires Wf(n) && Unique(c, n)
    ensures PathOf(c, n, toks).None? ==> Resolve(ValueOf(c, n), toks).None?
    ensures PathOf(c, n, toks).Some? ==>
              var p := PathOf(c, n, toks).value;
              ValidPath(n, p) && Resolve(ValueOf(c, n), toks) == Some(ValueOf(c, At(n, p)))
    decreases |toks|
  {
    hide ValueOf, Unique, Wf, Child, ChildIndex;
    if toks != [] {
      ChildMatches(c, n, toks[0]);
      var i := ChildIndex(c, n, toks[0]);
      if i.Some? {
        ChildKeeps(c, n, i.value);
        var child := n.entries[i.value].value;
        ResolveMatches(c, child, toks[1..]);
        var p := PathOf(c, child, toks[1..]);
        if p.Some? {
          assert ([i.value] + p.value)[1..] == p.value;
        }
      }
    }
  }

  /** Replacing the node a pointer resolves to is the tree-level replace. */
  lemma {:induction false} ReplaceMatches(c: Codec, n: Node, toks: seq<bytes>, m: Node)
    requires Wf(n) && Unique(c, n)
    ensures var p := PathOf(c, n, toks);
            && (p.None? ==> Alter(ValueOf(c, n), toks, Replace(ValueOf(c, m))).None?)
            && (p.Some? ==>
                  && ValidPath(n, p.value)
                  && Alter(ValueOf(c, n), toks, Replace(ValueOf(c, m))) == Some(ValueOf(c, Put(n, p.value, m))))
    decreases |toks|
  {
    hide ValueOf, Unique, Wf, Child, ChildIndex, SetChild;
    if toks != [] {
      ChildMatches(c, n, toks[0]);
      var i := ChildIndex(c, n, toks[0]);
      if i.Some? {
        ChildKeeps(c, n, i.value);
        var child := n.entries[i.value].value;
        ReplaceMatches(c, child, toks[1..], m);
        var p := PathOf(c, child, toks[1..]);
        if p.Some? {
          assert ([i.value] + p.value)[1..] == p.value;
          PutChildMatches(c, n, toks[0], Put(child, p.value, m));
        }
      }
    }
  }

  /**
    An edit in the value happens at the container the parent tokens resolve to in the text:
    where that container becomes `m`, the document becomes the one with `m` put in its place.
   */
  lemma {:induction false} AlterMatches(c: Codec, n: Node, toks: seq<bytes>, e: Edit, m: Node)
    requires Wf(n) && Unique(c, n) && toks != []
    ensures var p := PathOf(c, n, toks[..|toks| - 1]);
            && (p.None? ==> Alter(ValueOf(c, n), toks, e).None?)
            && (p.Some? ==>
                  && ValidPath(n, p.value)
                  && var local := EditIn(ValueOf(c, At(n, p.value)), toks[|toks| - 1], e);
                  && (local.None? ==> Alter(ValueOf(c, n), toks, e).None?)
                  && (local == Some(ValueOf(c, m)) ==>
                        Alter(ValueOf(c, n), toks, e) == Some(ValueOf(c, Put(n, p.value, m)))))
    decreases |toks|
  {
    hide ValueOf, Unique, Wf, Child, ChildIndex, EditIn, SetChild;
    if |toks| > 1 {
      ChildMatches(c, n, toks[0]);
      var i := ChildIndex(c, n, toks[0]);
      var init := toks[..|toks| - 1];
      assert init[0] == toks[0] && init[1..] == toks[1..][..|toks| - 2];
      if i.Some? {
        ChildKeeps(c, n, i.value);
        var child := n.entries[i.value].value;
        AlterMatches(c, child, toks[1..], e, m);
        var p := PathOf(c, child, init[1..]);
        if p.Some? {
          assert ([i.value] + p.value)[1..] == p.value;
          PutChildMatches(c, n, toks[0], Put(child, p.value, m));
        }
      }
    }
  }
}
