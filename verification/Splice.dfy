/** Batch replacement: `splice_native` in ext/nosj/src/patch.rs. */
module Splice {
  import opened Bytes
  import opened Syntax
  import opened Values
  import opened Tree
  import opened Entries
  import opened Edits
  import opened Paths
  import opened Sweep
  import opened Grammar
  import opened Pointer
  import Patch
  import Sorting

  datatype Fault = ArgumentFault | GeneratorFault | KeyFault

  /** One pair of the edits Hash. */
  datatype Edit = Edit(pointer: Patch.Field<bytes>, value: Patch.Operand)

  // ----- the reference -----

  /** Replacements in order, each at a location that must exist. */
  function Replaced(v: Value, es: seq<(seq<bytes>, Value)>): Option<Value>
    decreases |es|
  {
    if es == [] then Some(v)
    else
      var w := Alter(v, es[0].0, Replace(es[0].1));
      if w.None? then None else Replaced(w.value, es[1..])
  }

  /** Neither token list of any two edits is a prefix of the other. */
  ghost predicate NoneInside(es: seq<(seq<bytes>, Value)>) {
    forall i, j :: 0 <= i < j < |es| ==> !Comparable(es[i].0, es[j].0)
  }

  /** Every edit has a String pointer that starts with a slash or is empty, and a value the generator emits. */
  predicate Usable(e: Edit) {
    e.pointer.Text? && Tokens(e.pointer.text).Some? && e.value.text.Some?
  }

  ghost predicate AllUsable(es: seq<Edit>) {
    forall i :: 0 <= i < |es| ==> Usable(es[i])
  }

  function TreeEdit(e: Edit): (seq<bytes>, Value)
    requires Usable(e)
  {
    (Tokens(e.pointer.text).value, e.value.value)
  }

  ghost function TreeEdits(es: seq<Edit>): (ts: seq<(seq<bytes>, Value)>)
    requires AllUsable(es)
    ensures |ts| == |es|
  {
    seq(|es|, i requires 0 <= i < |es| => TreeEdit(es[i]))
  }

  // ----- replacements by pointer are replacements by path -----

  lemma KeptChild(c: Codec, n: Node, i: nat, m: Node, tok: bytes)
    requires n.Group? && i < |n.entries|
    ensures ChildIndex(c, PutChild(n, i, m), tok) == ChildIndex(c, n, tok)
  {
    hide IndexOf, ParseIndex, KeyOf, Keys;
    KeysPut(c, n.entries, i, m);
  }

  /** Replacing one place leaves the resolution of pointers apart from it as it was. */
  lemma {:induction false} PathStays(c: Codec, n: Node, a: seq<bytes>, b: seq<bytes>, m: Node)
    requires PathOf(c, n, a).Some? && ValidPath(n, PathOf(c, n, a).value) && !Comparable(a, b)
    ensures PathOf(c, Put(n, PathOf(c, n, a).value, m), b) == PathOf(c, n, b)
    decreases |a|
  {
    hide ChildIndex;
    var p := PathOf(c, n, a).value;
    var i := ChildIndex(c, n, a[0]).value;
    var child := n.entries[i].value;
    var q := PathOf(c, child, a[1..]).value;
    assert p[0] == i && p[1..] == q;
    KeptChild(c, n, i, Put(child, q, m), b[0]);
    if ChildIndex(c, n, b[0]) == Some(i) {
      SameChildSameToken(c, n, a[0], b[0]);
      PathStays(c, child, a[1..], b[1..], m);
    }
  }

  ghost predicate Resolves(c: Codec, n: Node, es: seq<(seq<bytes>, Value)>) {
    forall i :: 0 <= i < |es| ==> PathOf(c, n, es[i].0).Some?
  }

  /** The targets are where the pointers resolve, and hold the values. */
  ghost predicate Targets(c: Codec, n: Node, es: seq<(seq<bytes>, Value)>, ts: seq<Target>) {
    && |ts| == |es|
    && forall i :: 0 <= i < |es| ==>
         && PathOf(c, n, es[i].0) == Some(ts[i].path) && ValidPath(n, ts[i].path)
         && ValueOf(c, ts[i].node) == es[i].1
  }

  lemma RestInside(es: seq<(seq<bytes>, Value)>)
    requires es != [] && NoneInside(es)
    ensures NoneInside(es[1..])
    ensures forall i :: 0 <= i < |es| - 1 ==> !Comparable(es[0].0, es[1..][i].0)
  {
    hide Comparable;
    forall i | 0 <= i < |es| - 1
      ensures !Comparable(es[0].0, es[1..][i].0)
    {
      assert es[1..][i] == es[i + 1];
    }
  }

  /** With targets apart, the tree-level replacements succeed and give the document with all targets replaced. */
  lemma {:induction false} ReplacedMatches(c: Codec, n: Node, es: seq<(seq<bytes>, Value)>, ts: seq<Target>)
    requires Wf(n) && Unique(c, n) && NoneInside(es) && Targets(c, n, es, ts) && AllWellFormed(c, ts)
    ensures Replaced(ValueOf(c, n), es) == Some(ValueOf(c, PutAll(n, ts)))
    decreases |es|
  {
    hide Wf, Unique, ValueOf, Put, PathOf, Alter, Comparable, ValidPath;
    if es != [] {
      var t := ts[0];
      var n' := Put(n, t.path, t.node);
      ReplaceMatches(c, n, es[0].0, t.node);
      PutKeeps(c, n, t.path, t.node);
      RestInside(es);
      forall i | 0 <= i < |es| - 1
        ensures PathOf(c, n', es[1..][i].0) == Some(ts[1..][i].path) && ValidPath(n', ts[1..][i].path)
      {
        assert es[1..][i] == es[i + 1] && ts[1..][i] == ts[i + 1];
        PathStays(c, n, es[0].0, es[i + 1].0, t.node);
        PathOfValid(c, n', es[i + 1].0);
      }
      ReplacedMatches(c, n', es[1..], ts[1..]);
    }
  }

  /** Where some pointer does not resolve, the tree-level replacements fail. */
  lemma {:induction false} ReplacedFails(c: Codec, n: Node, es: seq<(seq<bytes>, Value)>, ms: seq<Node>)
    requires Wf(n) && Unique(c, n) && NoneInside(es) && |ms| == |es| && !Resolves(c, n, es)
    requires forall i :: 0 <= i < |es| ==> Wf(ms[i]) && Unique(c, ms[i]) && ValueOf(c, ms[i]) == es[i].1
    ensures Replaced(ValueOf(c, n), es).None?
    decreases |es|
  {
    hide Wf, Unique, ValueOf, Put, PathOf, Alter, Comparable, ValidPath;
    ReplaceMatches(c, n, es[0].0, ms[0]);
    if PathOf(c, n, es[0].0).Some? {
      var p := PathOf(c, n, es[0].0).value;
      var n' := Put(n, p, ms[0]);
      PutKeeps(c, n, p, ms[0]);
      RestInside(es);
      var k :| 0 <= k < |es| && PathOf(c, n, es[k].0).None?;
      assert es[1..][k - 1] == es[k];
      PathStays(c, n, es[0].0, es[k].0, ms[0]);
      assert PathOf(c, n', es[1..][k - 1].0).None?;
      ReplacedFails(c, n', es[1..], ms[1..]);
    }
  }

  // ----- sorting the spans -----

  /** A resolved span and the edit it belongs to. */
  datatype Span = Span(start: nat, end: nat, edit: nat)

  ghost predicate Sorted(ss: seq<Span>) {
    forall i, j :: 0 <= i < j < |ss| ==> ss[i].start <= ss[j].start
  }

  // ----- spans and targets -----

  /** Each span is that of the target its edit has. */
  ghost predicate SpansMatch(d: Doc, ts: seq<Target>, ss: seq<Span>) {
    forall i :: 0 <= i < |ss| ==>
      && ss[i].edit < |ts| && ValidPath(d.root, ts[ss[i].edit].path)
      && ss[i].start == |d.lead| + |Left(d.root, ts[ss[i].edit].path)|
      && ss[i].end == |d.lead| + EndOf(d.root, ts[ss[i].edit].path)
  }

  ghost function Picked(ts: seq<Target>, ss: seq<Span>): (us: seq<Target>)
    requires forall i :: 0 <= i < |ss| ==> ss[i].edit < |ts|
    ensures |us| == |ss|
  {
    seq(|ss|, i requires 0 <= i < |ss| => ts[ss[i].edit])
  }

  lemma SameElements(ss: seq<Span>, sorted: seq<Span>)
    requires multiset(ss) == multiset(sorted)
    ensures |ss| == |sorted|
    ensures forall i :: 0 <= i < |sorted| ==> sorted[i] in ss
  {
    assert |ss| == |multiset(ss)| && |sorted| == |multiset(sorted)|;
    forall i | 0 <= i < |sorted|
      ensures sorted[i] in ss
    {
      assert sorted[i] in multiset(sorted);
    }
  }

  /** A permutation of the spans permutes the targets. */
  lemma {:induction false} PickedMultiset(ts: seq<Target>, ss: seq<Span>, sorted: seq<Span>)
    requires multiset(ss) == multiset(sorted)
    requires forall i :: 0 <= i < |ss| ==> ss[i].edit < |ts|
    ensures forall i :: 0 <= i < |sorted| ==> sorted[i].edit < |ts|
    ensures multiset(Picked(ts, ss)) == multiset(Picked(ts, sorted))
    decreases |sorted|
  {
    SameElements(ss, sorted);
    if sorted != [] {
      var i := FindIn(ss, sorted);
      WithoutMultiset(ss, i, sorted);
      var rest := Without(ss, i);
      PickedMultiset(ts, rest, sorted[1..]);
      PickedWithout(ts, ss, i);
      assert Picked(ts, sorted) == [ts[sorted[0].edit]] + Picked(ts, sorted[1..]);
    }
  }

  lemma PickedWithout(ts: seq<Target>, ss: seq<Span>, i: nat)
    requires i < |ss| && forall i :: 0 <= i < |ss| ==> ss[i].edit < |ts|
    ensures multiset(Picked(ts, ss)) == multiset(Picked(ts, Without(ss, i))) + multiset{ts[ss[i].edit]}
  {
    var us := Picked(ts, ss);
    assert us == us[..i] + [us[i]] + us[i + 1..];
    assert Picked(ts, Without(ss, i)) == us[..i] + us[i + 1..];
  }

  /** Being apart does not depend on the order of the targets. */
  lemma {:induction false} ApartAnyOrder(ts: seq<Target>, us: seq<Target>)
    requires multiset(ts) == multiset(us) && AllApart(ts)
    ensures AllApart(us)
    decreases |us|
  {
    hide Before, Apart;
    if us != [] {
      var i := FindIn(ts, us);
      var rest := Without(ts, i);
      WithoutMultiset(ts, i, us);
      RestApart(ts, i);
      ApartAnyOrder(rest, us[1..]);
      forall j | 1 <= j < |us|
        ensures Apart(us[0].path, us[j].path)
      {
        assert us[j] == us[1..][j - 1] && us[1..][j - 1] in multiset(us[1..]);
        assert us[j] in multiset(rest);
        var k :| 0 <= k < |rest| && rest[k] == us[j];
      }
      forall a, b | 0 <= a < b < |us|
        ensures Apart(us[a].path, us[b].path)
      {
        if a > 0 {
          assert us[a] == us[1..][a - 1] && us[b] == us[1..][b - 1];
        }
      }
    }
  }

  /** Sorted spans whose neighbours do not overlap are those of targets in text order. */
  lemma NeighboursApart(c: Codec, d: Doc, ts: seq<Target>, ss: seq<Span>)
    requires WfDoc(d) && Unique(c, d.root) && SpansMatch(d, ts, ss) && Sorted(ss)
    requires forall i :: 0 <= i < |ss| - 1 ==> ss[i].end <= ss[i + 1].start
    ensures Ascending(Picked(ts, ss))
  {
    hide Before, ValidPath, Left, EndOf, Wf, Unique, AllWs;
    var us := Picked(ts, ss);
    forall i, j | 0 <= i < j < |us|
      ensures Before(us[i].path, us[j].path)
    {
      assert ss[i].end <= ss[i + 1].start <= ss[j].start;
      DisjointIffApart(c, d.root, us[i].path, us[j].path);
    }
  }

  /** Conversely, targets apart have sorted spans whose neighbours do not overlap. */
  lemma ApartNeighbours(c: Codec, d: Doc, ts: seq<Target>, ss: seq<Span>, i: nat)
    requires WfDoc(d) && Unique(c, d.root) && SpansMatch(d, ts, ss) && Sorted(ss)
    requires AllApart(Picked(ts, ss)) && i + 1 < |ss|
    ensures ss[i].end <= ss[i + 1].start
  {
    hide Before, ValidPath, Left, Wf, Unique, AllWs, EndOf;
    var us := Picked(ts, ss);
    assert Apart(us[i].path, us[i + 1].path);
    DisjointIffApart(c, d.root, us[i].path, us[i + 1].path);
    BeforeSpans(d.root, us[i].path, us[i + 1].path);
  }

  /** Targets of resolved pointers are apart exactly when no token list is a prefix of another. */
  lemma ApartIffNoneInside(c: Codec, n: Node, es: seq<(seq<bytes>, Value)>, ts: seq<Target>)
    requires Targets(c, n, es, ts)
    ensures AllApart(ts) <==> NoneInside(es)
  {
    hide PathOf, ValidPath, Apart, Comparable;
    forall i, j | 0 <= i < j < |ts|
      ensures Apart(ts[i].path, ts[j].path) <==> !Comparable(es[i].0, es[j].0)
    {
      ApartOrComparable(ts[i].path, ts[j].path);
      ComparableTokens(c, n, es[i].0, es[j].0);
    }
  }

  // ----- splice_native -----

  /** What rendering the edits leaves: the pointers, all values' text, and each value's range in it. */
  datatype Rendering = Rendering(pointers: seq<bytes>, text: bytes, ranges: seq<(nat, nat)>)

  ghost predicate Renders(es: seq<Edit>, g: Rendering) {
    && |g.pointers| == |g.ranges| == |es|
    && forall i :: 0 <= i < |es| ==>
         && es[i].pointer == Patch.Text(g.pointers[i])
         && g.ranges[i].0 <= g.ranges[i].1 <= |g.text|
         && es[i].value.text == Some(g.text[g.ranges[i].0..g.ranges[i].1])
  }

  /** Every value is rendered before the source is looked at. */
  /** The edit has a String pointer, and a value the generator emits. */
  predicate Renderable(e: Edit) {
    e.pointer.Text? && e.value.text.Some?
  }

  predicate FirstUnrendered(es: seq<Edit>, i: nat) {
    i < |es| && !Renderable(es[i]) && forall j :: 0 <= j < i ==> Renderable(es[j])
  }

  function UnrenderedFault(e: Edit): Fault {
    if e.pointer.NotText? then ArgumentFault else GeneratorFault
  }

  /**
    Why a batch is refused, in this order: the first edit without a String pointer or a value
    that generates, a malformed pointer, a pointer to nothing, a target inside another.
   */
  ghost predicate Refused(v: Value, es: seq<Edit>, f: Fault) {
    if exists i :: 0 <= i < |es| && !Renderable(es[i]) then exists i: nat :: FirstUnrendered(es, i) && f == UnrenderedFault(es[i])
    else if !AllUsable(es) then f == ArgumentFault
    else if exists i :: 0 <= i < |es| && Resolve(v, TreeEdits(es)[i].0).None? then f == KeyFault
    else !NoneInside(TreeEdits(es)) && f == ArgumentFault
  }

  method RenderAll(es: seq<Edit>) returns (r: Result<Rendering, Fault>)
    ensures r.Ok? ==> Renders(es, r.value)
    ensures r.Err? ==> exists i: nat :: FirstUnrendered(es, i) && r.error == UnrenderedFault(es[i])
  {
    var pointers: seq<bytes>, rendered: bytes, ranges: seq<(nat, nat)> := [], [], [];
    for i := 0 to |es|
      invariant Renders(es[..i], Rendering(pointers, rendered, ranges))
      invariant forall j :: 0 <= j < i ==> Renderable(es[j])
    {
      if es[i].pointer.NotText? {
        assert FirstUnrendered(es, i);
        return Err(ArgumentFault);
      }
      var start := |rendered|;
      if es[i].value.text.None? {
        assert FirstUnrendered(es, i);
        return Err(GeneratorFault);
      }
      ghost var was := Rendering(pointers, rendered, ranges);
      pointers := pointers + [es[i].pointer.text];
      rendered := rendered + es[i].value.text.value;
      ranges := ranges + [(start, |rendered|)];
      RenderMore(es, i, was, es[i].value.text.value);
    }
    assert es[..|es|] == es;
    r := Ok(Rendering(pointers, rendered, ranges));
  }

  lemma RenderMore(es: seq<Edit>, i: nat, g: Rendering, text: bytes)
    requires i < |es| && Renders(es[..i], g) && es[i].pointer.Text? && es[i].value.text == Some(text)
    ensures Renders(es[..i + 1], Rendering(g.pointers + [es[i].pointer.text], g.text + text,
                                           g.ranges + [(|g.text|, |g.text + text|)]))
  {
    var g' := Rendering(g.pointers + [es[i].pointer.text], g.text + text, g.ranges + [(|g.text|, |g.text + text|)]);
    forall j | 0 <= j < i + 1
      ensures es[..i + 1][j].pointer == Patch.Text(g'.pointers[j])
      ensures g'.ranges[j].0 <= g'.ranges[j].1 <= |g'.text|
      ensures es[..i + 1][j].value.text == Some(g'.text[g'.ranges[j].0..g'.ranges[j].1])
    {
      if j < i {
        assert es[..i + 1][j] == es[..i][j];
        assert g'.text[g.ranges[j].0..g.ranges[j].1] == g.text[g.ranges[j].0..g.ranges[j].1];
      } else {
        assert g'.text[|g.text|..] == text;
        assert g'.text[|g.text|..|g'.text|] == text;
      }
    }
  }

  /** The batch resolver: one result per pointer, as if each were resolved alone. */
  function ResolveAll(c: Codec, input: bytes, ptrs: seq<bytes>): (r: Result<seq<Option<(nat, nat)>>, Patch.Fault>)
    ensures r.Err? ==> exists i :: 0 <= i < |ptrs| && Patch.SpanAt(c, input, ptrs[i]).Err?
    ensures r.Ok? ==> |r.value| == |ptrs|
    ensures r.Ok? ==> forall i :: 0 <= i < |ptrs| ==> Patch.SpanAt(c, input, ptrs[i]) == Ok(r.value[i])
  {
    if ptrs == [] then Ok([])
    else
      var first := Patch.SpanAt(c, input, ptrs[|ptrs| - 1]);
      var init := ResolveAll(c, input, ptrs[..|ptrs| - 1]);
      if init.Err? then init
      else if first.Err? then Err(first.error)
      else Ok(init.value + [first.value])
  }

  method CollectSpans(hits: seq<Option<(nat, nat)>>) returns (r: Result<seq<Span>, Fault>)
    ensures r.Ok? <==> forall i :: 0 <= i < |hits| ==> hits[i].Some?
    ensures r.Err? ==> r == Err(KeyFault)
    ensures r.Ok? ==> |r.value| == |hits|
    ensures r.Ok? ==> forall i :: 0 <= i < |hits| ==> r.value[i] == Span(hits[i].value.0, hits[i].value.1, i)
  {
    var spans: seq<Span> := [];
    for i := 0 to |hits|
      invariant |spans| == i
      invariant forall j :: 0 <= j < i ==> hits[j].Some? && spans[j] == Span(hits[j].value.0, hits[j].value.1, j)
    {
      if hits[i].None? {
        return Err(KeyFault);
      }
      spans := spans + [Span(hits[i].value.0, hits[i].value.1, i)];
    }
    r := Ok(spans);
  }

  /** Whether neighbouring spans overlap. */
  method Overlaps(spans: seq<Span>) returns (overlap: bool)
    ensures overlap <==> exists i :: 0 <= i < |spans| - 1 && spans[i + 1].start < spans[i].end
  {
    var i := 1;
    while i < |spans|
      invariant 1 <= i
      invariant forall j :: 0 <= j < i - 1 && j < |spans| - 1 ==> spans[j].end <= spans[j + 1].start
    {
      if spans[i].start < spans[i - 1].end {
        assert spans[i - 1 + 1] == spans[i];
        return true;
      }
      i := i + 1;
    }
    overlap := false;
  }

  ghost function PieceAt(s: Span, g: Rendering): Piece
    requires s.edit < |g.ranges| && g.ranges[s.edit].0 <= g.ranges[s.edit].1 <= |g.text|
  {
    Piece(s.start, s.end, g.text[g.ranges[s.edit].0..g.ranges[s.edit].1])
  }

  ghost function PiecesAt(ss: seq<Span>, g: Rendering): (ps: seq<Piece>)
    requires forall i :: 0 <= i < |ss| ==>
               ss[i].edit < |g.ranges| && g.ranges[ss[i].edit].0 <= g.ranges[ss[i].edit].1 <= |g.text|
    ensures |ps| == |ss|
  {
    seq(|ss|, i requires 0 <= i < |ss| => PieceAt(ss[i], g))
  }

  /** One sweep copying every byte outside the spans. */
  method SweepSpans(input: bytes, spans: seq<Span>, g: Rendering) returns (out: bytes)
    requires forall i :: 0 <= i < |spans| ==>
               spans[i].edit < |g.ranges| && g.ranges[spans[i].edit].0 <= g.ranges[spans[i].edit].1 <= |g.text|
    requires Fits(input, PiecesAt(spans, g), 0)
    ensures out == SweepOf(input, PiecesAt(spans, g), 0)
  {
    hide SweepOf, Fits, PieceAt;
    out := [];
    var pos: nat := 0;
    ghost var ps := PiecesAt(spans, g);
    assert ps[0..] == ps;
    for i := 0 to |spans|
      invariant Fits(input, ps[i..], pos)
      invariant out + SweepOf(input, ps[i..], pos) == SweepOf(input, ps, 0)
    {
      var s := spans[i];
      var range := g.ranges[s.edit];
      assert ps[i] == PieceAt(s, g);
      PieceAtIs(s, g);
      SweepStep(input, ps, i, pos);
      Assoc(out, input[pos..s.start] + ps[i].text, SweepOf(input, ps[i + 1..], s.end));
      out := out + (input[pos..s.start] + g.text[range.0..range.1]);
      pos := s.end;
    }
    FitsIn(input, ps[|spans|..], pos);
    SweepEnd(input, ps[|spans|..], pos);
    out := out + input[pos..];
  }

  lemma PieceAtIs(s: Span, g: Rendering)
    requires s.edit < |g.ranges| && g.ranges[s.edit].0 <= g.ranges[s.edit].1 <= |g.text|
    ensures PieceAt(s, g) == Piece(s.start, s.end, g.text[g.ranges[s.edit].0..g.ranges[s.edit].1])
  {
  }

  lemma SweepStep(doc: bytes, ps: seq<Piece>, i: nat, pos: nat)
    requires i < |ps| && Fits(doc, ps[i..], pos)
    ensures pos <= ps[i].start <= |doc| && Fits(doc, ps[i + 1..], ps[i].end)
    ensures SweepOf(doc, ps[i..], pos) ==
            doc[pos..ps[i].start] + ps[i].text + SweepOf(doc, ps[i + 1..], ps[i].end)
  {
    FitsIn(doc, ps[i..], pos);
    assert ps[i..][0] == ps[i] && ps[i..][1..] == ps[i + 1..];
  }

  lemma SweepEnd(doc: bytes, ps: seq<Piece>, pos: nat)
    requires ps == [] && Fits(doc, ps, pos)
    ensures pos <= |doc| && SweepOf(doc, ps, pos) == doc[pos..]
  {
  }

  // ----- the whole batch -----

  ghost predicate AllGenerated(c: Codec, es: seq<Edit>) {
    forall i :: 0 <= i < |es| ==> Patch.Generated(c, es[i].value)
  }

  /** The target an edit has in the document. */
  ghost function TargetOf(c: Codec, n: Node, e: Edit): Target
    requires Usable(e) && ParseDoc(e.value.text.value).Some?
  {
    var p := PathOf(c, n, Tokens(e.pointer.text).value);
    Target(if p.Some? then p.value else [], RootOf(e.value.text.value))
  }

  ghost function TargetsOf(c: Codec, n: Node, es: seq<Edit>): (ts: seq<Target>)
    requires AllUsable(es) && AllGenerated(c, es)
    ensures |ts| == |es|
  {
    seq(|es|, i requires 0 <= i < |es| => GeneratedParses(c, es, i); TargetOf(c, n, es[i]))
  }

  lemma GeneratedParses(c: Codec, es: seq<Edit>, i: nat)
    requires AllUsable(es) && AllGenerated(c, es) && i < |es|
    ensures Usable(es[i]) && Good(c, es[i].value.text.value)
    ensures var n := RootOf(es[i].value.text.value);
            && Wf(n) && Unique(c, n) && Print(n) == es[i].value.text.value
            && ValueOf(c, n) == es[i].value.value
  {
    hide ParseDoc, Wf, Unique, Print, ValueOf, Tokens;
    assert Patch.Generated(c, es[i].value);
    GoodRoot(c, es[i].value.text.value);
    var n := RootOf(es[i].value.text.value);
    assert [] + Print(n) + [] == Print(n);
  }

  /** The targets hold the values, at the places the pointers resolve to. */
  lemma TargetsHold(c: Codec, input: bytes, es: seq<Edit>)
    requires Good(c, input) && AllUsable(es) && AllGenerated(c, es)
    requires Resolves(c, RootOf(input), TreeEdits(es))
    ensures var ts := TargetsOf(c, RootOf(input), es);
            Targets(c, RootOf(input), TreeEdits(es), ts) && AllWellFormed(c, ts) && AllValid(RootOf(input), ts)
  {
    hide ParseDoc, Wf, Unique, Print, ValueOf, Tokens, PathOf, ValidPath;
    var n := RootOf(input);
    var ts, tes := TargetsOf(c, n, es), TreeEdits(es);
    forall i | 0 <= i < |es|
      ensures PathOf(c, n, tes[i].0) == Some(ts[i].path) && ValidPath(n, ts[i].path)
      ensures ValueOf(c, ts[i].node) == tes[i].1 && Wf(ts[i].node) && Unique(c, ts[i].node)
    {
      GeneratedParses(c, es, i);
      assert ts[i] == TargetOf(c, n, es[i]);
      PathOfValid(c, n, tes[i].0);
    }
  }

  /** Resolved hits are the spans of the targets. */
  lemma HitsAreTargets(c: Codec, input: bytes, es: seq<Edit>, g: Rendering, hits: seq<Option<(nat, nat)>>)
    requires Good(c, input) && AllGenerated(c, es) && Renders(es, g) && |hits| == |es|
    requires forall i :: 0 <= i < |es| ==> Patch.SpanAt(c, input, g.pointers[i]) == Ok(hits[i])
    ensures AllUsable(es)
    ensures Resolves(c, RootOf(input), TreeEdits(es)) <==> forall i :: 0 <= i < |hits| ==> hits[i].Some?
    ensures Resolves(c, RootOf(input), TreeEdits(es)) ==>
              var d := ParseDoc(input).value; var ts := TargetsOf(c, d.root, es);
              forall i :: 0 <= i < |hits| ==>
                && ValidPath(d.root, ts[i].path)
                && hits[i] == Some((|d.lead| + |Left(d.root, ts[i].path)|, |d.lead| + EndOf(d.root, ts[i].path)))
  {
    hide ParseDoc, Wf, Unique, Print, ValueOf, Tokens, PathOf, ValidPath, Left, At;
    var d := ParseDoc(input).value;
    forall i | 0 <= i < |es|
      ensures Usable(es[i])
      ensures PathOf(c, d.root, Tokens(es[i].pointer.text).value).Some? <==> hits[i].Some?
    {
      HitIsSpan(c, input, es[i], hits[i]);
    }
    assert AllUsable(es);
    forall i | 0 <= i < |es|
      ensures PathOf(c, d.root, TreeEdits(es)[i].0).Some? <==> hits[i].Some?
    {
      assert TreeEdits(es)[i] == TreeEdit(es[i]);
    }
    if Resolves(c, d.root, TreeEdits(es)) {
      TargetsHold(c, input, es);
      var ts := TargetsOf(c, d.root, es);
      forall i | 0 <= i < |hits|
        ensures ValidPath(d.root, ts[i].path)
        ensures hits[i] == Some((|d.lead| + |Left(d.root, ts[i].path)|, |d.lead| + EndOf(d.root, ts[i].path)))
      {
        assert PathOf(c, d.root, TreeEdits(es)[i].0) == Some(ts[i].path);
        HitIsSpan(c, input, es[i], hits[i]);
      }
    }
  }

  lemma HitIsSpan(c: Codec, input: bytes, e: Edit, hit: Option<(nat, nat)>)
    requires Good(c, input) && e.pointer.Text? && e.value.text.Some?
    requires Patch.SpanAt(c, input, e.pointer.text) == Ok(hit)
    ensures Usable(e)
    ensures var d := ParseDoc(input).value; var p := PathOf(c, d.root, Tokens(e.pointer.text).value);
            && (p.Some? <==> hit.Some?)
            && (p.Some? ==>
                  && ValidPath(d.root, p.value)
                  && hit == Some((|d.lead| + |Left(d.root, p.value)|, |d.lead| + EndOf(d.root, p.value))))
  {
    hide ParseDoc, Unique, Print, Tokens, PathOf, Left, At;
    Patch.SpanHolds(c, input, e.pointer.text);
  }

  /** The sorted spans' pieces are the picked targets' pieces. */
  lemma PiecesAgree(c: Codec, input: bytes, es: seq<Edit>, g: Rendering, ss: seq<Span>)
    requires Good(c, input) && AllUsable(es) && AllGenerated(c, es) && Renders(es, g)
    requires var d := ParseDoc(input).value; SpansMatch(d, TargetsOf(c, d.root, es), ss)
    ensures forall i :: 0 <= i < |ss| ==>
              ss[i].edit < |g.ranges| && g.ranges[ss[i].edit].0 <= g.ranges[ss[i].edit].1 <= |g.text|
    ensures var d := ParseDoc(input).value; var us := Picked(TargetsOf(c, d.root, es), ss);
            AllValid(d.root, us) && PiecesAt(ss, g) == PiecesOf(d, us)
  {
    hide ParseDoc, Wf, Unique, Print, ValueOf, Tokens, PathOf, ValidPath, Left, At, EndOf;
    var d := ParseDoc(input).value;
    var ts := TargetsOf(c, d.root, es);
    var us := Picked(ts, ss);
    forall i | 0 <= i < |ss|
      ensures ss[i].edit < |g.ranges| && g.ranges[ss[i].edit].0 <= g.ranges[ss[i].edit].1 <= |g.text|
      ensures ValidPath(d.root, us[i].path) && PieceAt(ss[i], g) == PieceOf(d, us[i])
    {
      var k := ss[i].edit;
      assert us[i] == ts[k];
      GeneratedParses(c, es, k);
      assert es[k].value.text == Some(g.text[g.ranges[k].0..g.ranges[k].1]);
      assert ts[k] == TargetOf(c, d.root, es[k]);
    }
  }

  /** What is known of the sorted spans of resolved pointers. */
  lemma SortedTargets(c: Codec, input: bytes, es: seq<Edit>, hits: seq<Option<(nat, nat)>>, spans: seq<Span>, sorted: seq<Span>)
    requires Good(c, input) && AllUsable(es) && AllGenerated(c, es) && |hits| == |es| == |spans|
    requires multiset(sorted) == multiset(spans)
    requires var d := ParseDoc(input).value; var ts := TargetsOf(c, d.root, es);
             forall i :: 0 <= i < |hits| ==>
               && ValidPath(d.root, ts[i].path)
               && hits[i] == Some((|d.lead| + |Left(d.root, ts[i].path)|, |d.lead| + EndOf(d.root, ts[i].path)))
               && spans[i] == Span(hits[i].value.0, hits[i].value.1, i)
    ensures var d := ParseDoc(input).value; var ts := TargetsOf(c, d.root, es);
            && SpansMatch(d, ts, sorted)
            && multiset(Picked(ts, sorted)) == multiset(ts)
  {
    hide ParseDoc, Unique, TargetsOf, ValidPath, Left, EndOf;
    var d := ParseDoc(input).value;
    var ts := TargetsOf(c, d.root, es);
    assert |ts| == |es| by { TargetsLength(c, d.root, es); }
    SameElements(spans, sorted);
    forall i | 0 <= i < |sorted|
      ensures sorted[i].edit < |ts| && sorted[i] == spans[sorted[i].edit]
    {
      var k :| 0 <= k < |spans| && spans[k] == sorted[i];
    }
    PickedMultiset(ts, spans, sorted);
    assert Picked(ts, spans) == ts;
  }

  lemma TargetsLength(c: Codec, n: Node, es: seq<Edit>)
    requires AllUsable(es) && AllGenerated(c, es)
    ensures |TargetsOf(c, n, es)| == |es|
  {
  }

  /** Overlapping neighbours mean that some pointer addresses a value inside another's. */
  lemma OverlapMeansInside(c: Codec, input: bytes, es: seq<Edit>, sorted: seq<Span>, i: nat)
    requires Good(c, input) && AllUsable(es) && AllGenerated(c, es)
    requires Resolves(c, RootOf(input), TreeEdits(es)) && Sorted(sorted)
    requires var d := ParseDoc(input).value; var ts := TargetsOf(c, d.root, es);
             SpansMatch(d, ts, sorted) && multiset(Picked(ts, sorted)) == multiset(ts)
    requires i + 1 < |sorted| && sorted[i + 1].start < sorted[i].end
    ensures !NoneInside(TreeEdits(es))
  {
    hide ParseDoc, Unique, TargetsOf, ValidPath, Left, EndOf, TreeEdits, NoneInside, Wf, PathOf, AllWellFormed;
    GoodRoot(c, input);
    var d := ParseDoc(input).value;
    var ts := TargetsOf(c, d.root, es);
    TargetsHold(c, input, es);
    ApartIffNoneInside(c, d.root, TreeEdits(es), ts);
    if AllApart(ts) {
      ApartAnyOrder(ts, Picked(ts, sorted));
      ApartNeighbours(c, d, ts, sorted, i);
    }
  }

  /** Without overlap, the sweep's text reads as the document with every target replaced. */
  lemma SweepMeansReplaced(c: Codec, input: bytes, es: seq<Edit>, g: Rendering, sorted: seq<Span>)
    requires Good(c, input) && AllUsable(es) && AllGenerated(c, es) && Renders(es, g)
    requires Resolves(c, RootOf(input), TreeEdits(es)) && Sorted(sorted)
    requires var d := ParseDoc(input).value; var ts := TargetsOf(c, d.root, es);
             SpansMatch(d, ts, sorted) && multiset(Picked(ts, sorted)) == multiset(ts)
    requires forall i :: 0 <= i < |sorted| - 1 ==> sorted[i].end <= sorted[i + 1].start
    ensures NoneInside(TreeEdits(es))
    ensures forall i :: 0 <= i < |sorted| ==>
              sorted[i].edit < |g.ranges| && g.ranges[sorted[i].edit].0 <= g.ranges[sorted[i].edit].1 <= |g.text|
    ensures Fits(input, PiecesAt(sorted, g), 0)
    ensures SameInAnyOrder(c, input, es, SweepOf(input, PiecesAt(sorted, g), 0))
    ensures var out := SweepOf(input, PiecesAt(sorted, g), 0);
            && Good(c, out)
            && Replaced(DocValue(c, input), TreeEdits(es)) == Some(DocValue(c, out))
  {
    hide ParseDoc, Unique, TargetsOf, ValidPath, Left, EndOf, TreeEdits, NoneInside, Wf, PathOf, ValueOf, PrintDoc,
      PutAll, PiecesOf, PiecesAt, Fits, SweepOf, Renders, AllWs, Usable, Before, Apart, SpansMatch, Replaced, SameInAnyOrder;
    GoodRoot(c, input);
    var d := ParseDoc(input).value;
    var ts := TargetsOf(c, d.root, es);
    var us := PickedTargets(c, d, ts, sorted);
    NeighboursApart(c, d, ts, sorted);
    AscendingApart(us);
    ApartAnyOrder(us, ts);
    TargetsHold(c, input, es);
    ApartIffNoneInside(c, d.root, TreeEdits(es), ts);
    PiecesAgree(c, input, es, g, sorted);
    PutAllAnyOrder(d.root, ts, us);
    WellFormedAnyOrder(c, ts, us);
    SweepText(c, d, us);
    PrintedGood(c, d.(root := PutAll(d.root, us)));
    ReplacedMatches(c, d.root, TreeEdits(es), ts);
    SweepIsFold(c, input, es, SweepOf(input, PiecesAt(sorted, g), 0));
  }

  lemma PickedTargets(c: Codec, d: Doc, ts: seq<Target>, ss: seq<Span>) returns (us: seq<Target>)
    requires SpansMatch(d, ts, ss)
    ensures us == Picked(ts, ss)
  {
    us := Picked(ts, ss);
  }

  lemma WellFormedAnyOrder(c: Codec, ts: seq<Target>, us: seq<Target>)
    requires AllWellFormed(c, ts) && multiset(ts) == multiset(us)
    ensures AllWellFormed(c, us)
  {
    hide Wf, Unique;
    forall i | 0 <= i < |us|
      ensures Wf(us[i].node) && Unique(c, us[i].node)
    {
      assert us[i] in multiset(us);
      var k :| 0 <= k < |ts| && ts[k] == us[i];
    }
  }

  // ----- one edit at a time -----

  /** One replacement on text, as `replace` does it: the span of the value addressed gives way to `text`. */
  function ReplacedText(c: Codec, doc: bytes, ptr: bytes, text: bytes): bytes {
    var span := Patch.SpanAt(c, doc, ptr);
    if span.Ok? && span.value.Some? && span.value.value.0 <= span.value.value.1 <= |doc|
    then Spliced(doc, span.value.value.0, span.value.value.1, text) else doc
  }

  /** The edits one after another, each on the text the one before has left. */
  function FoldReplaced(c: Codec, doc: bytes, es: seq<Edit>): bytes
    requires AllUsable(es)
    decreases |es|
  {
    if es == [] then doc
    else
      assert Usable(es[0]);
      FoldReplaced(c, ReplacedText(c, doc, es[0].pointer.text, es[0].value.text.value), es[1..])
  }

  lemma ReplacedTextIs(c: Codec, d: Doc, ptr: bytes, t: Target)
    requires WfDoc(d) && Unique(c, d.root) && Tokens(ptr).Some? && PathOf(c, d.root, Tokens(ptr).value) == Some(t.path)
    requires ValidPath(d.root, t.path) && Wf(t.node) && Unique(c, t.node)
    ensures var d' := d.(root := Put(d.root, t.path, t.node));
            && ReplacedText(c, PrintDoc(d), ptr, Print(t.node)) == PrintDoc(d')
            && WfDoc(d') && Unique(c, d'.root)
  {
    hide ParseDoc, Wf, Unique, Print, Tokens, PathOf, ValidPath, Left, At, Put, PrintDoc, Spliced, AllWs;
    PrintedGood(c, d);
    var n := At(d.root, t.path);
    assert [] + Print(n) + [] == Print(n) && [] + Print(t.node) + [] == Print(t.node);
    SpliceNode(c, d, t.path, [], Print(n), [], Print(t.node), t.node);
  }

  /** Folding the edits over the text of a document is replacing all their targets in its tree. */
  lemma {:induction false} FoldIsPutAll(c: Codec, d: Doc, es: seq<Edit>, ts: seq<Target>)
    requires WfDoc(d) && Unique(c, d.root) && AllUsable(es) && NoneInside(TreeEdits(es))
    requires Targets(c, d.root, TreeEdits(es), ts) && AllWellFormed(c, ts)
    requires forall i :: 0 <= i < |es| ==> Print(ts[i].node) == es[i].value.text.value
    ensures FoldReplaced(c, PrintDoc(d), es) == PrintDoc(d.(root := PutAll(d.root, ts)))
    decreases |es|
  {
    hide Wf, Unique, Print, PrintDoc, Put, PathOf, Tokens, Comparable, ValidPath, ReplacedText, AllWs;
    if es != [] {
      var t := ts[0];
      var d' := d.(root := Put(d.root, t.path, t.node));
      assert Usable(es[0]) && TreeEdits(es)[0] == TreeEdit(es[0]);
      ReplacedTextIs(c, d, es[0].pointer.text, t);
      RestInside(TreeEdits(es));
      assert TreeEdits(es[1..]) == TreeEdits(es)[1..];
      forall i | 0 <= i < |es| - 1
        ensures PathOf(c, d'.root, TreeEdits(es[1..])[i].0) == Some(ts[1..][i].path) && ValidPath(d'.root, ts[1..][i].path)
      {
        assert TreeEdits(es)[1..][i] == TreeEdits(es)[i + 1] && ts[1..][i] == ts[i + 1];
        PathStays(c, d.root, TreeEdits(es)[0].0, TreeEdits(es)[i + 1].0, t.node);
        PathOfValid(c, d'.root, TreeEdits(es)[i + 1].0);
      }
      FoldIsPutAll(c, d', es[1..], ts[1..]);
    }
  }

  /** Permuting the edits permutes their targets. */
  lemma {:induction false} TargetsPermuted(c: Codec, n: Node, es: seq<Edit>, fs: seq<Edit>)
    requires multiset(es) == multiset(fs) && AllUsable(es) && AllGenerated(c, es)
    ensures AllUsable(fs) && AllGenerated(c, fs) && multiset(TargetsOf(c, n, es)) == multiset(TargetsOf(c, n, fs))
    decreases |fs|
  {
    hide Usable, Patch.Generated, TargetOf;
    assert |es| == |multiset(es)| == |multiset(fs)| == |fs|;
    forall i | 0 <= i < |fs|
      ensures Usable(fs[i]) && Patch.Generated(c, fs[i].value)
    {
      assert fs[i] in multiset(fs);
      var k :| 0 <= k < |es| && es[k] == fs[i];
    }
    if fs != [] {
      var i := FindIn(es, fs);
      WithoutMultiset(es, i, fs);
      var rest := Without(es, i);
      TargetsPermuted(c, n, rest, fs[1..]);
      TargetsWithout(c, n, es, i);
      TargetsWithout(c, n, fs, 0);
      assert Without(fs, 0) == fs[1..];
    }
  }

  lemma TargetsWithout(c: Codec, n: Node, es: seq<Edit>, i: nat)
    requires i < |es| && AllUsable(es) && AllGenerated(c, es)
    ensures AllUsable(Without(es, i)) && AllGenerated(c, Without(es, i))
    ensures multiset(TargetsOf(c, n, es)) == multiset(TargetsOf(c, n, Without(es, i))) + multiset{TargetsOf(c, n, es)[i]}
    ensures TargetsOf(c, n, es)[i] == TargetOf(c, n, es[i])
  {
    hide Usable, Patch.Generated, TargetOf;
    var ts := TargetsOf(c, n, es);
    assert ts == ts[..i] + [ts[i]] + ts[i + 1..];
    assert TargetsOf(c, n, Without(es, i)) == ts[..i] + ts[i + 1..];
  }

  /** What is known of the targets of a batch in any order. */
  lemma AnyOrder(c: Codec, input: bytes, es: seq<Edit>, fs: seq<Edit>)
    requires Good(c, input) && AllUsable(es) && AllGenerated(c, es) && NoneInside(TreeEdits(es))
    requires Resolves(c, RootOf(input), TreeEdits(es)) && multiset(es) == multiset(fs)
    ensures AllUsable(fs) && AllGenerated(c, fs) && NoneInside(TreeEdits(fs)) && Resolves(c, RootOf(input), TreeEdits(fs))
    ensures FoldReplaced(c, input, fs) == FoldReplaced(c, input, es)
    ensures var d := ParseDoc(input).value;
            FoldReplaced(c, input, es) == PrintDoc(d.(root := PutAll(d.root, TargetsOf(c, d.root, es))))
  {
    hide ParseDoc, Unique, TargetsOf, NoneInside, Wf, PrintDoc, PutAll, Usable, Apart, PathOf, AllWs, FoldReplaced, ValidPath, Print;
    GoodRoot(c, input);
    var d := ParseDoc(input).value;
    TargetsPermuted(c, d.root, es, fs);
    var ts, us := TargetsOf(c, d.root, es), TargetsOf(c, d.root, fs);
    forall i | 0 <= i < |fs|
      ensures PathOf(c, d.root, TreeEdits(fs)[i].0).Some?
    {
      assert fs[i] in multiset(fs);
      var k :| 0 <= k < |es| && es[k] == fs[i];
      assert TreeEdits(es)[k] == TreeEdits(fs)[i];
    }
    TargetsHold(c, input, es);
    TargetsHold(c, input, fs);
    ApartIffNoneInside(c, d.root, TreeEdits(es), ts);
    ApartIffNoneInside(c, d.root, TreeEdits(fs), us);
    ApartAnyOrder(ts, us);
    PutAllAnyOrder(d.root, ts, us);
    TargetTexts(c, d.root, es);
    TargetTexts(c, d.root, fs);
    FoldIsPutAll(c, d, es, ts);
    FoldIsPutAll(c, d, fs, us);
  }

  lemma TargetTexts(c: Codec, n: Node, es: seq<Edit>)
    requires AllUsable(es) && AllGenerated(c, es)
    ensures forall i :: 0 <= i < |es| ==> Print(TargetsOf(c, n, es)[i].node) == es[i].value.text.value
  {
    hide Tokens, Patch.Generated, Print, ParseDoc;
    forall i | 0 <= i < |es|
      ensures Print(TargetsOf(c, n, es)[i].node) == es[i].value.text.value
    {
      GeneratedParses(c, es, i);
      assert TargetsOf(c, n, es)[i] == TargetOf(c, n, es[i]);
    }
  }

  /**
    Whatever order the edits are applied in, one at a time, the text is the one the sweep
    gives.
   */
  ghost predicate SameInAnyOrder(c: Codec, input: bytes, es: seq<Edit>, out: bytes) {
    forall fs :: multiset(fs) == multiset(es) ==> AllUsable(fs) && FoldReplaced(c, input, fs) == out
  }

  lemma SweepIsFold(c: Codec, input: bytes, es: seq<Edit>, out: bytes)
    requires Good(c, input) && AllUsable(es) && AllGenerated(c, es) && NoneInside(TreeEdits(es))
    requires Resolves(c, RootOf(input), TreeEdits(es))
    requires var d := ParseDoc(input).value; out == PrintDoc(d.(root := PutAll(d.root, TargetsOf(c, d.root, es))))
    ensures SameInAnyOrder(c, input, es, out)
  {
    hide ParseDoc, Unique, TargetsOf, NoneInside, PrintDoc, PutAll, Usable, AllGenerated, AllUsable, FoldReplaced;
    forall fs: seq<Edit> | multiset(fs) == multiset(es)
      ensures AllUsable(fs) && FoldReplaced(c, input, fs) == out
    {
      AnyOrder(c, input, es, fs);
    }
  }

  // ----- the whole batch -----

  /** The pieces are the edits' targets with the values' text, in some order. */
  ghost predicate TargetPieces(c: Codec, input: bytes, es: seq<Edit>, pieces: seq<Piece>)
    requires Good(c, input) && AllUsable(es) && AllGenerated(c, es)
  {
    var d := ParseDoc(input).value;
    exists us :: AllValid(d.root, us) && multiset(us) == multiset(TargetsOf(c, d.root, es)) && pieces == PiecesOf(d, us)
  }

  /**
    `splice_native`. A batch is accepted exactly when every pointer is usable and resolves
    and none addresses a value inside another's; then every byte outside the targets is
    copied in order, and the text reads as the document with every target replaced.
   */
  method SpliceNative(c: Codec, input: bytes, es: seq<Edit>) returns (r: Result<bytes, Fault>, ghost pieces: seq<Piece>)
    requires Good(c, input) && AllGenerated(c, es)
    ensures r.Ok? <==>
              && AllUsable(es) && NoneInside(TreeEdits(es))
              && Replaced(DocValue(c, input), TreeEdits(es)).Some?
    ensures r.Err? ==> Refused(DocValue(c, input), es, r.error)
    ensures r.Ok? ==> Good(c, r.value) && Replaced(DocValue(c, input), TreeEdits(es)) == Some(DocValue(c, r.value))
    ensures r.Ok? ==> SameInAnyOrder(c, input, es, r.value)
    ensures r.Ok? ==> TargetPieces(c, input, es, pieces) && Fits(input, pieces, 0) && r.value == SweepOf(input, pieces, 0)
  {
    hide ParseDoc, Unique, TargetsOf, ValidPath, Left, EndOf, NoneInside, Wf, PathOf, ValueOf, Tokens,
      PiecesOf, PiecesAt, Fits, SweepOf, AllWs, Before, Apart, SpansMatch, Replaced, Patch.SpanAt, TreeEdits, SameInAnyOrder;
    pieces := [];
    var rendering := RenderAll(es);
    if rendering.Err? {
      ghost var k: nat :| FirstUnrendered(es, k) && rendering.error == UnrenderedFault(es[k]);
      assert !Renderable(es[k]);
      return Err(rendering.error), pieces;
    }
    var g := rendering.value;
    var hits := ResolveAll(c, input, g.pointers);
    if hits.Err? {
      BadPointer(c, input, es, g);
      return Err(ArgumentFault), pieces;
    }
    HitsAreTargets(c, input, es, g, hits.value);
    var spans := CollectSpans(hits.value);
    if spans.Err? {
      MissingFails(c, input, es);
      SomeMissing(c, input, es);
      return Err(spans.error), pieces;
    }
    var sorted := Sorting.SortByKey(spans.value, (x: Span) => x.start);
    SortedTargets(c, input, es, hits.value, spans.value, sorted);
    var overlap := Overlaps(sorted);
    if overlap {
      ghost var i :| 0 <= i < |sorted| - 1 && sorted[i + 1].start < sorted[i].end;
      OverlapMeansInside(c, input, es, sorted, i);
      AllResolve(c, input, es);
      return Err(ArgumentFault), pieces;
    }
    SweepMeansReplaced(c, input, es, g, sorted);
    PiecesAgree(c, input, es, g, sorted);
    var out := SweepSpans(input, sorted, g);
    pieces := PiecesAt(sorted, g);
    r := Ok(out);
  }

  lemma BadPointer(c: Codec, input: bytes, es: seq<Edit>, g: Rendering)
    requires Good(c, input) && Renders(es, g)
    requires exists i :: 0 <= i < |g.pointers| && Patch.SpanAt(c, input, g.pointers[i]).Err?
    ensures !AllUsable(es)
  {
    hide ParseDoc, Unique, Tokens, Patch.SpanAt;
    var i :| 0 <= i < |g.pointers| && Patch.SpanAt(c, input, g.pointers[i]).Err?;
    Patch.SpanHolds(c, input, g.pointers[i]);
    assert !Usable(es[i]);
  }

  lemma AllResolve(c: Codec, input: bytes, es: seq<Edit>)
    requires Good(c, input) && AllUsable(es) && Resolves(c, RootOf(input), TreeEdits(es))
    ensures forall i :: 0 <= i < |es| ==> Resolve(DocValue(c, input), TreeEdits(es)[i].0).Some?
  {
    hide ParseDoc, Unique, Wf, PathOf, ValueOf, Resolve, Tokens, ValidPath;
    GoodRoot(c, input);
    forall i | 0 <= i < |es|
      ensures Resolve(DocValue(c, input), TreeEdits(es)[i].0).Some?
    {
      ResolveMatches(c, RootOf(input), TreeEdits(es)[i].0);
    }
  }

  lemma SomeMissing(c: Codec, input: bytes, es: seq<Edit>)
    requires Good(c, input) && AllUsable(es) && !Resolves(c, RootOf(input), TreeEdits(es))
    ensures exists i :: 0 <= i < |es| && Resolve(DocValue(c, input), TreeEdits(es)[i].0).None?
  {
    hide ParseDoc, Unique, Wf, PathOf, ValueOf, Resolve, Tokens, ValidPath;
    GoodRoot(c, input);
    var i :| 0 <= i < |es| && PathOf(c, RootOf(input), TreeEdits(es)[i].0).None?;
    ResolveMatches(c, RootOf(input), TreeEdits(es)[i].0);
  }

  lemma MissingFails(c: Codec, input: bytes, es: seq<Edit>)
    requires Good(c, input) && AllUsable(es) && AllGenerated(c, es)
    requires !Resolves(c, RootOf(input), TreeEdits(es))
    ensures NoneInside(TreeEdits(es)) ==> Replaced(DocValue(c, input), TreeEdits(es)).None?
  {
    hide ParseDoc, Unique, Wf, PathOf, ValueOf, Tokens, Replaced, NoneInside, Print;
    GoodRoot(c, input);
    var ms := seq(|es|, i requires 0 <= i < |es| => GeneratedParses(c, es, i); RootOf(es[i].value.text.value));
    forall i | 0 <= i < |es|
      ensures Wf(ms[i]) && Unique(c, ms[i]) && ValueOf(c, ms[i]) == TreeEdits(es)[i].1
    {
      GeneratedParses(c, es, i);
      assert TreeEdits(es)[i] == TreeEdit(es[i]);
    }
    if NoneInside(TreeEdits(es)) {
      ReplacedFails(c, RootOf(input), TreeEdits(es), ms);
    }
  }
}
