/**
  Where a document repeats a key: the walk with an explicit stack of ext/nosj/src/locate.rs
  against a recursive search of the tree.
 */
module Locate {
  import opened Bytes
  import opened Syntax
  import opened Values
  import opened Tree
  import opened Edits
  import opened Grammar
  import opened Mended
  import opened PullReader
  import opened Paths

  // ----- the reference: a recursive search in the order containers close -----

  /** The first key equal to an earlier one. */
  function FirstRepeat(ks: seq<bytes>): Option<bytes> {
    if ks == [] then None
    else
      var k := FirstRepeat(ks[..|ks| - 1]);
      if k.Some? then k
      else if ks[|ks| - 1] in ks[..|ks| - 1] then Some(ks[|ks| - 1])
      else None
  }

  lemma {:induction false} RepeatIffNotDistinct(ks: seq<bytes>)
    ensures FirstRepeat(ks).None? <==> Distinct(ks)
    ensures FirstRepeat(ks).Some? ==> exists i, j :: 0 <= i < j < |ks| && ks[i] == ks[j] == FirstRepeat(ks).value
  {
    if ks != [] {
      var init, last := ks[..|ks| - 1], ks[|ks| - 1];
      RepeatIffNotDistinct(init);
      if FirstRepeat(init).Some? {
        var i, j :| 0 <= i < j < |init| && init[i] == init[j] == FirstRepeat(init).value;
        assert ks[i] == ks[j];
      } else if last in init {
        var i :| 0 <= i < |init| && init[i] == last;
        assert ks[i] == ks[|ks| - 1];
      } else {
        assert forall i, j :: 0 <= i < j < |init| ==> init[i] == ks[i] && init[j] == ks[j];
        assert forall i :: 0 <= i < |init| ==> ks[i] in init;
      }
    }
  }

  /** What a walk meets first: an object that repeats a key, the place where the text breaks off, or neither. */
  datatype Hit = Nothing | Repeats(path: seq<nat>, key: bytes) | Fault

  /** The first object to close, inside `n` or `n` itself, that repeats a key, unless a hole comes first. */
  function Search(c: Codec, n: Node): Hit
    decreases n, 0
  {
    if n == HOLE then Fault
    else if n.Leaf? then Nothing
    else SearchFrom(c, n, 0)
  }

  /** The same among the entries from `i` on, then the group itself. */
  function SearchFrom(c: Codec, n: Node, i: nat): Hit
    requires n.Group? && i <= |n.entries|
    decreases n.entries, |n.entries| - i
  {
    if i == |n.entries| then Own(c, n) else Under(i, Search(c, n.entries[i].value), SearchFrom(c, n, i + 1))
  }

  function Own(c: Codec, n: Node): Hit
    requires n.Group?
  {
    var k := if n.obj then FirstRepeat(Keys(c, n.entries)) else None;
    if k.Some? then Repeats([], k.value) else Nothing
  }

  /** A hit under entry `i`, or else what the rest of the search finds. */
  function Under(i: nat, inside: Hit, rest: Hit): Hit {
    match inside
    case Nothing => rest
    case Repeats(path, key) => Repeats([i] + path, key)
    case Fault => Fault
  }

  lemma SearchGroup(c: Codec, n: Node)
    requires n.Group?
    ensures Search(c, n) == SearchFrom(c, n, 0)
  {
    hide SearchFrom;
  }

  lemma SearchLeaf(c: Codec, n: Node)
    requires n.Leaf?
    ensures Search(c, n) == if n == HOLE then Fault else Nothing
  {
  }

  lemma SearchStep(c: Codec, n: Node, i: nat)
    requires n.Group? && i <= |n.entries|
    ensures SearchFrom(c, n, i) ==
            if i == |n.entries| then Own(c, n) else Under(i, Search(c, n.entries[i].value), SearchFrom(c, n, i + 1))
  {
    hide Search, Own, Under;
  }

  // ----- what the search finds -----

  /** Nothing is found exactly when the text does not break off and no object repeats a key. */
  lemma {:induction false} SearchFindsAll(c: Codec, n: Node)
    ensures Search(c, n).Nothing? <==> Unique(c, n) && NoHole(n)
    decreases n, 0
  {
    hide Search, SearchFrom, Own, Keys;
    if n.Leaf? {
      SearchLeaf(c, n);
    } else {
      SearchGroup(c, n);
      SearchFromFindsAll(c, n, 0);
    }
  }

  lemma {:induction false} SearchFromFindsAll(c: Codec, n: Node, i: nat)
    requires n.Group? && i <= |n.entries|
    ensures SearchFrom(c, n, i).Nothing? <==>
            && (n.obj ==> Distinct(Keys(c, n.entries)))
            && forall j :: i <= j < |n.entries| ==> Unique(c, n.entries[j].value) && NoHole(n.entries[j].value)
    decreases n.entries, |n.entries| - i
  {
    hide Search, SearchFrom, Keys, Distinct, FirstRepeat, Unique, NoHole;
    SearchStep(c, n, i);
    if i == |n.entries| {
      RepeatIffNotDistinct(Keys(c, n.entries));
    } else {
      SearchFindsAll(c, n.entries[i].value);
      SearchFromFindsAll(c, n, i + 1);
    }
  }

  /** The object at `p` is there to its end, and `key` is the first it repeats. */
  ghost predicate RepeatsAt(c: Codec, n: Node, p: seq<nat>, key: bytes) {
    && ValidPath(n, p) && Whole(n, p)
    && var m := At(n, p);
    && m.Group? && m.obj && FirstRepeat(Keys(c, m.entries)) == Some(key)
  }

  lemma {:induction false} SearchIsRepeat(c: Codec, n: Node)
    requires Search(c, n).Repeats?
    ensures RepeatsAt(c, n, Search(c, n).path, Search(c, n).key)
    decreases n, 0
  {
    hide Search, SearchFrom, Keys, FirstRepeat, RepeatsAt;
    if n.Leaf? {
      SearchLeaf(c, n);
    } else {
      SearchGroup(c, n);
      SearchFromIsRepeat(c, n, 0);
    }
  }

  lemma {:induction false} SearchFromIsRepeat(c: Codec, n: Node, i: nat)
    requires n.Group? && i <= |n.entries| && SearchFrom(c, n, i).Repeats?
    requires forall j :: 0 <= j < i ==> NoHole(n.entries[j].value)
    ensures RepeatsAt(c, n, SearchFrom(c, n, i).path, SearchFrom(c, n, i).key)
    ensures var p := SearchFrom(c, n, i).path; p != [] ==> p[0] >= i
    decreases n.entries, |n.entries| - i
  {
    hide Search, SearchFrom, Keys, FirstRepeat, NoHole, Whole, RepeatsAt;
    SearchStep(c, n, i);
    if i == |n.entries| {
      OwnRepeats(c, n);
    } else {
      var inside := Search(c, n.entries[i].value);
      if inside.Repeats? {
        SearchIsRepeat(c, n.entries[i].value);
        RepeatsUnder(c, n, i, inside.path, inside.key);
      } else {
        SearchFindsAll(c, n.entries[i].value);
        SearchFromIsRepeat(c, n, i + 1);
      }
    }
  }

  lemma OwnRepeats(c: Codec, n: Node)
    requires n.Group? && Own(c, n).Repeats? && forall j :: 0 <= j < |n.entries| ==> NoHole(n.entries[j].value)
    ensures RepeatsAt(c, n, [], Own(c, n).key)
  {
    hide Keys, FirstRepeat;
  }

  lemma RepeatsUnder(c: Codec, n: Node, i: nat, p: seq<nat>, key: bytes)
    requires n.Group? && i < |n.entries| && RepeatsAt(c, n.entries[i].value, p, key)
    requires forall j :: 0 <= j < i ==> NoHole(n.entries[j].value)
    ensures RepeatsAt(c, n, [i] + p, key)
  {
    hide Keys, FirstRepeat, NoHole;
    assert ([i] + p)[1..] == p;
  }

  /** The container at `q` closes before the one at `p`: it is earlier, or inside. */
  ghost predicate ClosesBefore(q: seq<nat>, p: seq<nat>) {
    Before(q, p) || (|p| < |q| && q[..|p|] == p)
  }

  ghost predicate NoRepeatAt(c: Codec, n: Node, q: seq<nat>)
    requires ValidPath(n, q)
  {
    At(n, q).Group? && At(n, q).obj ==> Distinct(Keys(c, At(n, q).entries))
  }

  /** In a document without repeats, no object anywhere repeats a key. */
  lemma {:induction false} UniqueEverywhere(c: Codec, n: Node, q: seq<nat>)
    requires Unique(c, n) && ValidPath(n, q)
    ensures NoRepeatAt(c, n, q)
    decreases |q|
  {
    hide Keys, Distinct;
    if q != [] {
      UniqueEverywhere(c, n.entries[q[0]].value, q[1..]);
    }
  }

  /** It is the first: every object that closes before it repeats nothing. */
  lemma {:induction false} SearchIsFirst(c: Codec, n: Node, q: seq<nat>)
    requires Search(c, n).Repeats? && ValidPath(n, q) && ClosesBefore(q, Search(c, n).path)
    ensures NoRepeatAt(c, n, q)
    decreases n, 0
  {
    hide Search, SearchFrom, Keys, FirstRepeat, Distinct;
    if n.Leaf? {
      SearchLeaf(c, n);
    } else {
      SearchGroup(c, n);
      SearchFromIsFirst(c, n, 0, q);
    }
  }

  lemma {:induction false} SearchFromIsFirst(c: Codec, n: Node, i: nat, q: seq<nat>)
    requires n.Group? && i <= |n.entries| && SearchFrom(c, n, i).Repeats?
    requires ValidPath(n, q) && q != [] && q[0] >= i && ClosesBefore(q, SearchFrom(c, n, i).path)
    ensures NoRepeatAt(c, n, q)
    decreases n.entries, |n.entries| - i
  {
    hide Search, SearchFrom, Keys, FirstRepeat, Distinct, Unique, NoHole;
    SearchStep(c, n, i);
    if i < |n.entries| {
      var child := n.entries[i].value;
      var inside := Search(c, child);
      if inside.Repeats? {
        var p := [i] + inside.path;
        assert p[1..] == inside.path;
        assert q[0] == i;
        assert |p| < |q| && q[..|p|] == p ==> q[1..][..|p| - 1] == p[1..];
        SearchIsFirst(c, child, q[1..]);
      } else if q[0] == i {
        SearchFindsAll(c, child);
        UniqueEverywhere(c, child, q[1..]);
      } else {
        SearchFromIsFirst(c, n, i + 1, q);
      }
    }
  }

  lemma {:induction false} FaultHasHole(c: Codec, n: Node)
    requires Search(c, n).Fault?
    ensures !NoHole(n)
    decreases n, 0
  {
    hide Search, SearchFrom;
    if n.Leaf? {
      SearchLeaf(c, n);
    } else {
      SearchGroup(c, n);
      var i := FaultFromHasHole(c, n, 0);
      assert !NoHole(n.entries[i].value);
    }
  }

  lemma {:induction false} FaultFromHasHole(c: Codec, n: Node, i: nat) returns (j: nat)
    requires n.Group? && i <= |n.entries| && SearchFrom(c, n, i).Fault?
    ensures i <= j < |n.entries| && !NoHole(n.entries[j].value)
    decreases n.entries, |n.entries| - i
  {
    hide Search, SearchFrom, Keys, FirstRepeat, NoHole;
    SearchStep(c, n, i);
    if i < |n.entries| && Search(c, n.entries[i].value).Fault? {
      FaultHasHole(c, n.entries[i].value);
      j := i;
    } else {
      j := FaultFromHasHole(c, n, i + 1);
    }
  }

  /** Where the text breaks off first, no object that is there to its end repeats anything. */
  lemma {:induction false} FaultIsFirst(c: Codec, n: Node, q: seq<nat>)
    requires Search(c, n).Fault? && ValidPath(n, q) && Whole(n, q)
    ensures NoRepeatAt(c, n, q)
    decreases n, 0
  {
    hide Search, SearchFrom, Keys, FirstRepeat, Distinct, Unique, NoHole;
    if n.Leaf? {
      SearchLeaf(c, n);
    } else {
      SearchGroup(c, n);
      FaultFromIsFirst(c, n, 0, q);
    }
  }

  lemma {:induction false} FaultFromIsFirst(c: Codec, n: Node, i: nat, q: seq<nat>)
    requires n.Group? && i <= |n.entries| && SearchFrom(c, n, i).Fault?
    requires ValidPath(n, q) && Whole(n, q) && (q != [] ==> q[0] >= i)
    ensures NoRepeatAt(c, n, q)
    decreases n.entries, |n.entries| - i
  {
    hide Search, SearchFrom, Keys, FirstRepeat, Distinct, Unique;
    SearchStep(c, n, i);
    if i < |n.entries| {
      var child := n.entries[i].value;
      SearchFindsAll(c, child);
      if q != [] && q[0] == i {
        if Search(c, child).Fault? {
          FaultIsFirst(c, child, q[1..]);
        } else {
          UniqueEverywhere(c, child, q[1..]);
        }
      } else {
        if Search(c, child).Fault? {
          FaultHasHole(c, child);
        }
        FaultFromIsFirst(c, n, i + 1, q);
      }
    }
  }

  /** A repeat in a whole object is found although the text around it breaks off later. */
  lemma RepeatBeforeBreak(c: Codec, obj: bool, es: seq<Entry>, rest: bytes, i: nat)
    requires forall j :: 0 <= j < |es| ==> WfEntry(obj, es[j])
    requires ParseNode([Opener(obj)] + (Pre(Texts(es)) + rest)).Fail?
    requires i < |es| && es[i].value.Group? && es[i].value.obj && !Distinct(Keys(c, es[i].value.entries))
    ensures Search(c, ReadRoot([Opener(obj)] + (Pre(Texts(es)) + rest))).Repeats?
  {
    hide ParseNode, Texts, Pre, ReadRoot, Search, MendEntries, Wf, Keys, Distinct, NoHole, Unique;
    var n := ReadRoot([Opener(obj)] + (Pre(Texts(es)) + rest));
    ReadsAhead(obj, es, rest);
    forall j | 0 <= j <= i
      ensures n.entries[j] == es[j] && NoHole(es[j].value)
    {
      assert Wf(es[j].value) by { EntryValueWf(obj, es[j]); }
      WfNoHole(es[j].value);
    }
    OneStepWhole(n, i);
    SearchFindsAll(c, n);
    if Search(c, n).Nothing? {
      UniqueEverywhere(c, n, [i]);
    } else if Search(c, n).Fault? {
      FaultIsFirst(c, n, [i]);
    }
  }

  lemma EntryValueWf(obj: bool, e: Entry)
    requires WfEntry(obj, e)
    ensures Wf(e.value)
  {
    hide Wf;
  }

  lemma OneStepWhole(n: Node, i: nat)
    requires n.Group? && i < |n.entries| && forall j :: 0 <= j <= i ==> NoHole(n.entries[j].value)
    ensures ValidPath(n, [i]) && At(n, [i]) == n.entries[i].value && Whole(n, [i])
  {
    hide NoHole;
    assert [i][1..] == [];
  }

  // ----- scan: the same search with an explicit stack -----

  /** One open container of the walk. */
  datatype Frame = Frame(obj: bool, index: nat, seen: set<bytes>, repeated: Option<bytes>)

  function OpenFrame(obj: bool): Frame {
    Frame(obj, 0, {}, None)
  }

  function NoteKey(f: Frame, key: bytes): Frame {
    if f.repeated.Some? then f
    else if key in f.seen then f.(repeated := Some(key))
    else f.(seen := f.seen + {key})
  }

  /** An open container, the entry being walked, and where the container's text starts. */
  datatype Level = Level(n: Node, i: nat, off: nat)

  ghost predicate ValidLevel(l: Level) {
    l.n.Group? && l.i < |l.n.entries|
  }

  /** The frame has counted the entries and noted the keys up to the current one. */
  ghost predicate Tracks(c: Codec, f: Frame, l: Level) {
    && ValidLevel(l)
    && f.obj == l.n.obj && f.index == l.i
    && var ks := if f.obj then Keys(c, l.n.entries)[..l.i + 1] else [];
    && f.repeated == FirstRepeat(ks)
    && (f.repeated.None? ==> f.seen == set k | k in ks)
  }

  ghost predicate AllTrack(c: Codec, stack: seq<Frame>, levels: seq<Level>) {
    && |stack| == |levels|
    && forall j :: 0 <= j < |stack| ==> Tracks(c, stack[j], levels[j])
  }

  /** The tokens after the value being walked: the rest of every open container, innermost first. */
  ghost function After(c: Codec, levels: seq<Level>): seq<Token>
    requires AllOpen(levels)
  {
    if levels == [] then []
    else
      var top := levels[|levels| - 1];
      assert ValidLevel(top);
      RestTokens(c, top.n, top.i + 1, top.off) + After(c, levels[..|levels| - 1])
  }

  /** The outcome of the whole search, given the outcome for the value being walked. */
  ghost function Resume(c: Codec, levels: seq<Level>, hit: Hit): Hit
    requires AllOpen(levels)
  {
    if levels == [] then hit
    else
      var top := levels[|levels| - 1];
      assert ValidLevel(top);
      Resume(c, levels[..|levels| - 1], Under(top.i, hit, SearchFrom(c, top.n, top.i + 1)))
  }

  function Indices(stack: seq<Frame>): (path: seq<nat>)
    ensures |path| == |stack|
  {
    seq(|stack|, i requires 0 <= i < |stack| => stack[i].index)
  }

  lemma NoteTracks(c: Codec, f: Frame, ks: seq<bytes>, k: bytes)
    requires f.repeated == FirstRepeat(ks) && (f.repeated.None? ==> f.seen == set k | k in ks)
    ensures var g := NoteKey(f, k);
            && g.obj == f.obj && g.index == f.index
            && g.repeated == FirstRepeat(ks + [k])
            && (g.repeated.None? ==> g.seen == set k' | k' in ks + [k])
  {
    assert (ks + [k])[..|ks|] == ks;
  }

  /** A hit inside passes through every open container unchanged but for its path. */
  lemma {:induction false} ResumeHit(c: Codec, stack: seq<Frame>, levels: seq<Level>, p: seq<nat>, k: bytes)
    requires AllTrack(c, stack, levels)
    ensures Resume(c, levels, Repeats(p, k)) == Repeats(Indices(stack) + p, k)
    decreases |stack|
  {
    hide SearchFrom, Keys, FirstRepeat;
    if stack == [] {
      assert Indices(stack) + p == p;
    } else {
      var top := |stack| - 1;
      assert Tracks(c, stack[top], levels[top]);
      ResumeHit(c, stack[..top], levels[..top], [levels[top].i] + p, k);
      assert Indices(stack[..top]) + ([levels[top].i] + p) == Indices(stack) + p;
    }
  }

  /** A fault ends the walk however deep it is. */
  lemma {:induction false} ResumeFault(c: Codec, levels: seq<Level>)
    requires AllOpen(levels)
    ensures Resume(c, levels, Fault) == Fault
    decreases |levels|
  {
    hide SearchFrom;
    if levels != [] {
      ResumeFault(c, levels[..|levels| - 1]);
    }
  }

  lemma AfterPush(c: Codec, levels: seq<Level>, l: Level)
    requires ValidLevel(l) && AllOpen(levels)
    ensures After(c, levels + [l]) == RestTokens(c, l.n, l.i + 1, l.off) + After(c, levels)
    ensures forall hit :: Resume(c, levels + [l], hit) == Resume(c, levels, Under(l.i, hit, SearchFrom(c, l.n, l.i + 1)))
  {
    hide RestTokens, SearchFrom;
    assert (levels + [l])[..|levels|] == levels;
  }

  /** What opening a group leaves to walk: its first value, or nothing. */
  lemma OpenTokens(c: Codec, n: Node, off: nat, after: seq<Token>)
    requires n.Group?
    ensures NodeTokens(c, n, off) + after == [Open(n.obj, off)] + (RestTokens(c, n, 0, off) + after)
  {
    hide RestTokens, NodeTokens;
    NodeTokensGroup(c, n, off);
  }

  /** How the rest of a group's tokens begins, whatever follows. */
  lemma EntryTokens(c: Codec, n: Node, i: nat, off: nat, after: seq<Token>)
    requires n.Group? && i <= |n.entries|
    ensures var rest := RestTokens(c, n, i, off) + after;
            && rest != []
            && (i == |n.entries| ==> rest[0].Close? && rest[1..] == after)
            && (i < |n.entries| ==>
                  var value := NodeTokens(c, n.entries[i].value, off + |LeftOf(n, i)|);
                  && !rest[0].Close?
                  && (n.obj ==> rest[0] == Token.Name(Keys(c, n.entries)[i]))
                  && (if n.obj then rest[1..] else rest) == value + (RestTokens(c, n, i + 1, off) + after))
  {
    hide NodeTokens, RestTokens, LeftOf, KeyOf, Print;
    if i == |n.entries| {
      RestTokensEnd(c, n, off);
    } else {
      RestTokensStep(c, n, i, off);
      var value := n.entries[i].value;
      var vt := NodeTokens(c, value, off + |LeftOf(n, i)|);
      if value.Leaf? {
        NodeTokensLeaf(c, value, off + |LeftOf(n, i)|);
      } else {
        NodeTokensGroup(c, value, off + |LeftOf(n, i)|);
      }
      var more := RestTokens(c, n, i + 1, off) + after;
      if n.obj {
        assert RestTokens(c, n, i, off) + after == [Token.Name(KeyOf(c, n.entries[i]))] + (vt + more);
      } else {
        assert RestTokens(c, n, i, off) + after == vt + more;
      }
    }
  }

  /** Opening a group with entries moves the search to its first value. */
  lemma PushLevel(c: Codec, levels: seq<Level>, n: Node, off: nat)
    requires n.Group? && n.entries != [] && AllOpen(levels)
    ensures var levels' := levels + [Level(n, 0, off)];
            && AllOpen(levels')
            && Resume(c, levels', Search(c, n.entries[0].value)) == Resume(c, levels, Search(c, n))
            && After(c, levels') == RestTokens(c, n, 1, off) + After(c, levels)
  {
    hide Search, SearchFrom, RestTokens, Under, Resume, After;
    SearchGroup(c, n);
    SearchStep(c, n, 0);
    AfterPush(c, levels, Level(n, 0, off));
  }

  /** The last open container, taken off the stack. */
  lemma PopLevel(c: Codec, levels: seq<Level>)
    requires levels != [] && AllOpen(levels)
    ensures var init, top := levels[..|levels| - 1], levels[|levels| - 1];
            && After(c, levels) == RestTokens(c, top.n, top.i + 1, top.off) + After(c, init)
            && (top.i + 1 == |top.n.entries| ==> Resume(c, levels, Nothing) == Resume(c, init, Own(c, top.n)))
            && (top.i + 1 < |top.n.entries| ==>
                  var levels' := init + [top.(i := top.i + 1)];
                  && Resume(c, levels, Nothing) == Resume(c, levels', Search(c, top.n.entries[top.i + 1].value))
                  && After(c, levels') == RestTokens(c, top.n, top.i + 2, top.off) + After(c, init))
  {
    hide Search, SearchFrom, RestTokens, Own, Resume, After;
    var init, top := levels[..|levels| - 1], levels[|levels| - 1];
    assert levels == init + [top];
    AfterPush(c, init, top);
    SearchStep(c, top.n, top.i + 1);
    if top.i + 1 < |top.n.entries| {
      AfterPush(c, init, top.(i := top.i + 1));
    }
  }

  lemma FirstKeyTracks(c: Codec, n: Node, off: nat)
    requires n.Group? && n.entries != []
    ensures var f := OpenFrame(n.obj);
            Tracks(c, if n.obj then NoteKey(f, Keys(c, n.entries)[0]) else f, Level(n, 0, off))
  {
    hide KeyOf, FirstRepeat;
    assert FirstRepeat([]) == None by { NoRepeat(); }
    NoteTracks(c, OpenFrame(n.obj), [], Keys(c, n.entries)[0]);
    assert [] + [Keys(c, n.entries)[0]] == Keys(c, n.entries)[..1];
  }

  lemma NoRepeat()
    ensures FirstRepeat([]) == None
  {
  }

  lemma NextKeyTracks(c: Codec, f: Frame, l: Level)
    requires Tracks(c, f, l) && l.i + 1 < |l.n.entries|
    ensures var g := if l.n.obj then NoteKey(f, Keys(c, l.n.entries)[l.i + 1]) else f;
            Tracks(c, g.(index := f.index + 1), l.(i := l.i + 1))
  {
    hide KeyOf, FirstRepeat;
    if l.n.obj {
      var ks := Keys(c, l.n.entries);
      NoteTracks(c, f, ks[..l.i + 1], ks[l.i + 1]);
      assert ks[..l.i + 1] + [ks[l.i + 1]] == ks[..l.i + 2];
    }
  }

  /** A container's frame, once all its entries are walked, knows its own first repeat. */
  lemma ClosedFrame(c: Codec, f: Frame, l: Level)
    requires Tracks(c, f, l) && l.i + 1 == |l.n.entries|
    ensures Own(c, l.n) == if f.repeated.Some? then Repeats([], f.repeated.value) else Nothing
  {
    hide KeyOf, FirstRepeat;
    assert FirstRepeat([]) == None by { NoRepeat(); }
    if l.n.obj {
      assert Keys(c, l.n.entries)[..l.i + 1] == Keys(c, l.n.entries);
    }
  }

  /** The cursor is at the value `cur`; the rest of the open containers is still to come. */
  ghost predicate AtValue(c: Codec, root: Node, stack: seq<Frame>, levels: seq<Level>, cur: Node, off: nat, rest: seq<Token>) {
    && AllTrack(c, stack, levels) && AllOpen(levels)
    && rest == NodeTokens(c, cur, off) + After(c, levels)
    && Search(c, root) == Resume(c, levels, Search(c, cur))
  }

  /** The cursor is past a value in which nothing was found. */
  ghost predicate PastValue(c: Codec, root: Node, stack: seq<Frame>, levels: seq<Level>, rest: seq<Token>) {
    && AllTrack(c, stack, levels) && AllOpen(levels)
    && rest == After(c, levels)
    && Search(c, root) == Resume(c, levels, Nothing)
  }

  ghost predicate AllOpen(levels: seq<Level>) {
    forall j :: 0 <= j < |levels| ==> ValidLevel(levels[j])
  }

  lemma StartsAtRoot(c: Codec, root: Node, off: nat)
    ensures AtValue(c, root, [], [], root, off, NodeTokens(c, root, off))
  {
    hide Search, NodeTokens;
    assert NodeTokens(c, root, off) + [] == NodeTokens(c, root, off);
  }

  lemma EntersGroup(c: Codec, root: Node, stack: seq<Frame>, levels: seq<Level>, cur: Node, off: nat, rest: seq<Token>,
                    frame: Frame, rest': seq<Token>)
    requires AtValue(c, root, stack, levels, cur, off, rest) && cur.Group? && cur.entries != []
    requires Tracks(c, frame, Level(cur, 0, off))
    requires rest' == NodeTokens(c, cur.entries[0].value, off + |LeftOf(cur, 0)|) + (RestTokens(c, cur, 1, off) + After(c, levels))
    ensures AtValue(c, root, stack + [frame], levels + [Level(cur, 0, off)], cur.entries[0].value, off + |LeftOf(cur, 0)|, rest')
  {
    hide Search, SearchFrom, RestTokens, NodeTokens, Resume, After, Tracks, LeftOf;
    PushLevel(c, levels, cur, off);
  }

  lemma PassesValue(c: Codec, root: Node, stack: seq<Frame>, levels: seq<Level>, cur: Node, off: nat, rest: seq<Token>)
    requires AtValue(c, root, stack, levels, cur, off, rest) && cur != HOLE && (cur.Leaf? || cur.entries == [])
    ensures PastValue(c, root, stack, levels, After(c, levels))
  {
    hide Search, NodeTokens, Resume, After, Tracks;
    NothingInside(c, cur);
  }

  /** A walk in progress: the open frames, and for the proof the levels they stand for and the value ahead. */
  datatype Walk = Walk(stack: seq<Frame>, levels: seq<Level>, cur: Node, off: nat)

  ghost predicate Ahead(c: Codec, root: Node, w: Walk, rest: seq<Token>) {
    AtValue(c, root, w.stack, w.levels, w.cur, w.off, rest)
  }

  /** What advancing past a value of level `l` does: the next entry is ahead, or the container is done. */
  ghost predicate Advanced(c: Codec, f: Frame, l: Level, after: seq<Token>, more: bool, g: Frame, rest: seq<Token>)
    requires ValidLevel(l)
  {
    && (more <==> l.i + 1 < |l.n.entries|)
    && (more ==> Tracks(c, g, l.(i := l.i + 1)))
    && (!more ==> g == f)
    && rest == if more then NodeTokens(c, l.n.entries[l.i + 1].value, l.off + |LeftOf(l.n, l.i + 1)|)
                            + (RestTokens(c, l.n, l.i + 2, l.off) + after)
               else after
  }

  lemma InnermostLevel(c: Codec, root: Node, stack: seq<Frame>, levels: seq<Level>, rest: seq<Token>) returns (top: Level, after: seq<Token>)
    requires PastValue(c, root, stack, levels, rest) && stack != []
    ensures |stack| == |levels| && top == levels[|levels| - 1] && ValidLevel(top)
    ensures AllOpen(levels[..|levels| - 1]) && after == After(c, levels[..|levels| - 1])
    ensures Tracks(c, stack[|stack| - 1], top)
    ensures rest == RestTokens(c, top.n, top.i + 1, top.off) + after
  {
    hide Search, RestTokens, Tracks;
    PopLevel(c, levels);
    top, after := levels[|levels| - 1], After(c, levels[..|levels| - 1]);
  }

  lemma NextValue(c: Codec, root: Node, stack: seq<Frame>, levels: seq<Level>, rest: seq<Token>,
                  top: Level, after: seq<Token>, frame: Frame, rest': seq<Token>, frames: seq<Frame>)
    returns (w: Walk)
    requires PastValue(c, root, stack, levels, rest) && stack != [] && |stack| == |levels|
    requires top == levels[|levels| - 1] && ValidLevel(top)
    requires AllOpen(levels[..|levels| - 1]) && after == After(c, levels[..|levels| - 1])
    requires Advanced(c, stack[|stack| - 1], top, after, true, frame, rest')
    requires frames == stack[..|stack| - 1] + [frame]
    ensures Ahead(c, root, w, rest') && w.stack == frames
  {
    hide Search, RestTokens, NodeTokens, Resume, After, Tracks, LeftOf;
    PopLevel(c, levels);
    assert forall j :: 0 <= j < |stack| ==> Tracks(c, stack[j], levels[j]);
    w := Walk(frames, levels[..|levels| - 1] + [top.(i := top.i + 1)],
              top.n.entries[top.i + 1].value, top.off + |LeftOf(top.n, top.i + 1)|);
  }

  lemma ClosesGroup(c: Codec, root: Node, stack: seq<Frame>, levels: seq<Level>, rest: seq<Token>,
                    top: Level, after: seq<Token>, frame: Frame, rest': seq<Token>, frames: seq<Frame>)
    requires PastValue(c, root, stack, levels, rest) && stack != [] && |stack| == |levels|
    requires top == levels[|levels| - 1] && ValidLevel(top)
    requires AllOpen(levels[..|levels| - 1]) && after == After(c, levels[..|levels| - 1])
    requires Advanced(c, stack[|stack| - 1], top, after, false, frame, rest')
    requires frames == stack[..|stack| - 1]
    ensures frame.repeated.Some? ==> Search(c, root) == Repeats(Indices(frames), frame.repeated.value)
    ensures frame.repeated.None? ==> PastValue(c, root, frames, levels[..|levels| - 1], rest')
  {
    hide Search, RestTokens, NodeTokens, Resume, After, Tracks, Own, LeftOf;
    PopLevel(c, levels);
    var init := levels[..|levels| - 1];
    assert Tracks(c, frame, top);
    ClosedFrame(c, frame, top);
    assert AllTrack(c, frames, init);
    if frame.repeated.Some? {
      ResumeHit(c, frames, init, [], frame.repeated.value);
      assert Indices(frames) + [] == Indices(frames);
    }
  }

  lemma NothingLeft(c: Codec, root: Node, levels: seq<Level>, rest: seq<Token>)
    requires PastValue(c, root, [], levels, rest)
    ensures Search(c, root) == Nothing
  {
    hide Search, RestTokens, Tracks;
  }

  /** A value is complete: on to the next entry of the innermost container, or close it. */
  method CloseOne(c: Codec, reader: Reader, stack: seq<Frame>, ghost root: Node, ghost levels: seq<Level>)
    returns (more: bool, hit: Hit, stack': seq<Frame>, ghost ahead: Walk)
    requires PastValue(c, root, stack, levels, reader.rest) && stack != []
    modifies reader
    ensures |reader.rest| <= |old(reader.rest)| && ahead.stack == stack'
    ensures more ==> Ahead(c, root, ahead, reader.rest)
    ensures !more ==> |stack'| < |stack|
    ensures !more && hit.Repeats? ==> hit == Search(c, root)
    ensures !more && !hit.Repeats? ==> hit == Nothing && PastValue(c, root, stack', ahead.levels, reader.rest)
  {
    hide *;
    ghost var here := reader.rest;
    ghost var top, after := InnermostLevel(c, root, stack, levels, here);
    var frame := stack[|stack| - 1];
    hit := Nothing;
    more, frame := Advance(c, reader, frame, top, after);
    if more {
      stack' := stack[..|stack| - 1] + [frame];
      ahead := NextValue(c, root, stack, levels, here, top, after, frame, reader.rest, stack');
    } else {
      stack' := stack[..|stack| - 1];
      ahead := Walk(stack', levels[..|levels| - 1], root, 0);
      ClosesGroup(c, root, stack, levels, here, top, after, frame, reader.rest, stack');
      if frame.repeated.Some? {
        hit := Repeats(Indices(stack'), frame.repeated.value);
      }
    }
  }

  /** Close containers until one has another entry, or one repeats a key, or none is open. */
  method Unwind(c: Codec, reader: Reader, stack: seq<Frame>, ghost root: Node, ghost levels: seq<Level>)
    returns (more: bool, hit: Hit, stack': seq<Frame>, ghost ahead: Walk)
    requires PastValue(c, root, stack, levels, reader.rest)
    modifies reader
    ensures |reader.rest| <= |old(reader.rest)|
    ensures more ==> Ahead(c, root, ahead, reader.rest) && ahead.stack == stack'
    ensures !more ==> hit == Search(c, root)
  {
    hide *;
    more, hit, stack', ahead := false, Nothing, stack, Walk(stack, levels, root, 0);
    while stack' != []
      invariant |reader.rest| <= |old(reader.rest)| && hit == Nothing
      invariant PastValue(c, root, stack', ahead.levels, reader.rest)
      decreases |stack'|
    {
      more, hit, stack', ahead := CloseOne(c, reader, stack', root, ahead.levels);
      if more || hit.Repeats? {
        return;
      }
    }
    NothingLeft(c, root, ahead.levels, reader.rest);
    more := false;
  }

  /**
    Walk the text depth first; stop at the first object to close that repeats a key, or where
    the text breaks off. Text after the root is not looked at.
   */
  method Scan(c: Codec, doc: bytes) returns (hit: Hit)
    ensures hit == Search(c, ReadRoot(doc))
  {
    hide Search, SearchFrom, RestTokens, NodeTokens, Own, Resume, After, Tracks, Keys, LeftOf, FirstRepeat, ReadRoot, Under, AtValue, PastValue, AllTrack;
    var reader := new Reader(c, doc);
    ghost var root := ReadRoot(doc);
    ghost var w := Walk([], [], root, WsLen(doc));
    var stack: seq<Frame> := [];
    StartsAtRoot(c, root, w.off);
    while true
      invariant Ahead(c, root, w, reader.rest) && w.stack == stack
      decreases |reader.rest|
    {
      ghost var was := reader.rest;
      OpensAll(c, root, stack, w.levels, w.cur, w.off, reader.rest);
      var stuck, entered, frame := Step(c, reader, w.cur, w.off, After(c, w.levels));
      if stuck {
        MeetsFault(c, root, stack, w.levels, w.cur, w.off, was);
        return Fault;
      }
      if entered {
        EntersGroup(c, root, stack, w.levels, w.cur, w.off, was, frame, reader.rest);
        stack := stack + [frame];
        w := Walk(stack, w.levels + [Level(w.cur, 0, w.off)], w.cur.entries[0].value, w.off + |LeftOf(w.cur, 0)|);
        continue;
      }
      PassesValue(c, root, stack, w.levels, w.cur, w.off, was);
      var more, found;
      more, found, stack, w := Unwind(c, reader, stack, root, w.levels);
      if !more {
        return found;
      }
    }
  }

  lemma MeetsFault(c: Codec, root: Node, stack: seq<Frame>, levels: seq<Level>, cur: Node, off: nat, rest: seq<Token>)
    requires AtValue(c, root, stack, levels, cur, off, rest) && cur == HOLE
    ensures Search(c, root) == Fault
  {
    hide Search, NodeTokens, After, Resume, Tracks;
    SearchLeaf(c, cur);
    ResumeFault(c, levels);
  }

  lemma OpensAll(c: Codec, root: Node, stack: seq<Frame>, levels: seq<Level>, cur: Node, off: nat, rest: seq<Token>)
    requires AtValue(c, root, stack, levels, cur, off, rest)
    ensures AllOpen(levels) && rest == NodeTokens(c, cur, off) + After(c, levels)
  {
    hide Search, NodeTokens, After;
  }

  /** A scalar or an empty container repeats nothing. */
  lemma NothingInside(c: Codec, n: Node)
    requires n != HOLE && (n.Leaf? || n.entries == [])
    ensures Search(c, n) == Nothing
  {
    hide SearchFrom, Search;
    if n.Leaf? {
      SearchLeaf(c, n);
    } else {
      SearchGroup(c, n);
      SearchStep(c, n, 0);
    }
  }

  /** The cursor is at a value: open it, or step past it, unless the text breaks off there. */
  method Step(c: Codec, reader: Reader, ghost n: Node, ghost off: nat, ghost after: seq<Token>)
    returns (stuck: bool, entered: bool, frame: Frame)
    requires reader.rest == NodeTokens(c, n, off) + after
    modifies reader
    ensures stuck <==> n == HOLE
    ensures entered <==> n.Group? && n.entries != []
    ensures entered ==> Tracks(c, frame, Level(n, 0, off))
    ensures !stuck ==> |reader.rest| < |old(reader.rest)|
    ensures !stuck ==>
              reader.rest == if entered then NodeTokens(c, n.entries[0].value, off + |LeftOf(n, 0)|) + (RestTokens(c, n, 1, off) + after)
                             else after
  {
    hide RestTokens, NodeTokens, Tracks, Keys, LeftOf;
    stuck, entered, frame := false, false, OpenFrame(false);
    if n.Leaf? {
      NodeTokensLeaf(c, n, off);
    } else {
      OpenTokens(c, n, off, after);
      EntryTokens(c, n, 0, off, after);
      if n.entries != [] {
        FirstKeyTracks(c, n, off);
      }
    }
    var node := reader.NextNode();
    if node.None? {
      stuck := true;
      return;
    }
    if node.value.Open? && node.value.obj {
      var key := reader.ObjectKey();
      if key.Some? {
        entered, frame := true, NoteKey(OpenFrame(true), key.value);
      }
    } else if node.value.Open? {
      var has := reader.ArrayMore();
      if has {
        entered, frame := true, OpenFrame(false);
      }
    }
  }

  /** The value is complete: on to the next entry of its container, or past the container. */
  method Advance(c: Codec, reader: Reader, f: Frame, ghost l: Level, ghost after: seq<Token>)
    returns (more: bool, g: Frame)
    requires ValidLevel(l) && Tracks(c, f, l) && reader.rest == RestTokens(c, l.n, l.i + 1, l.off) + after
    modifies reader
    ensures |reader.rest| <= |old(reader.rest)|
    ensures Advanced(c, f, l, after, more, g, reader.rest)
  {
    hide RestTokens, NodeTokens, Keys, LeftOf, FirstRepeat;
    EntryTokens(c, l.n, l.i + 1, l.off, after);
    if l.i + 1 < |l.n.entries| {
      NextKeyTracks(c, f, l);
    }
    g := f;
    if f.obj {
      var key := reader.ObjectKey();
      more := key.Some?;
      if more {
        g := NoteKey(g, key.value);
      }
    } else {
      more := reader.ArrayMore();
    }
    if more {
      g := g.(index := g.index + 1);
    }
  }

  // ----- container_offset: replaying the path -----

  /** Step into the container at the cursor and past its first `index` entries. */
  method Descend(c: Codec, reader: Reader, index: nat, ghost n: Node, ghost off: nat, ghost after: seq<Token>)
    returns (ghost after': seq<Token>)
    requires reader.rest == NodeTokens(c, n, off) + after && n.Group? && index < |n.entries|
    requires forall i :: 0 <= i < index ==> NoHole(n.entries[i].value)
    modifies reader
    ensures reader.rest == NodeTokens(c, n.entries[index].value, off + |LeftOf(n, index)|) + after'
  {
    hide RestTokens, NodeTokens, Keys, LeftOf, Print, NoHole;
    OpenTokens(c, n, off, after);
    EntryTokens(c, n, 0, off, after);
    var node := reader.NextNode();
    if node.value.obj {
      var key := reader.ObjectKey();
    } else {
      var has := reader.ArrayMore();
    }
    after' := RestTokens(c, n, 1, off) + after;
    for i := 0 to index
      invariant reader.rest == NodeTokens(c, n.entries[i].value, off + |LeftOf(n, i)|) + after'
      invariant after' == RestTokens(c, n, i + 1, off) + after
    {
      var start, end := reader.SkipValue(c, n.entries[i].value, off + |LeftOf(n, i)|, after');
      EntryTokens(c, n, i + 1, off, after);
      if node.value.obj {
        var key := reader.ObjectKey();
      } else {
        var has := reader.ArrayMore();
      }
      after' := RestTokens(c, n, i + 2, off) + after;
    }
  }

  lemma {:induction false} PrefixValid(n: Node, p: seq<nat>, k: nat)
    requires ValidPath(n, p) && k <= |p|
    ensures ValidPath(n, p[..k])
    ensures k < |p| ==>
              var m := At(n, p[..k]);
              && m.Group? && p[k] < |m.entries| && ValidPath(n, p[..k + 1])
              && At(n, p[..k + 1]) == m.entries[p[k]].value
              && Left(n, p[..k + 1]) == Left(n, p[..k]) + LeftOf(m, p[k])
  {
    hide LeftOf;
    if k > 0 {
      PrefixValid(n.entries[p[0]].value, p[1..], k - 1);
      assert p[..k][0] == p[0] && p[..k][1..] == p[1..][..k - 1];
      if k < |p| {
        assert p[..k + 1][0] == p[0] && p[..k + 1][1..] == p[1..][..k];
      }
    } else if p != [] {
      assert p[..1] == [p[0]] && [p[0]][1..] == [];
    }
  }

  lemma {:induction false} WholePrefix(n: Node, p: seq<nat>, k: nat)
    requires ValidPath(n, p) && Whole(n, p) && k < |p|
    ensures ValidPath(n, p[..k]) && At(n, p[..k]).Group? && p[k] <= |At(n, p[..k]).entries|
    ensures forall i :: 0 <= i < p[k] ==> NoHole(At(n, p[..k]).entries[i].value)
  {
    hide NoHole;
    if k > 0 {
      WholePrefix(n.entries[p[0]].value, p[1..], k - 1);
      assert p[..k][0] == p[0] && p[..k][1..] == p[1..][..k - 1];
    }
  }

  /** Where the node at `path` starts in the text. */
  function StartIn(doc: bytes, path: seq<nat>): nat
    requires ValidPath(ReadRoot(doc), path)
  {
    WsLen(doc) + |Left(ReadRoot(doc), path)|
  }

  /** The offset of the container at `path`, of which the text has all. */
  method ContainerOffset(c: Codec, doc: bytes, path: seq<nat>) returns (at: nat)
    requires ValidPath(ReadRoot(doc), path) && Whole(ReadRoot(doc), path)
    ensures at == StartIn(doc, path)
  {
    hide RestTokens, NodeTokens, Keys, LeftOf, Print, ReadRoot, ValidPath, At, Left, Whole, NoHole, WsLen;
    var reader := new Reader(c, doc);
    ghost var root := ReadRoot(doc);
    ghost var lead := WsLen(doc);
    ghost var after: seq<Token> := [];
    assert path[..0] == [];
    assert ValidPath(root, []) && At(root, []) == root && Left(root, []) == [] by { EmptyPath(root); }
    assert NodeTokens(c, root, lead) + [] == NodeTokens(c, root, lead);
    for k := 0 to |path|
      invariant ValidPath(root, path[..k])
      invariant reader.rest == NodeTokens(c, At(root, path[..k]), lead + |Left(root, path[..k])|) + after
    {
      PrefixValid(root, path, k);
      WholePrefix(root, path, k);
      after := Descend(c, reader, path[k], At(root, path[..k]), lead + |Left(root, path[..k])|, after);
    }
    assert path[..|path|] == path;
    WholeAt(root, path);
    var start, end := reader.SkipValue(c, At(root, path), lead + |Left(root, path)|, after);
    at := start;
  }

  lemma EmptyPath(n: Node)
    ensures ValidPath(n, []) && At(n, []) == n && Left(n, []) == []
  {
  }

  // ----- duplicate_key -----

  datatype Repeat = Found(at: nat, key: bytes) | Absent | Undecided

  /**
    `duplicate_key`, on any text. Found is the first object to close that repeats a key,
    with the key repeated first and where its `{` is; Absent means that the root is all
    there and repeats nothing; Undecided that the text breaks off first.
   */
  method DuplicateKey(c: Codec, doc: bytes) returns (r: Repeat)
    ensures r.Absent? <==> Search(c, ReadRoot(doc)).Nothing?
    ensures r.Undecided? <==> Search(c, ReadRoot(doc)).Fault?
    ensures r.Absent? <==> Unique(c, ReadRoot(doc)) && NoHole(ReadRoot(doc))
    ensures r.Found? ==>
              && Search(c, ReadRoot(doc)).Repeats?
              && var Repeats(path, key) := Search(c, ReadRoot(doc));
              && RepeatsAt(c, ReadRoot(doc), path, key)
              && r == Found(StartIn(doc, path), key)
  {
    hide Search, ReadRoot, Unique, ValidPath, At, Left, Keys, FirstRepeat, NoHole, Whole, StartIn;
    var hit := Scan(c, doc);
    SearchFindsAll(c, ReadRoot(doc));
    match hit {
      case Nothing =>
        r := Absent;
      case Repeats(path, key) =>
        SearchIsRepeat(c, ReadRoot(doc));
        var at := ContainerOffset(c, doc, path);
        r := Found(at, key);
      case Fault =>
        r := Undecided;
    }
  }

  /** The offset found is that of an opening brace. */
  lemma FoundBrace(c: Codec, doc: bytes, path: seq<nat>, key: bytes)
    requires RepeatsAt(c, ReadRoot(doc), path, key)
    ensures StartIn(doc, path) < |doc| && doc[StartIn(doc, path)] == LBRACE
    ensures var text := Print(At(ReadRoot(doc), path)); var at := StartIn(doc, path);
            at + |text| <= |doc| && doc[at..at + |text|] == text
  {
    hide ReadRoot, Print, Left, At, Keys, FirstRepeat, Whole, WsLen, ValidPath, Wrap;
    var n := At(ReadRoot(doc), path);
    ReadText(doc, path);
    PrintsGroup(n.obj, n.gap, n.entries);
    OpensWith(n.obj, n.gap, Texts(n.entries));
    assert doc[StartIn(doc, path)] == doc[StartIn(doc, path)..StartIn(doc, path) + |Print(n)|][0];
  }

  lemma OpensWith(obj: bool, gap: bytes, ts: seq<bytes>)
    ensures Wrap(obj, gap, ts) != [] && Wrap(obj, gap, ts)[0] == Opener(obj)
  {
    hide Body;
  }
}
