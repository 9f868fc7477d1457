/** Partial parsing by pointer, one at a time and in batches: ext/nosj/src/pointer.rs. */
module Lookup {
  import opened Bytes
  import opened Syntax
  import opened Values
  import opened Tree
  import opened Edits
  import opened Grammar
  import opened Mended
  import opened Sinks
  import opened ValueSinks
  import opened Patch
  import P = Pointer

  datatype LookupFault = InvalidPointer | Unreadable(fault: DriveError) | PathOutOfRange

  /** The reference tokens of a pointer; none where there is no pointer or it is malformed. */
  function Toks(ptr: Option<bytes>): Option<seq<bytes>> {
    if ptr.None? then None else P.Tokens(ptr.value)
  }

  predicate Malformed(ptr: Option<bytes>) {
    ptr.Some? && P.Tokens(ptr.value).None?
  }

  /** The node the tokens lead to in the text. */
  function Target(c: Codec, doc: bytes, toks: Option<seq<bytes>>): Option<Node>
    requires ParseDoc(doc).Some?
  {
    if toks.None? then None
    else
      var p := PathOf(c, RootOf(doc), toks.value);
      if p.None? then None
      else
        PathOfValid(c, RootOf(doc), toks.value);
        Some(At(RootOf(doc), p.value))
  }

  /** What a lookup answers: the value at the target, nil without one. */
  ghost function Answer(c: Codec, doc: bytes, toks: Option<seq<bytes>>): Option<Value>
    requires ParseDoc(doc).Some?
  {
    var n := Target(c, doc, toks);
    if n.None? then None else Some(ValueOf(c, n.value))
  }

  /** The target, if there is one, nests within the limit and, unless allowed, repeats no key. */
  ghost predicate Readable(c: Codec, doc: bytes, toks: Option<seq<bytes>>, maxNesting: nat, allow: bool)
    requires ParseDoc(doc).Some?
  {
    var n := Target(c, doc, toks);
    n.Some? ==> Depth(n.value) <= maxNesting && (allow || Unique(c, n.value))
  }

  /** Why a parse refuses the target: whichever comes first, a container too deep or the close of an object that repeats a key. */
  ghost function Refusal(c: Codec, doc: bytes, toks: Option<seq<bytes>>, maxNesting: nat, allow: bool): Option<DriveError>
    requires ParseDoc(doc).Some?
  {
    var n := Target(c, doc, toks);
    if n.None? then None else TextOutcome(c, Print(n.value), maxNesting, RefusedRepeat(allow))
  }

  /** Where no object repeats a key, a lookup in the text is a lookup in the value. */
  lemma AnswerIsResolve(c: Codec, doc: bytes, toks: seq<bytes>, maxNesting: nat, allow: bool)
    requires Good(c, doc)
    ensures Answer(c, doc, Some(toks)) == Resolve(DocValue(c, doc), toks)
    ensures var x := Resolve(DocValue(c, doc), toks);
            Readable(c, doc, Some(toks), maxNesting, allow) <==> (x.Some? ==> NestsWithin(x.value, maxNesting))
  {
    hide ParseDoc, Wf, Unique, PathOf, At, ValueOf, Resolve, Depth, NestsWithin, ValidPath;
    GoodRoot(c, doc);
    ResolveMatches(c, RootOf(doc), toks);
    var n := Target(c, doc, Some(toks));
    if n.Some? {
      AtKeeps(c, RootOf(doc), PathOf(c, RootOf(doc), toks).value);
      DepthMatches(c, n.value, maxNesting);
    }
  }

  /**
    Where keys repeat, the last step takes the first member with its key, whatever follows:
    the value of the whole document has the last.
   */
  lemma FirstMember(c: Codec, doc: bytes, toks: seq<bytes>)
    requires ParseDoc(doc).Some? && toks != []
    requires var n := Target(c, doc, Some(toks[..|toks| - 1])); n.Some? && n.value.Group? && n.value.obj
    ensures var n := Target(c, doc, Some(toks[..|toks| - 1])).value;
            var k := toks[|toks| - 1];
            var t := Target(c, doc, Some(toks));
            && (t.Some? <==> k in Keys(c, n.entries))
            && forall i :: 0 <= i < |n.entries| && Keys(c, n.entries)[i] == k && k !in Keys(c, n.entries)[..i] ==>
                 t == Some(n.entries[i].value)
  {
    hide ParseDoc, PathOf, At, ValidPath, Keys;
    var init, k := toks[..|toks| - 1], toks[|toks| - 1];
    var p := PathOf(c, RootOf(doc), init).value;
    var n := Target(c, doc, Some(init)).value;
    PathOfValid(c, RootOf(doc), init);
    assert n == At(RootOf(doc), p);
    IndexOfNone(Keys(c, n.entries), k);
    IndexOfFirst(Keys(c, n.entries), k);
    var r := ChildIndex(c, n, k);
    if r.Some? {
      PathOfChild(c, RootOf(doc), toks, r.value);
      OneStep(n, r.value);
      PathConcat(RootOf(doc), p, [r.value]);
      FirstIsOne(Keys(c, n.entries), k, r.value);
    } else {
      PathOfMiss(c, RootOf(doc), toks);
    }
  }

  lemma OneStep(n: Node, i: nat)
    requires n.Group? && i < |n.entries|
    ensures ValidPath(n, [i]) && At(n, [i]) == n.entries[i].value
  {
    assert [i][1..] == [];
  }

  lemma FirstIsOne(ks: seq<bytes>, k: bytes, i: nat)
    requires i < |ks| && ks[i] == k && k !in ks[..i]
    ensures forall j :: 0 <= j < |ks| && ks[j] == k && k !in ks[..j] ==> j == i
  {
    assert forall j :: i < j <= |ks| ==> ks[..j][i] == k;
    assert forall j :: 0 <= j < i ==> ks[..i][j] == ks[j];
  }

  lemma {:induction false} PathOfMiss(c: Codec, n: Node, toks: seq<bytes>)
    requires toks != [] && PathOf(c, n, toks[..|toks| - 1]).Some?
    requires var p := PathOf(c, n, toks[..|toks| - 1]).value;
             ValidPath(n, p) && ChildIndex(c, At(n, p), toks[|toks| - 1]).None?
    ensures PathOf(c, n, toks).None?
    decreases |toks|
  {
    hide ChildIndex;
    var init := toks[..|toks| - 1];
    if |toks| > 1 {
      var k := ChildIndex(c, n, toks[0]).value;
      assert init[0] == toks[0] && init[1..] == toks[1..][..|toks| - 2];
      PathOfMiss(c, n.entries[k].value, toks[1..]);
    }
  }

  // ----- one pointer -----

  /** A resolved pointer's span holds the target's text. */
  lemma SpanOfTarget(c: Codec, doc: bytes, ptr: bytes)
    requires ParseDoc(doc).Some?
    ensures SpanAt(c, doc, ptr).Err? <==> Malformed(Some(ptr))
    ensures SpanAt(c, doc, ptr) == Ok(None) ==> Target(c, doc, Toks(Some(ptr))) == None
    ensures SpanAt(c, doc, ptr).Ok? && SpanAt(c, doc, ptr).value.Some? ==>
              var (s, e) := SpanAt(c, doc, ptr).value.value;
              var n := Target(c, doc, Toks(Some(ptr)));
              n.Some? && s <= e <= |doc| && doc[s..e] == Print(n.value) && Wf(n.value)
  {
    hide ParseDoc, Wf, Print, PathOf, At, P.Tokens, Left, ValidPath;
    var toks := P.Tokens(ptr);
    if toks.Some? && PathOf(c, RootOf(doc), toks.value).Some? {
      PathOfValid(c, RootOf(doc), toks.value);
      NodeText(doc, PathOf(c, RootOf(doc), toks.value).value);
    }
  }

  lemma NodeReads(n: Node)
    requires Wf(n)
    ensures ParseDoc(Print(n)).Some? && ReadRoot(Print(n)) == n
  {
    hide ParseDoc, Wf, Print, ReadRoot;
    assert AllWs([]);
    var d := Doc([], n, []);
    assert PrintDoc(d) == Print(n);
    DocReads(d);
    ReadRootIs(Print(n));
  }

  /** Materialize what one resolved span holds: the value there, unless a parse refuses it. */
  method MaterializeHit(c: Codec, doc: bytes, hit: (nat, nat), ghost ptr: bytes, stack: seq<Slot>, maxNesting: nat, allow: bool)
    returns (r: Result<Value, DriveError>)
    requires ParseDoc(doc).Some? && BelowCeiling(doc) && SpanAt(c, doc, ptr) == Ok(Some(hit))
    ensures r.Ok? <==> Readable(c, doc, Toks(Some(ptr)), maxNesting, allow)
    ensures r.Ok? ==> Answer(c, doc, Toks(Some(ptr))) == Some(r.value)
    ensures r.Err? ==> Some(r.error) == Refusal(c, doc, Toks(Some(ptr)), maxNesting, allow)
  {
    hide ParseDoc, Wf, Unique, Print, ValueOf, P.Tokens, SpanAt, Depth, TextOutcome, Peak, RefusedRepeat, ReadRoot, Target;
    SpanOfTarget(c, doc, ptr);
    var (start, end) := hit;
    NodeReads(Target(c, doc, Toks(Some(ptr))).value);
    DriveAccepts(c, doc[start..end], maxNesting, allow);
    r := MaterializeAt(c, doc, start, end, stack, maxNesting, allow);
  }

  /** `at_pointer`: nil when the pointer misses. */
  method AtPointer(c: Codec, doc: bytes, ptr: bytes, stack: seq<Slot>, maxNesting: nat, allow: bool)
    returns (r: Result<Option<Value>, LookupFault>)
    requires ParseDoc(doc).Some? && BelowCeiling(doc)
    ensures Malformed(Some(ptr)) <==> r == Err(InvalidPointer)
    ensures r.Ok? <==> !Malformed(Some(ptr)) && Readable(c, doc, Toks(Some(ptr)), maxNesting, allow)
    ensures r.Ok? ==> r.value == Answer(c, doc, Toks(Some(ptr)))
    ensures r.Err? && r != Err(InvalidPointer) ==>
              && Refusal(c, doc, Toks(Some(ptr)), maxNesting, allow).Some?
              && r == Err(Unreadable(Refusal(c, doc, Toks(Some(ptr)), maxNesting, allow).value))
  {
    hide ParseDoc, BelowCeiling, ValueOf, P.Tokens, SpanAt, Target, Unique, Depth, Print, Wf, Refusal;
    SpanOfTarget(c, doc, ptr);
    var resolved := SpanAt(c, doc, ptr);
    if resolved.Err? {
      return Err(InvalidPointer);
    }
    if resolved.value.None? {
      return Ok(None);
    }
    var value := MaterializeHit(c, doc, resolved.value.value, ptr, stack, maxNesting, allow);
    r := if value.Ok? then Ok(Some(value.value)) else Err(Unreadable(value.error));
  }

  // ----- dig -----

  /** `dig`: the value at the path, read step by step; nil when a step misses or is negative. */
  method Dig(c: Codec, doc: bytes, path: seq<P.Step>, stack: seq<Slot>) returns (r: Result<Option<Value>, LookupFault>)
    requires ParseDoc(doc).Some? && BelowCeiling(doc)
    ensures var k := P.GoodPrefix(path);
            && (k == |path| ==>
                  && (r.Ok? <==> Readable(c, doc, Some(P.StepTokens(path)), 100, false))
                  && (r.Ok? ==> r.value == Answer(c, doc, Some(P.StepTokens(path))))
                  && (r.Err? ==>
                        var stop := Refusal(c, doc, Some(P.StepTokens(path)), 100, false);
                        stop.Some? && r == Err(Unreadable(stop.value))))
            && (k < |path| ==> r == if -9223372036854775808 <= path[k].index < 0 then Ok(None) else Err(PathOutOfRange))
  {
    hide ParseDoc, BelowCeiling, P.Tokens, P.Encode, P.StepTokens, Answer, Readable, Refusal;
    var ptr := P.PathToPointer(path);
    P.TokensEncode(P.StepTokens(path));
    if ptr.Err? {
      return Err(PathOutOfRange);
    }
    if ptr.value.None? {
      return Ok(None);
    }
    r := AtPointer(c, doc, ptr.value.value, stack, MAX_NESTING, false);
  }

  /** `k` arrays, one in another. */
  function Brackets(k: nat): Node
    requires k > 0
  {
    Group(false, [], if k == 1 then [] else [Entry([], Bare, Brackets(k - 1), [])])
  }

  lemma {:induction false} BracketsDepth(c: Codec, k: nat)
    requires k > 0
    ensures Wf(Brackets(k)) && Unique(c, Brackets(k)) && Depth(Brackets(k)) == k
  {
    DepthOfNode(Brackets(k));
    if k > 1 {
      BracketsDepth(c, k - 1);
      var es := Brackets(k).entries;
      assert es[1..] == [];
      assert AllWs([]);
      assert WfEntry(false, es[0]);
    }
  }

  /** The limit of `dig` and of `test` is 100: arrays nested that deep are read, one more are not. */
  lemma DigDepth(c: Codec, k: nat)
    requires k > 0
    ensures ParseDoc(Print(Brackets(k))).Some?
    ensures Readable(c, Print(Brackets(k)), Some([]), 100, false) <==> k <= 100
  {
    hide ParseDoc, Print, Brackets, Wf, Unique, Depth;
    var n := Brackets(k);
    BracketsDepth(c, k);
    NodeReads(n);
    ReadRootIs(Print(n));
    assert At(n, []) == n;
  }

  // ----- many pointers -----

  /** The pointers that reach the resolver. */
  function Reaching(pointers: seq<Option<bytes>>): seq<bytes> {
    if pointers == [] then []
    else Reaching(pointers[..|pointers| - 1]) + (if pointers[|pointers| - 1].Some? then [pointers[|pointers| - 1].value] else [])
  }

  lemma {:induction false} ReachingAt(pointers: seq<Option<bytes>>, i: nat)
    requires i < |pointers| && pointers[i].Some?
    ensures |Reaching(pointers[..i])| < |Reaching(pointers)|
    ensures Reaching(pointers)[|Reaching(pointers[..i])|] == pointers[i].value
  {
    var init := pointers[..|pointers| - 1];
    if i < |init| {
      assert init[..i] == pointers[..i];
      ReachingAt(init, i);
    }
  }

  lemma ReachingNext(pointers: seq<Option<bytes>>, i: nat)
    requires i < |pointers|
    ensures |Reaching(pointers[..i + 1])| == |Reaching(pointers[..i])| + (if pointers[i].Some? then 1 else 0)
  {
    assert pointers[..i + 1][..i] == pointers[..i];
  }

  lemma {:induction false} ReachingFrom(pointers: seq<Option<bytes>>, ptr: bytes)
    ensures ptr in Reaching(pointers) <==> Some(ptr) in pointers
  {
    if pointers != [] {
      var init := pointers[..|pointers| - 1];
      ReachingFrom(init, ptr);
      assert pointers == init + [pointers[|pointers| - 1]];
    }
  }

  /** The resolver's one pass: refused for a malformed pointer, else a hit or a miss for each, in order. */
  function ResolveBatch(c: Codec, doc: bytes, live: seq<bytes>): Result<seq<Option<(nat, nat)>>, LookupFault> {
    if exists p :: p in live && Malformed(Some(p)) then Err(InvalidPointer)
    else Ok(seq(|live|, i requires 0 <= i < |live| => if SpanAt(c, doc, live[i]).Ok? then SpanAt(c, doc, live[i]).value else None))
  }

  /**
    `at_pointers`: the hits come back without a place for the pointers that never reached
    the resolver, and are aligned with them again. Answer `i` is pointer `i`'s alone.
   */
  method AtPointers(c: Codec, doc: bytes, pointers: seq<Option<bytes>>, stack: seq<Slot>, maxNesting: nat, allow: bool)
    returns (r: Result<seq<Option<Value>>, LookupFault>)
    requires ParseDoc(doc).Some? && BelowCeiling(doc)
    ensures (exists i :: 0 <= i < |pointers| && Malformed(pointers[i])) <==> r == Err(InvalidPointer)
    ensures r.Ok? <==>
              forall i :: 0 <= i < |pointers| ==>
                !Malformed(pointers[i]) && Readable(c, doc, Toks(pointers[i]), maxNesting, allow)
    ensures r.Ok? ==> |r.value| == |pointers| && forall i :: 0 <= i < |pointers| ==> r.value[i] == Answer(c, doc, Toks(pointers[i]))
  {
    hide ParseDoc, BelowCeiling, P.Tokens, SpanAt, Reaching, Malformed, Answer, Readable, Target, Toks, Print, Wf;
    var live := Reaching(pointers);
    var resolved := ResolveBatch(c, doc, live);
    if resolved.Err? {
      var p :| p in live && Malformed(Some(p));
      ReachingFrom(pointers, p);
      return Err(InvalidPointer);
    }
    NoneMalformed(pointers);
    var hits := resolved.value;
    var next := 0;
    var out: seq<Option<Value>> := [];
    assert Reaching(pointers[..0]) == [] by { ReachingNone(pointers); }
    for i := 0 to |pointers|
      invariant next == |Reaching(pointers[..i])| && |out| == i
      invariant forall k :: 0 <= k < i ==>
        out[k] == Answer(c, doc, Toks(pointers[k])) && Readable(c, doc, Toks(pointers[k]), maxNesting, allow)
    {
      ReachingNext(pointers, i);
      var hit := None;
      if pointers[i].Some? {
        ReachingAt(pointers, i);
        SpanOfTarget(c, doc, pointers[i].value);
        hit := hits[next];
        next := next + 1;
      }
      if hit.Some? {
        var value := MaterializeHit(c, doc, hit.value, pointers[i].value, stack, maxNesting, allow);
        if value.Err? {
          return Err(Unreadable(value.error));
        }
        out := out + [Some(value.value)];
      } else {
        NilAnswer(c, doc, pointers[i], maxNesting, allow);
        out := out + [None];
      }
    }
    r := Ok(out);
  }

  lemma ReachingNone(pointers: seq<Option<bytes>>)
    ensures Reaching(pointers[..0]) == []
  {
  }

  lemma NilAnswer(c: Codec, doc: bytes, ptr: Option<bytes>, maxNesting: nat, allow: bool)
    requires ParseDoc(doc).Some? && (ptr.None? || Target(c, doc, Toks(ptr)) == None)
    ensures Answer(c, doc, Toks(ptr)) == None && Readable(c, doc, Toks(ptr), maxNesting, allow)
  {
    hide ParseDoc, P.Tokens, Unique, Depth;
  }

  lemma NoneMalformed(pointers: seq<Option<bytes>>)
    requires forall p :: p in Reaching(pointers) ==> !Malformed(Some(p))
    ensures forall i :: 0 <= i < |pointers| ==> !Malformed(pointers[i])
  {
    hide Reaching, P.Tokens;
    forall i | 0 <= i < |pointers|
      ensures !Malformed(pointers[i])
    {
      if pointers[i].Some? {
        ReachingFrom(pointers, pointers[i].value);
      }
    }
  }
}
