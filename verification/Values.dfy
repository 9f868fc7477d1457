/**
  What documents mean, and the reference for editing them: JSON values, JSON Pointer
  lookup, and the tree operations of sections 4.1 to 4.6 of RFC 6902.
 */
module Values {
  import opened Bytes
  import opened Syntax
  import Pointer

  /**
    The lexical parts this model leaves to the tokenizer and the escape kernels: what a key
    token decodes to, the key token the generator writes, and a scalar token's value.
   */
  datatype Codec = Codec(decode: bytes -> bytes, quote: bytes -> bytes, scalar: bytes -> bytes) {

    /** Generated keys are string tokens that read back. */
    ghost predicate Faithful() {
      forall k :: IsString(quote(k)) && decode(quote(k)) == k
    }
  }

  /** A JSON value; objects do not order their members. */
  datatype Value = Atom(content: bytes) | List(items: seq<Value>) | Dict(members: map<bytes, Value>)

  // ----- the value of a text -----

  function KeyOf(c: Codec, e: Entry): bytes {
    if e.head.Key? then c.decode(e.head.text) else []
  }

  function Keys(c: Codec, es: seq<Entry>): (ks: seq<bytes>)
    ensures |ks| == |es|
  {
    seq(|es|, i requires 0 <= i < |es| => KeyOf(c, es[i]))
  }

  /** Keys paired with values; the last of equal keys wins. */
  function MapOf(ks: seq<bytes>, vs: seq<Value>): map<bytes, Value>
    requires |ks| == |vs|
  {
    if ks == [] then map[]
    else MapOf(ks[..|ks| - 1], vs[..|vs| - 1])[ks[|ks| - 1] := vs[|vs| - 1]]
  }

  function ValueOf(c: Codec, n: Node): Value
    decreases n, 0
  {
    match n
    case Leaf(text) => Atom(c.scalar(text))
    case Group(obj, _, es) => Collect(obj, Keys(c, es), ValuesOf(c, es))
  }

  function ValuesOf(c: Codec, es: seq<Entry>): (vs: seq<Value>)
    ensures |vs| == |es|
    decreases es, 1
  {
    if es == [] then [] else [ValueOf(c, es[0].value)] + ValuesOf(c, es[1..])
  }

  function Collect(obj: bool, ks: seq<bytes>, vs: seq<Value>): Value
    requires |ks| == |vs|
  {
    if obj then Dict(MapOf(ks, vs)) else List(vs)
  }

  ghost predicate Distinct(ks: seq<bytes>) {
    forall i, j :: 0 <= i < j < |ks| ==> ks[i] != ks[j]
  }

  /** No object repeats a key. */
  ghost predicate Unique(c: Codec, n: Node)
    decreases n
  {
    match n
    case Leaf(_) => true
    case Group(obj, _, es) =>
      && (obj ==> Distinct(Keys(c, es)))
      && forall i :: 0 <= i < |es| ==> Unique(c, es[i].value)
  }

  /** How deep containers nest. */
  function Depth(n: Node): nat
    decreases n, 0
  {
    if n.Leaf? then 0 else 1 + DepthOf(n.entries)
  }

  function DepthOf(es: seq<Entry>): nat
    decreases es, 1
  {
    if es == [] then 0
    else
      var d, rest := Depth(es[0].value), DepthOf(es[1..]);
      if d > rest then d else rest
  }

  /** Containers nest at most `k` deep. */
  ghost predicate NestsWithin(v: Value, k: nat)
    decreases k
  {
    match v
    case Atom(_) => true
    case List(xs) => k > 0 && forall i :: 0 <= i < |xs| ==> NestsWithin(xs[i], k - 1)
    case Dict(m) => k > 0 && forall key :: key in m ==> NestsWithin(m[key], k - 1)
  }

  // ----- unfolding -----

  lemma ValueOfGroup(c: Codec, n: Node)
    requires n.Group?
    ensures ValueOf(c, n) == Collect(n.obj, Keys(c, n.entries), ValuesOf(c, n.entries))
  {
    hide ValuesOf, Keys, Collect;
  }

  lemma {:induction false} ValuesOfAt(c: Codec, es: seq<Entry>, i: nat)
    requires i < |es|
    ensures ValuesOf(c, es)[i] == ValueOf(c, es[i].value)
  {
    hide ValueOf;
    if i > 0 {
      ValuesOfAt(c, es[1..], i - 1);
    }
  }

  lemma UniqueAt(c: Codec, n: Node, i: nat)
    requires n.Group? && Unique(c, n) && i < |n.entries|
    ensures Unique(c, n.entries[i].value)
    ensures n.obj ==> Distinct(Keys(c, n.entries))
  {
  }

  // ----- the map of an object's members -----

  lemma {:induction false} MapOfKeys(ks: seq<bytes>, vs: seq<Value>)
    requires |ks| == |vs|
    ensures forall k :: k in MapOf(ks, vs) <==> k in ks
  {
    if ks != [] {
      MapOfKeys(ks[..|ks| - 1], vs[..|vs| - 1]);
      assert ks == ks[..|ks| - 1] + [ks[|ks| - 1]];
    }
  }

  lemma {:induction false} MapOfAt(ks: seq<bytes>, vs: seq<Value>, i: nat)
    requires |ks| == |vs| && Distinct(ks) && i < |ks|
    ensures ks[i] in MapOf(ks, vs) && MapOf(ks, vs)[ks[i]] == vs[i]
  {
    if i < |ks| - 1 {
      MapOfAt(ks[..|ks| - 1], vs[..|vs| - 1], i);
    }
  }

  /** Distinct keys and their values decide the map, whatever its order. */
  lemma MapOfIs(ks: seq<bytes>, vs: seq<Value>, m: map<bytes, Value>)
    requires |ks| == |vs| && Distinct(ks)
    requires forall k :: k in m <==> k in ks
    requires forall i :: 0 <= i < |ks| ==> m[ks[i]] == vs[i]
    ensures MapOf(ks, vs) == m
  {
    hide MapOf;
    MapOfKeys(ks, vs);
    var m' := MapOf(ks, vs);
    forall k | k in m
      ensures k in m' && m'[k] == m[k]
    {
      var i :| 0 <= i < |ks| && ks[i] == k;
      MapOfAt(ks, vs, i);
    }
  }

  lemma {:induction false} DepthOfBound(es: seq<Entry>, k: nat)
    ensures DepthOf(es) <= k <==> forall i :: 0 <= i < |es| ==> Depth(es[i].value) <= k
  {
    hide Depth;
    if es != [] {
      DepthOfBound(es[1..], k);
      assert forall i :: 1 <= i < |es| ==> es[i] == es[1..][i - 1];
    }
  }

  lemma DepthOfNode(n: Node)
    ensures Depth(n) == if n.Leaf? then 0 else 1 + DepthOf(n.entries)
  {
    hide DepthOf;
  }

  lemma DictWithin(ks: seq<bytes>, vs: seq<Value>, k: nat)
    requires |ks| == |vs| && Distinct(ks)
    ensures NestsWithin(Dict(MapOf(ks, vs)), k) <==> k > 0 && forall i :: 0 <= i < |vs| ==> NestsWithin(vs[i], k - 1)
  {
    hide MapOf;
    var m := MapOf(ks, vs);
    MapOfKeys(ks, vs);
    forall i | 0 <= i < |ks|
      ensures ks[i] in m && m[ks[i]] == vs[i]
    {
      MapOfAt(ks, vs, i);
    }
    assert forall key :: key in m ==> exists i :: 0 <= i < |ks| && ks[i] == key;
  }

  /** How deep a value nests can be read off its text. */
  lemma {:induction false} DepthMatches(c: Codec, n: Node, k: nat)
    requires Unique(c, n)
    ensures Depth(n) <= k <==> NestsWithin(ValueOf(c, n), k)
    decreases n
  {
    hide ValueOf, ValuesOf, Depth, DepthOf, MapOf, Distinct, Keys;
    DepthOfNode(n);
    if n.Leaf? {
      assert ValueOf(c, n).Atom? by { LeafIsAtom(c, n); }
    } else {
      ValueOfGroup(c, n);
      var vs := ValuesOf(c, n.entries);
      if k > 0 {
        DepthOfBound(n.entries, k - 1);
        forall i | 0 <= i < |vs|
          ensures Depth(n.entries[i].value) <= k - 1 <==> NestsWithin(vs[i], k - 1)
        {
          ValuesOfAt(c, n.entries, i);
          DepthMatches(c, n.entries[i].value, k - 1);
        }
      }
      if n.obj {
        DictWithin(Keys(c, n.entries), vs, k);
      }
    }
  }

  lemma LeafIsAtom(c: Codec, n: Node)
    requires n.Leaf?
    ensures ValueOf(c, n).Atom?
  {
  }

  // ----- lookup -----

  /** The child of `v` that a reference token names. */
  function Child(v: Value, tok: bytes): Option<Value> {
    match v
    case Atom(_) => None
    case Dict(m) => if tok in m then Some(m[tok]) else None
    case List(xs) =>
      var i := Pointer.ParseIndex(tok);
      if i.Some? && i.value < |xs| then Some(xs[i.value]) else None
  }

  /** `v` with the child that `tok` names replaced by `x`. */
  function SetChild(v: Value, tok: bytes, x: Value): Value
    requires Child(v, tok).Some?
  {
    if v.Dict? then Dict(v.members[tok := x]) else List(v.items[Pointer.ParseIndex(tok).value := x])
  }

  function Resolve(v: Value, toks: seq<bytes>): Option<Value> {
    if toks == [] then Some(v)
    else
      var child := Child(v, toks[0]);
      if child.None? then None else Resolve(child.value, toks[1..])
  }

  // ----- RFC 6902 -----

  datatype Edit = Add(value: Value) | Remove | Replace(value: Value)

  /** Sections 4.1 to 4.3, at the container that holds the target. */
  function EditIn(v: Value, tok: bytes, e: Edit): Option<Value> {
    match e
    case Add(x) =>
      (match v
       case Atom(_) => None
       case Dict(m) => Some(Dict(m[tok := x]))
       case List(xs) =>
         var i := if tok == [DASH] then Some(|xs|) else Pointer.ParseIndex(tok);
         if i.Some? && i.value <= |xs| then Some(List(xs[..i.value] + [x] + xs[i.value..])) else None)
    case Remove =>
      if Child(v, tok).None? then None
      else if v.Dict? then Some(Dict(v.members - {tok}))
      else var i := Pointer.ParseIndex(tok).value; Some(List(v.items[..i] + v.items[i + 1..]))
    case Replace(x) =>
      if Child(v, tok).None? then None else Some(SetChild(v, tok, x))
  }

  /** An edit at the target that `toks` names, from the root of the document. */
  function Alter(v: Value, toks: seq<bytes>, e: Edit): Option<Value> {
    if toks == [] then
      if e.Remove? then None else Some(e.value)
    else if |toks| == 1 then EditIn(v, toks[0], e)
    else
      var child := Child(v, toks[0]);
      if child.None? then None
      else
        var child' := Alter(child.value, toks[1..], e);
        if child'.None? then None else Some(SetChild(v, toks[0], child'.value))
  }

  predicate ProperPrefix(a: seq<bytes>, b: seq<bytes>) {
    |a| < |b| && b[..|a|] == a
  }

  /**
    Section 4.4: the value at `from`, which must exist, is removed and added at `path`; a
    location cannot move into one of its children. Moving a value onto itself changes
    nothing, which for the root is the whole of its meaning.
   */
  function Move(v: Value, from: seq<bytes>, path: seq<bytes>): Option<Value> {
    var x := Resolve(v, from);
    if x.None? || ProperPrefix(from, path) then None
    else if from == path then Some(v)
    else
      var removed := Alter(v, from, Remove);
      if removed.None? then None else Alter(removed.value, path, Add(x.value))
  }

  /** Section 4.5. */
  function Copy(v: Value, from: seq<bytes>, path: seq<bytes>): Option<Value> {
    var x := Resolve(v, from);
    if x.None? then None else Alter(v, path, Add(x.value))
  }

  /** Section 4.6. */
  function Test(v: Value, path: seq<bytes>, x: Value): Option<Value> {
    if Resolve(v, path) == Some(x) then Some(v) else None
  }

  // ----- the reference operations hang together -----

  lemma ChildAfterSet(v: Value, tok: bytes, x: Value)
    requires Child(v, tok).Some?
    ensures Child(SetChild(v, tok, x), tok) == Some(x)
    ensures SetChild(SetChild(v, tok, x), tok, Child(v, tok).value) == v
  {
  }

  /**
    Removing a value and adding it back at the same location restores the document, which
    is why moving a value onto itself may be skipped.
   */
  lemma {:induction false} RemoveAddBack(v: Value, toks: seq<bytes>)
    requires toks != [] && Resolve(v, toks).Some?
    ensures Alter(v, toks, Remove).Some?
    ensures Alter(Alter(v, toks, Remove).value, toks, Add(Resolve(v, toks).value)) == Some(v)
  {
    var tok := toks[0];
    var child := Child(v, tok).value;
    if |toks| == 1 {
      if v.Dict? {
        assert (v.members - {tok})[tok := child] == v.members;
      } else {
        var i := Pointer.ParseIndex(tok).value;
        var xs := v.items[..i] + v.items[i + 1..];
        assert tok != [DASH];
        assert xs[..i] + [child] + xs[i..] == v.items;
      }
    } else {
      RemoveAddBack(child, toks[1..]);
      var child' := Alter(child, toks[1..], Remove).value;
      ChildAfterSet(v, tok, child');
    }
  }

  /** A replaced location holds the new value, and the old value put back restores the document. */
  lemma {:induction false} ReplaceThenResolve(v: Value, toks: seq<bytes>, x: Value)
    requires Resolve(v, toks).Some?
    ensures Alter(v, toks, Replace(x)).Some?
    ensures Resolve(Alter(v, toks, Replace(x)).value, toks) == Some(x)
    ensures Alter(Alter(v, toks, Replace(x)).value, toks, Replace(Resolve(v, toks).value)) == Some(v)
  {
    if toks != [] {
      var child := Child(v, toks[0]).value;
      if |toks| == 1 {
        ChildAfterSet(v, toks[0], x);
      } else {
        ReplaceThenResolve(child, toks[1..], x);
        ChildAfterSet(v, toks[0], Alter(child, toks[1..], Replace(x)).value);
      }
    }
  }

  /** The element after the one at `from` exists, and takes an add of that one at `rest`. */
  predicate NextTakes(v: Value, from: seq<bytes>, rest: seq<bytes>)
    requires from != []
  {
    if |from| > 1 then Child(v, from[0]).Some? && NextTakes(Child(v, from[0]).value, from[1..], rest)
    else
      var i := Pointer.ParseIndex(from[0]);
      v.List? && i.Some? && i.value + 1 < |v.items| && Alter(v.items[i.value + 1], rest, Add(v.items[i.value])).Some?
  }

  /**
    Removing a value and adding it below its old location goes through exactly when the
    value was an array element and the next element, which slid into its place, takes it.
   */
  lemma {:induction false} SlideInto(v: Value, from: seq<bytes>, rest: seq<bytes>)
    requires from != [] && rest != []
    ensures Resolve(v, from).Some? <==> Alter(v, from, Remove).Some?
    ensures NextTakes(v, from, rest) <==>
            Resolve(v, from).Some? && Alter(Alter(v, from, Remove).value, from + rest, Add(Resolve(v, from).value)).Some?
    decreases |from|
  {
    var tok := from[0];
    assert (from + rest)[0] == tok && (from + rest)[1..] == from[1..] + rest;
    if |from| == 1 {
      assert from[1..] + rest == rest;
      SlideHere(v, tok, rest);
      if Child(v, tok).Some? {
        AlterDown(EditIn(v, tok, Remove).value, from + rest, Add(Child(v, tok).value));
      }
    } else if Child(v, tok).Some? {
      var child := Child(v, tok).value;
      SlideInto(child, from[1..], rest);
      if Resolve(child, from[1..]).Some? {
        var child' := Alter(child, from[1..], Remove).value;
        ChildAfterSet(v, tok, child');
        AlterDown(SetChild(v, tok, child'), from + rest, Add(Resolve(v, from).value));
      }
    }
  }

  lemma AlterDown(v: Value, toks: seq<bytes>, e: Edit)
    requires |toks| > 1
    ensures Alter(v, toks, e).Some? <==> Child(v, toks[0]).Some? && Alter(Child(v, toks[0]).value, toks[1..], e).Some?
  {
  }

  lemma SlideHere(v: Value, tok: bytes, rest: seq<bytes>)
    requires rest != []
    ensures Child(v, tok).Some? ==>
              var removed := EditIn(v, tok, Remove).value;
              NextTakes(v, [tok], rest) <==>
              Child(removed, tok).Some? && Alter(Child(removed, tok).value, rest, Add(Child(v, tok).value)).Some?
    ensures Child(v, tok).None? ==> !NextTakes(v, [tok], rest)
  {
    hide Alter;
  }
}
