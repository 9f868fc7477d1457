/**
  What each operation of a patch does to a value, by name, read off the locations of the
  document before and after: sections 4.1 to 4.6 of RFC 6902 as laws on lookups.
 */
module Steps {
  import opened Bytes
  import opened Values
  import opened Pointer
  import opened Patch

  // ----- places -----

  /** Neither location contains the other. */
  predicate Apart(p: seq<bytes>, q: seq<bytes>) {
    !(p <= q) && !(q <= p)
  }

  /** Everything that is neither at, nor below, nor around `p` is as it was, present or absent. */
  ghost predicate Outside(v: Value, w: Value, p: seq<bytes>) {
    forall q {:trigger Resolve(w, q)} :: Apart(q, p) ==> Resolve(w, q) == Resolve(v, q)
  }

  /** `ys` is `xs` with `x` inserted before element `i`. */
  ghost predicate Inserted(xs: seq<Value>, ys: seq<Value>, i: nat, x: Value) {
    && i <= |xs| && |ys| == |xs| + 1 && ys[i] == x
    && (forall j :: 0 <= j < i ==> ys[j] == xs[j])
    && (forall j :: i <= j < |xs| ==> ys[j + 1] == xs[j])
  }

  function Init(p: seq<bytes>): seq<bytes>
    requires p != []
  {
    p[..|p| - 1]
  }

  function Last(p: seq<bytes>): bytes
    requires p != []
  {
    p[|p| - 1]
  }

  /** Where an element added at `tok` goes: the end for a dash, else the index, which may be one past the end. */
  function Slot(tok: bytes, length: nat): (i: Option<nat>)
    ensures i.Some? ==> i.value <= length
  {
    if tok == Ascii("-") then Some(length)
    else
      var i := ParseIndex(tok);
      if i.Some? && i.value <= length then i else None
  }

  /** The list at `init`, before and after, and where they differ by the one element `x`. */
  ghost predicate Grown(v: Value, w: Value, init: seq<bytes>, i: nat, x: Value) {
    && Resolve(v, init).Some? && Resolve(v, init).value.List?
    && Resolve(w, init).Some? && Resolve(w, init).value.List?
    && Inserted(Resolve(v, init).value.items, Resolve(w, init).value.items, i, x)
  }

  /** `x` can be added at `p`: the root, a member of an object, or a place in a list. */
  ghost predicate Takes(v: Value, p: seq<bytes>) {
    p != [] ==>
      var at := Resolve(v, Init(p));
      at.Some? && (at.value.Dict? || (at.value.List? && Slot(Last(p), |at.value.items|).Some?))
  }

  /** `w` is `v` with `x` added at `p`. */
  ghost predicate Added(v: Value, w: Value, p: seq<bytes>, x: Value) {
    if p == [] then w == x
    else
      && Takes(v, p)
      && var at := Resolve(v, Init(p)).value;
      if at.Dict? then Resolve(w, p) == Some(x) && Outside(v, w, p)
      else Grown(v, w, Init(p), Slot(Last(p), |at.items|).value, x) && Outside(v, w, Init(p))
  }

  /** `w` is `v` without what is at `p`. */
  ghost predicate Removed(v: Value, w: Value, p: seq<bytes>) {
    && p != [] && Resolve(v, p).Some? && Resolve(v, Init(p)).Some?
    && if Resolve(v, Init(p)).value.Dict? then Resolve(w, p) == None && Outside(v, w, p)
       else exists i :: Some(i) == ParseIndex(Last(p)) && Grown(w, v, Init(p), i, Resolve(v, p).value) && Outside(v, w, Init(p))
  }

  /** `w` is `v` with `x` in place of what is at `p`. */
  ghost predicate Replaced(v: Value, w: Value, p: seq<bytes>, x: Value) {
    Resolve(v, p).Some? && Resolve(w, p) == Some(x) && Outside(v, w, p)
  }

  /**
    What a location holds, one step at a time (section 4 of RFC 6901): the root, then a
    member by its key, or an element by its position written in decimal.
   */
  lemma StepsDown(v: Value, init: seq<bytes>, tok: bytes, i: nat)
    ensures Resolve(v, []) == Some(v)
    ensures Resolve(v, init).None? ==> Resolve(v, init + [tok]).None?
    ensures Resolve(v, init).Some? && Resolve(v, init).value.Atom? ==> Resolve(v, init + [tok]).None?
    ensures Resolve(v, init).Some? && Resolve(v, init).value.Dict? ==>
              var m := Resolve(v, init).value.members;
              Resolve(v, init + [tok]) == if tok in m then Some(m[tok]) else None
    ensures Resolve(v, init).Some? && Resolve(v, init).value.List? && i <= 18446744073709551615 ==>
              var xs := Resolve(v, init).value.items;
              Resolve(v, init + [Decimal(i)]) == if i < |xs| then Some(xs[i]) else None
    ensures Resolve(v, init).Some? && Resolve(v, init).value.List? && (forall k: nat :: tok != Decimal(k)) ==>
              Resolve(v, init + [tok]).None?
  {
    hide Resolve, Decimal, ParseIndex;
    AtRoot();
    assert (init + [tok])[..|init|] == init && (init + [Decimal(i)])[..|init|] == init;
    LastStep(v, init + [tok]);
    LastStep(v, init + [Decimal(i)]);
    IndexIsDecimal(Decimal(i), i);
    if ParseIndex(tok).Some? {
      IndexIsDecimal(tok, ParseIndex(tok).value);
    }
  }

  // ----- the tree edits -----

  lemma {:induction false} ParentOf(v: Value, p: seq<bytes>, e: Edit)
    requires p != []
    ensures Alter(v, p, e).Some? <==> Resolve(v, Init(p)).Some? && EditIn(Resolve(v, Init(p)).value, Last(p), e).Some?
    ensures Alter(v, p, e).Some? ==> Resolve(Alter(v, p, e).value, Init(p)) == EditIn(Resolve(v, Init(p)).value, Last(p), e)
    decreases |p|
  {
    hide EditIn;
    if |p| == 1 {
      assert Init(p) == [];
    } else {
      assert Init(p)[0] == p[0] && Init(p)[1..] == Init(p[1..]) && Last(p[1..]) == Last(p);
      if Child(v, p[0]).Some? {
        ParentOf(Child(v, p[0]).value, p[1..], e);
        if Alter(v, p, e).Some? {
          ChildAfterSet(v, p[0], Alter(Child(v, p[0]).value, p[1..], e).value);
        }
      }
    }
  }

  /** Setting one child leaves the others. */
  lemma OtherChild(v: Value, tok: bytes, other: bytes, x: Value)
    requires Child(v, tok).Some? && tok != other
    ensures Child(SetChild(v, tok, x), other) == Child(v, other)
  {
    hide ParseIndex;
    if v.List? && ParseIndex(other).Some? {
      IndexIsDecimal(tok, ParseIndex(tok).value);
      IndexIsDecimal(other, ParseIndex(other).value);
    }
  }

  /** An edit changes nothing away from the container it edits. */
  lemma {:induction false} AwayFrom(v: Value, p: seq<bytes>, e: Edit, q: seq<bytes>)
    requires p != [] && Alter(v, p, e).Some? && Apart(q, Init(p))
    ensures Resolve(Alter(v, p, e).value, q) == Resolve(v, q)
    decreases |p|
  {
    hide EditIn, Child, SetChild;
    assert |p| > 1 && q != [];
    var child := Child(v, p[0]).value;
    var child' := Alter(child, p[1..], e).value;
    if q[0] == p[0] {
      assert Init(p) == [p[0]] + Init(p[1..]) && q == [q[0]] + q[1..];
      AwayFrom(child, p[1..], e, q[1..]);
      ChildAfterSet(v, p[0], child');
    } else {
      OtherChild(v, p[0], q[0], child');
    }
  }

  /** In an object the other members are left too. */
  lemma BesideMember(v: Value, p: seq<bytes>, e: Edit, q: seq<bytes>)
    requires p != [] && Alter(v, p, e).Some? && Apart(q, p)
    requires Resolve(v, Init(p)).Some? && EditIn(Resolve(v, Init(p)).value, Last(p), e).Some?
    requires forall tok :: tok != Last(p) ==>
               Child(EditIn(Resolve(v, Init(p)).value, Last(p), e).value, tok) == Child(Resolve(v, Init(p)).value, tok)
    ensures Resolve(Alter(v, p, e).value, q) == Resolve(v, q)
  {
    hide EditIn, Child, Alter, Resolve;
    ParentOf(v, p, e);
    var init, w := Init(p), Alter(v, p, e).value;
    assert p == init + [Last(p)];
    if Apart(q, init) {
      AwayFrom(v, p, e, q);
    } else {
      assert init <= q && |q| > |init|;
      var tok, rest := q[|init|], q[|init| + 1..];
      assert q == init + [tok] + rest;
      assert tok != Last(p);
      Through(v, init, tok, rest);
      Through(w, init, tok, rest);
    }
  }

  lemma {:induction false} Through(v: Value, init: seq<bytes>, tok: bytes, rest: seq<bytes>)
    ensures Resolve(v, init + [tok] + rest) ==
            if Resolve(v, init).None? || Child(Resolve(v, init).value, tok).None? then None
            else Resolve(Child(Resolve(v, init).value, tok).value, rest)
    decreases |init|
  {
    hide Child;
    var q := init + [tok] + rest;
    if init == [] {
      assert q[0] == tok && q[1..] == rest;
    } else {
      assert q[0] == init[0] && q[1..] == init[1..] + [tok] + rest;
      if Child(v, init[0]).Some? {
        Through(Child(v, init[0]).value, init[1..], tok, rest);
      }
    }
  }

  lemma LastStep(v: Value, p: seq<bytes>)
    requires p != []
    ensures Resolve(v, p) ==
            if Resolve(v, Init(p)).None? then None else Child(Resolve(v, Init(p)).value, Last(p))
  {
    hide Child, Resolve;
    assert p == Init(p) + [Last(p)] + [];
    Through(v, Init(p), Last(p), []);
    assert forall u :: Resolve(u, []) == Some(u) by { AtRoot(); }
  }

  lemma AtRoot()
    ensures forall u :: Resolve(u, []) == Some(u)
  {
  }

  // ----- add, replace, remove -----

  lemma AddHere(v: Value, tok: bytes, x: Value)
    ensures EditIn(v, tok, Add(x)).Some? <==> v.Dict? || (v.List? && Slot(tok, |v.items|).Some?)
    ensures v.Dict? ==>
              && EditIn(v, tok, Add(x)).value.Dict? && Child(EditIn(v, tok, Add(x)).value, tok) == Some(x)
              && forall t :: t != tok ==> Child(EditIn(v, tok, Add(x)).value, t) == Child(v, t)
    ensures v.List? && Slot(tok, |v.items|).Some? ==>
              && EditIn(v, tok, Add(x)).value.List?
              && Inserted(v.items, EditIn(v, tok, Add(x)).value.items, Slot(tok, |v.items|).value, x)
  {
    hide ParseIndex;
    assert Ascii("-") == [DASH];
  }

  /** An add goes through exactly where the location takes a value, and puts it there. */
  lemma AddLaw(v: Value, p: seq<bytes>, x: Value)
    ensures Alter(v, p, Add(x)).Some? <==> Takes(v, p)
    ensures Alter(v, p, Add(x)).Some? ==> Added(v, Alter(v, p, Add(x)).value, p, x)
  {
    hide EditIn, Resolve, Child, Slot, Inserted;
    if p == [] {
      AlterRoot(v, x);
    } else {
      hide Alter;
      ParentOf(v, p, Add(x));
      if Resolve(v, Init(p)).Some? {
        AddHere(Resolve(v, Init(p)).value, Last(p), x);
      }
      if Alter(v, p, Add(x)).Some? {
        var w := Alter(v, p, Add(x)).value;
        LastStep(w, p);
        if Resolve(v, Init(p)).value.Dict? {
          forall q | Apart(q, p)
            ensures Resolve(w, q) == Resolve(v, q)
          {
            BesideMember(v, p, Add(x), q);
          }
        } else {
          forall q | Apart(q, Init(p))
            ensures Resolve(w, q) == Resolve(v, q)
          {
            AwayFrom(v, p, Add(x), q);
          }
        }
      }
    }
  }

  lemma ReplaceHere(v: Value, tok: bytes, x: Value)
    ensures EditIn(v, tok, Replace(x)).Some? <==> Child(v, tok).Some?
    ensures Child(v, tok).Some? ==>
              && Child(EditIn(v, tok, Replace(x)).value, tok) == Some(x)
              && forall t :: t != tok ==> Child(EditIn(v, tok, Replace(x)).value, t) == Child(v, t)
  {
    hide Child, SetChild;
    if Child(v, tok).Some? {
      ChildAfterSet(v, tok, x);
      forall t | t != tok
        ensures Child(SetChild(v, tok, x), t) == Child(v, t)
      {
        OtherChild(v, tok, t, x);
      }
    }
  }

  /** A replace goes through exactly where there is a value, and puts the new one in its place. */
  lemma ReplaceLaw(v: Value, p: seq<bytes>, x: Value)
    ensures Alter(v, p, Replace(x)).Some? <==> Resolve(v, p).Some?
    ensures Alter(v, p, Replace(x)).Some? ==> Replaced(v, Alter(v, p, Replace(x)).value, p, x)
  {
    hide EditIn, Child;
    if p != [] {
      hide Alter, Resolve;
      ParentOf(v, p, Replace(x));
      LastStep(v, p);
      if Resolve(v, Init(p)).Some? {
        ReplaceHere(Resolve(v, Init(p)).value, Last(p), x);
      }
      if Alter(v, p, Replace(x)).Some? {
        var w := Alter(v, p, Replace(x)).value;
        LastStep(w, p);
        forall q | Apart(q, p)
          ensures Resolve(w, q) == Resolve(v, q)
        {
          BesideMember(v, p, Replace(x), q);
        }
      }
    }
  }

  lemma RemoveHere(v: Value, tok: bytes)
    ensures EditIn(v, tok, Remove).Some? <==> Child(v, tok).Some?
    ensures Child(v, tok).Some? && v.Dict? ==>
              && EditIn(v, tok, Remove).value.Dict? && Child(EditIn(v, tok, Remove).value, tok) == None
              && forall t :: t != tok ==> Child(EditIn(v, tok, Remove).value, t) == Child(v, t)
    ensures Child(v, tok).Some? && !v.Dict? ==>
              && v.List? && EditIn(v, tok, Remove).value.List? && ParseIndex(tok).Some?
              && Inserted(EditIn(v, tok, Remove).value.items, v.items, ParseIndex(tok).value, Child(v, tok).value)
  {
    hide ParseIndex;
  }

  /** A remove goes through exactly where there is a value below the root, and takes only it. */
  lemma RemoveLaw(v: Value, p: seq<bytes>)
    ensures Alter(v, p, Remove).Some? <==> p != [] && Resolve(v, p).Some?
    ensures Alter(v, p, Remove).Some? ==> Removed(v, Alter(v, p, Remove).value, p)
  {
    hide EditIn, Child, Inserted, ParseIndex;
    if p != [] {
      hide Alter, Resolve;
      ParentOf(v, p, Remove);
      LastStep(v, p);
      if Resolve(v, Init(p)).Some? {
        RemoveHere(Resolve(v, Init(p)).value, Last(p));
      }
      if Alter(v, p, Remove).Some? {
        var w := Alter(v, p, Remove).value;
        LastStep(w, p);
        if Resolve(v, Init(p)).value.Dict? {
          forall q | Apart(q, p)
            ensures Resolve(w, q) == Resolve(v, q)
          {
            BesideMember(v, p, Remove, q);
          }
        } else {
          forall q | Apart(q, Init(p))
            ensures Resolve(w, q) == Resolve(v, q)
          {
            AwayFrom(v, p, Remove, q);
          }
          assert Grown(w, v, Init(p), ParseIndex(Last(p)).value, Resolve(v, p).value);
        }
      }
    }
  }

  // ----- operations by name -----

  function PathOf(op: OpHash): Option<seq<bytes>> {
    if op.Hash? && StrField(op.path).Ok? then Tokens(StrField(op.path).value) else None
  }

  function FromOf(op: OpHash): Option<seq<bytes>> {
    if op.Hash? && StrField(op.from).Ok? then Tokens(StrField(op.from).value) else None
  }

  /** `add`: goes through iff the value has a text and the location takes one, and puts it there. */
  lemma AddStep(v: Value, op: OpHash)
    requires Named(op, "add")
    ensures NativeStep(v, op).Some? <==>
            op.value.Some? && op.value.value.text.Some? && PathOf(op).Some? && Takes(v, PathOf(op).value)
    ensures NativeStep(v, op).Some? ==> Added(v, NativeStep(v, op).value, PathOf(op).value, op.value.value.value)
    ensures RfcStep(v, op) == if ProperPointers(op) then NativeStep(v, op) else None
  {
    hide Tokens, Alter, Takes, Added, Resolve, WellEscaped;
    if op.value.Some? && PathOf(op).Some? {
      AddLaw(v, PathOf(op).value, op.value.value.value);
    }
  }

  /** `replace`: goes through iff the value has a text and something is there, and takes its place. */
  lemma ReplaceStep(v: Value, op: OpHash)
    requires Named(op, "replace")
    ensures NativeStep(v, op).Some? <==>
            op.value.Some? && op.value.value.text.Some? && PathOf(op).Some? && Resolve(v, PathOf(op).value).Some?
    ensures NativeStep(v, op).Some? ==> Replaced(v, NativeStep(v, op).value, PathOf(op).value, op.value.value.value)
    ensures RfcStep(v, op) == if ProperPointers(op) then NativeStep(v, op) else None
  {
    hide Tokens, Alter, Replaced, Resolve, WellEscaped;
    if op.value.Some? && PathOf(op).Some? {
      ReplaceLaw(v, PathOf(op).value, op.value.value.value);
    }
  }

  /** `remove`: goes through iff something is there below the root, and only that goes. */
  lemma RemoveStep(v: Value, op: OpHash)
    requires Named(op, "remove")
    ensures NativeStep(v, op).Some? <==>
            PathOf(op).Some? && PathOf(op).value != [] && Resolve(v, PathOf(op).value).Some?
    ensures NativeStep(v, op).Some? ==> Removed(v, NativeStep(v, op).value, PathOf(op).value)
    ensures RfcStep(v, op) == if ProperPointers(op) then NativeStep(v, op) else None
  {
    hide Tokens, Alter, Removed, Resolve, WellEscaped;
    if PathOf(op).Some? {
      RemoveLaw(v, PathOf(op).value);
    }
  }

  /** `copy`: goes through iff something is at `from` and `path` takes a value; that value is then at both. */
  lemma CopyStep(v: Value, op: OpHash)
    requires Named(op, "copy")
    ensures NativeStep(v, op).Some? <==>
            FromOf(op).Some? && PathOf(op).Some? && Resolve(v, FromOf(op).value).Some? && Takes(v, PathOf(op).value)
    ensures NativeStep(v, op).Some? ==>
              Added(v, NativeStep(v, op).value, PathOf(op).value, Resolve(v, FromOf(op).value).value)
    ensures RfcStep(v, op) == if ProperPointers(op) then NativeStep(v, op) else None
  {
    hide Tokens, Alter, Takes, Added, Resolve, WellEscaped;
    if FromOf(op).Some? && PathOf(op).Some? && Resolve(v, FromOf(op).value).Some? {
      AddLaw(v, PathOf(op).value, Resolve(v, FromOf(op).value).value);
    }
  }

  /**
    `move`: nothing happens for equal pointers; else what is at `from` is taken out first and
    then added at `path` to what is left.
   */
  lemma MoveStep(v: Value, op: OpHash) returns (left: Value)
    requires HasFrom(op, "move")
    ensures op.path == op.from ==> NativeStep(v, op) == Some(v)
    ensures FromOf(op).None? || PathOf(op).None? ==> (op.path != op.from ==> NativeStep(v, op) == None) && RfcStep(v, op) == None
    ensures FromOf(op).Some? && PathOf(op).Some? ==> MovesBoth(v, op, left)
  {
    hide Tokens, Alter, Takes, Added, Removed, Resolve, WellEscaped;
    left := v;
    if FromOf(op).Some? && PathOf(op).Some? {
      left := MovePair(v, op);
    }
  }

  /** The part of `move` where both pointers are well formed. */
  ghost predicate MovesBoth(v: Value, op: OpHash, left: Value)
    requires HasFrom(op, "move") && FromOf(op).Some? && PathOf(op).Some?
  {
    var from, path := FromOf(op).value, PathOf(op).value;
    && (from != [] && Resolve(v, from).Some? ==> Removed(v, left, from))
    && (op.path != op.from ==>
          && (NativeStep(v, op).Some? <==>
                && !TextBelow(StrField(op.from).value, StrField(op.path).value)
                && from != [] && Resolve(v, from).Some? && Takes(left, path))
          && (NativeStep(v, op).Some? ==> Added(left, NativeStep(v, op).value, path, Resolve(v, from).value)))
    && (RfcStep(v, op).Some? <==>
          && ProperPointers(op) && Resolve(v, from).Some?
          && (path == from || (!(from <= path) && Takes(left, path))))
    && (RfcStep(v, op).Some? ==>
          if path == from then RfcStep(v, op).value == v
          else Added(left, RfcStep(v, op).value, path, Resolve(v, from).value))
  }

  lemma MovePair(v: Value, op: OpHash) returns (left: Value)
    requires HasFrom(op, "move") && FromOf(op).Some? && PathOf(op).Some?
    ensures MovesBoth(v, op, left)
  {
    hide Tokens, Alter, Takes, Added, Removed, Resolve, WellEscaped;
    var from, path := FromOf(op).value, PathOf(op).value;
    RemoveLaw(v, from);
    left := if Alter(v, from, Remove).Some? then Alter(v, from, Remove).value else v;
    if Resolve(v, from).Some? {
      AddLaw(left, path, Resolve(v, from).value);
    }
  }

  /** `test`: goes through iff the value is there and nests at most 100 deep, and changes nothing. */
  lemma TestStep(v: Value, op: OpHash)
    requires Named(op, "test")
    ensures NativeStep(v, op).Some? <==>
            op.value.Some? && PathOf(op).Some? && Resolve(v, PathOf(op).value) == Some(op.value.value.value)
            && NestsWithin(op.value.value.value, 100)
    ensures NativeStep(v, op).Some? ==> NativeStep(v, op) == Some(v)
    ensures RfcStep(v, op).Some? <==>
            op.value.Some? && PathOf(op).Some? && Resolve(v, PathOf(op).value) == Some(op.value.value.value) && ProperPointers(op)
    ensures RfcStep(v, op).Some? ==> RfcStep(v, op) == Some(v)
  {
    hide Tokens, Resolve, WellEscaped, NestsWithin;
  }

  /** What is no operation with a name, a path and the fields it needs fails. */
  lemma OtherStep(v: Value, op: OpHash)
    requires !Named(op, "add") && !Named(op, "replace") && !Named(op, "remove") && !Named(op, "copy")
             && !Named(op, "test") && !HasFrom(op, "move")
    ensures NativeStep(v, op) == None && RfcStep(v, op) == None
  {
    hide Tokens, Resolve, WellEscaped, NestsWithin, Alter;
  }
}
