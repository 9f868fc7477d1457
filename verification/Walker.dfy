/** The emitter with its fast paths: ext/nosj/src/gen/walker.rs. */
module Walker {
  import opened Bytes
  import opened KeyCaches
  import opened Printer

  /** Reservation ceiling per numeric run, in elements. */
  const RUN_CHUNK: nat := 4096

  // ----- duplicate keys -----

  /** The cheap trigger of the duplicate-key check, per hash. */
  class MixedKeys {
    var first: Option<KeyKind>
    /** Checked already, or repeats allowed: nothing left to do. */
    var done: bool

    constructor (allowDuplicateKey: bool)
      ensures first == None && done == allowDuplicateKey
    {
      first, done := None, allowDuplicateKey;
    }

    method NeedsCheck(kind: KeyKind) returns (needed: bool)
      modifies this
      ensures first == if old(first).None? then Some(kind) else old(first)
      ensures needed <==> old(first).Some? && old(first).value != kind && kind != OtherKind && !old(done)
      ensures done == (old(done) || needed)
    {
      if first.None? {
        first := Some(kind);
        return false;
      }
      if first.value == kind || done || kind == OtherKind {
        return false;
      }
      done := true;
      needed := true;
    }
  }

  /** The full check: every key's text, until one repeats. */
  method CheckDuplicateKeys(ps: seq<Pair>) returns (repeated: bool)
    ensures repeated <==> KeysRepeat(ps)
  {
    var seen: set<bytes> := {};
    for i := 0 to |ps|
      invariant forall k :: k in seen <==> exists j :: 0 <= j < i && ps[j].key.text == k
      invariant forall j, k :: 0 <= j < k < i ==> ps[j].key.text != ps[k].key.text
    {
      if ps[i].key.text in seen {
        return true;
      }
      seen := seen + {ps[i].key.text};
    }
    repeated := false;
  }

  // ----- numeric runs -----

  /** Elements a run takes: immediate integers and finite immediate floats. */
  predicate InRun(v: Value) {
    v.Fixnum? || (v.Flonum? && v.f.Finite?)
  }

  function NumericText(v: Value): bytes
    requires InRun(v)
  {
    if v.Fixnum? then IntText(v.i) else v.f.text
  }

  /** The texts of elements `i` to `k`, joined by commas. */
  function RunText(xs: seq<Value>, i: nat, k: nat): bytes
    requires i <= k <= |xs| && forall j :: i <= j < k ==> InRun(xs[j])
  {
    if i == k then []
    else RunText(xs, i, k - 1) + (if k - 1 > i then [COMMA] else []) + NumericText(xs[k - 1])
  }

  lemma PrependTwice(a: bytes, b: bytes, r: Result<bytes, GenFail>)
    ensures Prepend(a, Prepend(b, r)) == Prepend(a + b, r)
  {
    if r.Ok? {
      assert a + (b + r.value) == a + b + r.value;
    }
  }

  lemma RunPlain(g: Config, v: Value, depth: nat)
    requires InRun(v)
    ensures Plain(g, v, depth) == Ok(NumericText(v))
  {
    hide IntText;
    PlainScalar(g, v, depth);
  }

  lemma CompactLead(g: Config, i: nat, inner: nat)
    requires NoFormat(g)
    ensures ItemLead(g, i, inner) == if i > 0 then [COMMA] else []
  {
    NoIndent(g, inner);
  }

  lemma {:induction false} NoIndent(g: Config, n: nat)
    requires g.indent == []
    ensures Indent(g, n) == []
  {
    if n > 0 {
      NoIndent(g, n - 1);
    }
  }

  /** A run's text, after the separator of its first element, is that of its elements in the reference. */
  lemma {:induction false} RunItems(g: Config, xs: seq<Value>, i: nat, k: nat, inner: nat)
    requires NoFormat(g) && i < k <= |xs| && forall j :: i <= j < k ==> InRun(xs[j])
    ensures PlainItems(g, xs, i, inner) == Prepend(ItemLead(g, i, inner) + RunText(xs, i, k), PlainItems(g, xs, k, inner))
    decreases k
  {
    hide Plain, PlainItems, ItemLead, NumericText, Prepend, Indent;
    PlainItemsStep(g, xs, k - 1, inner);
    RunPlain(g, xs[k - 1], inner);
    if k == i + 1 {
      assert RunText(xs, i, k) == NumericText(xs[i]) by { RunOne(xs, i); }
    } else {
      RunItems(g, xs, i, k - 1, inner);
      CompactLead(g, k - 1, inner);
      var lead, done, last := ItemLead(g, i, inner), RunText(xs, i, k - 1), [COMMA] + NumericText(xs[k - 1]);
      PrependTwice(lead + done, last, PlainItems(g, xs, k, inner));
      assert lead + done + last == lead + RunText(xs, i, k);
    }
  }

  lemma RunOne(xs: seq<Value>, i: nat)
    requires i < |xs| && InRun(xs[i])
    ensures RunText(xs, i, i + 1) == NumericText(xs[i])
  {
    assert RunText(xs, i, i) == [];
  }

  lemma RunMore(xs: seq<Value>, i: nat, k: nat)
    requires i <= k < |xs| && forall j :: i <= j <= k ==> InRun(xs[j])
    ensures RunText(xs, i, k + 1) == RunText(xs, i, k) + (if k > i then [COMMA] else []) + NumericText(xs[k])
  {
    hide NumericText;
  }

  lemma NumericBound(v: Value, max: nat)
    requires InRun(v) && Native(v, max)
    ensures |NumericText(v)| <= max
  {
    hide IntText;
  }

  lemma RunNone(xs: seq<Value>, i: nat)
    requires i <= |xs|
    ensures RunText(xs, i, i) == []
  {
  }

  lemma MoreRoom(a: nat, b: nat, size: nat)
    requires a <= b
    ensures a * size <= b * size
  {
  }

  lemma MoreRoomByOne(a: nat, size: nat)
    ensures (a + 1) * size == a * size + size
  {
  }

  // ----- results, piece by piece -----

  lemma PrependNothing(r: Result<bytes, GenFail>)
    ensures Prepend([], r) == r
  {
    if r.Ok? {
      assert [] + r.value == r.value;
    }
  }

  lemma PrependOk(t: bytes, r: Result<bytes, GenFail>)
    requires r.Ok?
    ensures Prepend(t, r) == Ok(t + r.value)
  {
  }

  lemma PrependFails(t: bytes, r: Result<bytes, GenFail>)
    requires r.Err?
    ensures Prepend(t, r) == r
  {
  }

  lemma EnclosedFails(open: bytes, r: Result<bytes, GenFail>, close: bytes)
    requires r.Err?
    ensures Append(Prepend(open, r), close) == r
  {
  }

  lemma AllDone(open: bytes, done: bytes, close: bytes)
    ensures Append(Prepend(open, Prepend(done, Ok([]))), close) == Ok(open + done + close)
  {
    assert done + [] == done;
  }

  /** What the separator writes amount to, in either mode. */
  lemma LeadIs(g: Config, i: nat, inner: nat, pretty: bool)
    requires pretty || NoFormat(g)
    ensures ItemLead(g, i, inner) == (if i > 0 then [COMMA] else []) + (if pretty then g.arrayNl + Indent(g, inner) else [])
  {
    if !pretty {
      CompactLead(g, i, inner);
    }
  }

  lemma CloseIs(g: Config, nl: bytes, depth: nat, pretty: bool)
    requires pretty || nl == []
    ensures CloseText(g, nl, depth) == if pretty && nl != [] then nl + Indent(g, depth) else []
  {
  }

  lemma PairLeadIs(g: Config, k: Key, i: nat, inner: nat, pretty: bool)
    requires pretty || NoFormat(g)
    ensures pretty ==> PairLead(g, k, i, inner) ==
                       (if i > 0 then [COMMA] else []) + g.objectNl + Indent(g, inner) + QuotedText(g, k.text)
                       + g.spaceBefore + [COLON] + g.space
    ensures !pretty ==> PairLead(g, k, i, inner) == (if i > 0 then [COMMA] else []) + QuotedText(g, k.text) + [COLON]
  {
    hide QuotedText;
    if !pretty {
      NoIndent(g, inner);
      var comma: bytes := if i > 0 then [COMMA] else [];
      assert comma + [] + [] + QuotedText(g, k.text) + [] + [COLON] + [] == comma + QuotedText(g, k.text) + [COLON];
    }
  }

  /** The parts of a container are as native and alive as the whole. */
  lemma Inside(v: Value, max: nat, heap: map<Id, bytes>)
    requires Native(v, max) && KeysLive(v, heap)
    ensures v.Array? ==> forall i :: 0 <= i < |v.items| ==> Native(v.items[i], max) && KeysLive(v.items[i], heap)
    ensures v.Hash? ==> forall i :: 0 <= i < |v.pairs| ==>
                          && Native(v.pairs[i].value, max) && KeysLive(v.pairs[i].value, heap)
                          && KeyLive(v.pairs[i].key, heap)
  {
  }

  // ----- identities -----

  /** Every frozen String key in the tree is the string living at its address. */
  ghost predicate KeysLive(v: Value, heap: map<Id, bytes>)
    decreases v
  {
    match v
    case Array(xs) => forall i :: 0 <= i < |xs| ==> KeysLive(xs[i], heap)
    case Hash(ps) => forall i :: 0 <= i < |ps| ==> KeyLive(ps[i].key, heap) && KeysLive(ps[i].value, heap)
    case _ => true
  }

  ghost predicate KeyLive(k: Key, heap: map<Id, bytes>) {
    k.StrKey? && k.frozen ==> k.id in heap && heap[k.id] == k.text
  }

  class Gen {
    var out: bytes
    var fail: Option<GenFail>
    const g: Config
    const keys: GenKeyCache
    /** The longest float or integer the kernels write. */
    const numberMax: nat
    /** The strings at each address, and the mode the cache's bytes were escaped under. */
    ghost const heap: map<Id, bytes>
    ghost const cacheMode: EscapeMode

    constructor (out: bytes, g: Config, keys: GenKeyCache, numberMax: nat, ghost heap: map<Id, bytes>, ghost cacheMode: EscapeMode)
      ensures this.out == out && fail == None && this.g == g && this.keys == keys
      ensures this.numberMax == numberMax && this.heap == heap && this.cacheMode == cacheMode
    {
      this.out, this.g, this.keys, this.numberMax := out, g, keys, numberMax;
      this.heap, this.cacheMode := heap, cacheMode;
      fail := None;
    }

    /** A cached key has the bytes its string is quoted and escaped to, under the mode in use if that may cache. */
    ghost predicate CacheOk()
      reads keys
    {
      (ModeCacheable(g.mode) ==> g.mode == cacheMode) && CacheHolds(keys, g.escape, cacheMode, heap)
    }

    /** `ok` and the new state are what the reference result says. */
    ghost predicate Did(r: Result<bytes, GenFail>, before: bytes, ok: bool)
      reads this
    {
      && ok == r.Ok?
      && (ok ==> out == before + r.value && fail == None)
      && (!ok ==> fail == Some(r.error))
    }

    method PushIndent(n: nat)
      modifies this`out
      ensures out == old(out) + Indent(g, n)
    {
      assert Indent(g, 0) == [];
      for i := 0 to n
        invariant out == old(out) + Indent(g, i)
      {
        out := out + g.indent;
      }
    }

    method EmitQuoted(s: bytes)
      modifies this`out
      ensures out == old(out) + QuotedText(g, s)
    {
      out := out + [QUOTE];
      out := out + g.escape(g.mode, s);
      out := out + [QUOTE];
    }

    method EmitFloat(f: Float) returns (ok: bool)
      requires fail == None
      modifies this`out, this`fail
      ensures Did(FloatText(g, f), old(out), ok)
    {
      if f.Finite? {
        out := out + f.text;
        return true;
      }
      if g.rails {
        out := out + NULL_TEXT;
        return true;
      }
      var name := if f.NotANumber? then NAN_TEXT else if !f.negative then INFINITY_TEXT else [DASH] + INFINITY_TEXT;
      if g.allowNan {
        out := out + name;
        return true;
      }
      fail := Some(NotAllowed(f));
      ok := false;
    }

    /** The pre-escaped bytes for `k` when the cache may serve it. */
    function CachedKey(k: Key): Option<bytes>
      reads this, keys
    {
      if k.StrKey? && ModeCacheable(g.mode) && k.frozen then keys.Get(k.id) else None
    }

    lemma CachedIsQuoted(k: Key)
      requires CacheOk() && KeyLive(k, heap) && CachedKey(k).Some?
      ensures CachedKey(k).value == QuotedText(g, k.text)
    {
    }

    /** A String key, through the cache when it is frozen and the mode cacheable. */
    method EmitKeyCached(k: Key)
      requires k.StrKey? && CacheOk() && KeyLive(k, heap)
      modifies this`out, keys
      ensures CacheOk()
      ensures out == old(out) + QuotedText(g, k.text)
      ensures k.frozen && ModeCacheable(g.mode) ==>
                forall live :: keys.State() == Next(World(heap, live, old(keys.State())), Emit(k.id), g.escape, g.mode).cache
      ensures !(k.frozen && ModeCacheable(g.mode)) ==> keys.State() == old(keys.State())
    {
      if !k.frozen || !ModeCacheable(g.mode) {
        EmitQuoted(k.text);
        return;
      }
      var hit := keys.Get(k.id);
      if hit.Some? {
        out := out + hit.value;
        return;
      }
      var start := |out|;
      EmitQuoted(k.text);
      assert out[start..] == QuotedText(g, k.text);
      StoredBalanced(keys.State(), k.id, out[start..]);
      keys.Store(k.id, out[start..]);
    }

    method EmitKey(k: Key)
      requires CacheOk() && KeyLive(k, heap)
      modifies this`out, keys
      ensures CacheOk()
      ensures out == old(out) + QuotedText(g, k.text)
    {
      hide CacheOk, CacheHolds, QuotedText, KeyLive;
      if k.StrKey? {
        EmitKeyCached(k);
      } else {
        EmitQuoted(k.text);
      }
    }

    /** Fused `,"key":` for compact pairs. */
    method EmitPairPrefixCompact(k: Key, comma: bool)
      requires CacheOk() && KeyLive(k, heap)
      modifies this`out, keys
      ensures CacheOk()
      ensures out == old(out) + ((if comma then [COMMA] else []) + QuotedText(g, k.text) + [COLON])
    {
      hide CacheOk, CacheHolds, QuotedText, KeyLive;
      var cached := CachedKey(k);
      if cached.Some? {
        CachedIsQuoted(k);
        var fused: bytes := [];
        if comma {
          fused := [COMMA];
        }
        fused := fused + cached.value;
        fused := fused + [COLON];
        out := out + fused;
        return;
      }
      if comma {
        out := out + [COMMA];
      }
      EmitKey(k);
      out := out + [COLON];
    }

    /** Fused `,"key":123` for compact pairs with an integer. */
    method EmitPairIntCompact(k: Key, comma: bool, value: int)
      requires CacheOk() && KeyLive(k, heap)
      modifies this`out, keys
      ensures CacheOk()
      ensures out == old(out) + ((if comma then [COMMA] else []) + QuotedText(g, k.text) + [COLON] + IntText(value))
    {
      hide CacheOk, CacheHolds, QuotedText, KeyLive;
      var cached := CachedKey(k);
      if cached.Some? {
        CachedIsQuoted(k);
        var fused: bytes := [];
        if comma {
          fused := [COMMA];
        }
        fused := fused + cached.value;
        fused := fused + [COLON];
        fused := fused + IntText(value);
        out := out + fused;
        return;
      }
      EmitPairPrefixCompact(k, comma);
      out := out + IntText(value);
    }

    /**
      One run of numbers from element `i`, under one reservation: commas only between the
      run's own elements, and never more bytes than were reserved.
     */
    method NumericRun(xs: seq<Value>, i: nat) returns (k: nat)
      requires i < |xs| && forall j :: 0 <= j < |xs| ==> Native(xs[j], numberMax)
      modifies this`out
      ensures i <= k <= |xs| && forall j :: i <= j < k ==> InRun(xs[j])
      ensures out == old(out) + RunText(xs, i, k)
      ensures var chunk := if |xs| - i <= RUN_CHUNK then |xs| - i else RUN_CHUNK;
              |out| <= |old(out)| + chunk * (numberMax + 1)
      ensures k == i ==> !InRun(xs[i])
    {
      hide NumericText, RunText, Native;
      var chunk := if |xs| - i <= RUN_CHUNK then |xs| - i else RUN_CHUNK;
      var chunkEnd := i + chunk;
      k := i;
      var first := true;
      assert RunText(xs, i, i) == [] by { RunNone(xs, i); }
      while k < chunkEnd
        invariant i <= k <= chunkEnd && first == (k == i)
        invariant forall j :: i <= j < k ==> InRun(xs[j])
        invariant out == old(out) + RunText(xs, i, k)
        invariant |out| <= |old(out)| + (k - i) * (numberMax + 1)
      {
        var e := xs[k];
        if !InRun(e) {
          MoreRoom(k - i, chunk, numberMax + 1);
          return;
        }
        RunMore(xs, i, k);
        NumericBound(e, numberMax);
        MoreRoomByOne(k - i, numberMax + 1);
        if !first {
          out := out + [COMMA];
        }
        first := false;
        out := out + NumericText(e);
        k := k + 1;
      }
    }

    /** What precedes element `i`: the comma, and the formatting in pretty mode. */
    method EmitItemLead(i: nat, inner: nat, pretty: bool)
      requires pretty || NoFormat(g)
      modifies this`out
      ensures out == old(out) + ItemLead(g, i, inner)
    {
      hide ItemLead, Indent;
      LeadIs(g, i, inner, pretty);
      if i > 0 {
        out := out + [COMMA];
      }
      if pretty {
        out := out + g.arrayNl;
        PushIndent(inner);
      }
    }

    /** An element outside any run, floats first. */
    method EmitElement(elem: Value, inner: nat, pretty: bool) returns (ok: bool)
      requires fail == None && CacheOk()
      requires (pretty || NoFormat(g)) && Native(elem, numberMax) && KeysLive(elem, heap)
      modifies this`out, this`fail, keys
      ensures CacheOk() && Did(Plain(g, elem, inner), old(out), ok)
      decreases elem, 2
    {
      hide Plain, CacheOk, Native, KeysLive, FloatText;
      if elem.Flonum? || elem.HeapFloat? {
        PlainScalar(g, elem, inner);
        ok := EmitFloat(elem.f);
      } else {
        ok := EmitValue(elem, inner, pretty);
      }
    }

    /**
      An array. Numbers go out in chunked runs, and every way out of a run leaves the
      separators to the outer loop; the bytes are the reference's.
     */
    method EmitArray(v: Value, depth: nat, pretty: bool) returns (ok: bool)
      requires v.Array? && fail == None && CacheOk()
      requires (pretty || NoFormat(g)) && Native(v, numberMax) && KeysLive(v, heap)
      modifies this`out, this`fail, keys
      ensures CacheOk() && Did(Plain(g, v, depth), old(out), ok)
      decreases v, 0
    {
      hide Plain, PlainItems, ItemLead, Prepend, Append, CacheOk, Native, KeysLive, FloatText, InRun, RunText, CloseText, Indent;
      var xs := v.items;
      var inner := depth + 1;
      PlainArray(g, xs, depth);
      Inside(v, numberMax, heap);
      if TooDeep(g, inner) {
        fail := Some(Nesting(g.maxNesting));
        return false;
      }
      out := out + [LBRACKET];
      if xs == [] {
        out := out + [RBRACKET];
        return true;
      }
      ghost var base := out;
      ghost var done: bytes := [];
      var i := 0;
      PrependNothing(PlainItems(g, xs, 0, inner));
      while i < |xs|
        invariant i <= |xs| && fail == None && CacheOk()
        invariant out == base + done
        invariant PlainItems(g, xs, 0, inner) == Prepend(done, PlainItems(g, xs, i, inner))
        decreases |xs| - i
      {
        var elem := xs[i];
        PlainItemsStep(g, xs, i, inner);
        EmitItemLead(i, inner, pretty);
        assert out == base + (done + ItemLead(g, i, inner));
        if !pretty && (elem.Flonum? || elem.Fixnum?) {
          var runStart := i;
          i := NumericRun(xs, i);
          if i > runStart {
            RunItems(g, xs, runStart, i, inner);
            PrependTwice(done, ItemLead(g, runStart, inner) + RunText(xs, runStart, i), PlainItems(g, xs, i, inner));
            done := done + (ItemLead(g, runStart, inner) + RunText(xs, runStart, i));
            continue;
          }
          RunNone(xs, i);
        }
        ok := EmitElement(elem, inner, pretty);
        if !ok {
          PrependFails(done, PlainItems(g, xs, i, inner));
          EnclosedFails([LBRACKET], PlainItems(g, xs, 0, inner), CloseText(g, g.arrayNl, depth) + [RBRACKET]);
          return;
        }
        ghost var here := Plain(g, elem, inner).value;
        PrependTwice(done, ItemLead(g, i, inner) + here, PlainItems(g, xs, i + 1, inner));
        done := done + (ItemLead(g, i, inner) + here);
        i := i + 1;
      }
      PlainItemsStep(g, xs, |xs|, inner);
      AllDone([LBRACKET], done, CloseText(g, g.arrayNl, depth) + [RBRACKET]);
      CloseIs(g, g.arrayNl, depth, pretty);
      if pretty && g.arrayNl != [] {
        out := out + g.arrayNl;
        PushIndent(depth);
      }
      out := out + [RBRACKET];
      ok := true;
    }

    /**
      An object. In compact mode the comma is decided from the last byte written, and fused
      writes and value fast arms replace the plain ones; the bytes are the reference's.
     */
    method EmitObject(v: Value, depth: nat, pretty: bool) returns (ok: bool)
      requires v.Hash? && fail == None && CacheOk()
      requires (pretty || NoFormat(g)) && Native(v, numberMax) && KeysLive(v, heap)
      modifies this`out, this`fail, keys
      ensures CacheOk() && Did(Plain(g, v, depth), old(out), ok)
      decreases v, 0
    {
      hide Plain, PlainPairs, PairLead, Prepend, Append, CacheOk, Native, KeysLive, KeyLive, CloseText, Indent, KeysRepeat, QuotedText;
      var ps := v.pairs;
      var inner := depth + 1;
      PlainHash(g, ps, depth);
      Inside(v, numberMax, heap);
      if TooDeep(g, inner) {
        fail := Some(Nesting(g.maxNesting));
        return false;
      }
      out := out + [LBRACE];
      if ps == [] {
        out := out + [RBRACE];
        return true;
      }
      var mixed := new MixedKeys(g.allowDuplicateKey);
      ghost var base := out;
      ghost var done: bytes := [];
      PrependNothing(PlainPairs(g, ps, 0, inner));
      for i := 0 to |ps|
        invariant fail == None && CacheOk() && fresh(mixed)
        invariant out == base + done
        invariant i == 0 ==> done == []
        invariant i > 0 ==> done != [] && done[|done| - 1] != LBRACE
        invariant PlainPairs(g, ps, 0, inner) == Prepend(done, PlainPairs(g, ps, i, inner))
        invariant mixed.first == if i == 0 then None else Some(KindOf(ps[0].key))
        invariant !mixed.done ==> !g.allowDuplicateKey
        invariant mixed.done ==> g.allowDuplicateKey || !KeysRepeat(ps)
      {
        PlainPairsStep(g, ps, i, inner);
        PairLeadIs(g, ps[i].key, i, inner, pretty);
        var refused := PairRefused(ps, i, mixed);
        if refused {
          PrependFails(done, PlainPairs(g, ps, i, inner));
          EnclosedFails([LBRACE], PlainPairs(g, ps, 0, inner), CloseText(g, g.objectNl, depth) + [RBRACE]);
          fail := Some(DuplicateKey);
          return false;
        }
        assert ps[i].value < v;
        ghost var lead := PairLead(g, ps[i].key, i, inner);
        if pretty {
          ok := EmitPairPretty(ps[i], i > 0, inner, lead);
        } else {
          // `out` ends with the brace just pushed, or with the previous pair.
          assert out[|out| - 1] == if i == 0 then LBRACE else done[|done| - 1];
          var comma := out[|out| - 1] != LBRACE;
          ok := EmitPairCompact(ps[i], comma, inner, lead);
        }
        if !ok {
          PrependFails(lead, Plain(g, ps[i].value, inner));
          PrependFails(done, PlainPairs(g, ps, i, inner));
          EnclosedFails([LBRACE], PlainPairs(g, ps, 0, inner), CloseText(g, g.objectNl, depth) + [RBRACE]);
          return;
        }
        NeverEndsInBrace(g, ps[i].value, inner, numberMax);
        PrependOk(lead, Plain(g, ps[i].value, inner));
        ghost var here := Plain(g, ps[i].value, inner).value;
        PrependTwice(done, lead + here, PlainPairs(g, ps, i + 1, inner));
        done := done + (lead + here);
      }
      PlainPairsStep(g, ps, |ps|, inner);
      AllDone([LBRACE], done, CloseText(g, g.objectNl, depth) + [RBRACE]);
      CloseIs(g, g.objectNl, depth, pretty);
      if pretty && g.objectNl != [] {
        out := out + g.objectNl;
        PushIndent(depth);
      }
      out := out + [RBRACE];
      ok := true;
    }

    /** Whether the duplicate-key rule refuses the hash at pair `i`. */
    method PairRefused(ps: seq<Pair>, i: nat, mixed: MixedKeys) returns (refused: bool)
      requires i < |ps|
      requires mixed.first == if i == 0 then None else Some(KindOf(ps[0].key))
      requires !mixed.done ==> !g.allowDuplicateKey
      requires mixed.done ==> g.allowDuplicateKey || !KeysRepeat(ps)
      modifies mixed
      ensures refused <==> Refuses(g, ps, i)
      ensures !refused ==> mixed.first == Some(KindOf(ps[0].key))
      ensures !refused ==> (!mixed.done ==> !g.allowDuplicateKey) && (mixed.done ==> g.allowDuplicateKey || !KeysRepeat(ps))
    {
      hide KeysRepeat;
      var needed := mixed.NeedsCheck(KindOf(ps[i].key));
      refused := false;
      if needed {
        refused := CheckDuplicateKeys(ps);
      }
    }

    /** One pair with its formatting. */
    method EmitPairPretty(p: Pair, comma: bool, inner: nat, ghost lead: bytes) returns (ok: bool)
      requires fail == None && CacheOk() && KeyLive(p.key, heap)
      requires Native(p.value, numberMax) && KeysLive(p.value, heap)
      requires lead == (if comma then [COMMA] else []) + g.objectNl + Indent(g, inner) + QuotedText(g, p.key.text)
                       + g.spaceBefore + [COLON] + g.space
      modifies this`out, this`fail, keys
      ensures CacheOk() && Did(Prepend(lead, Plain(g, p.value, inner)), old(out), ok)
      ensures ok == Plain(g, p.value, inner).Ok?
      decreases p.value, 2
    {
      hide Plain, CacheOk, Native, KeysLive, KeyLive, Indent, QuotedText;
      if comma {
        out := out + [COMMA];
      }
      out := out + g.objectNl;
      PushIndent(inner);
      EmitKey(p.key);
      out := out + g.spaceBefore;
      out := out + [COLON];
      out := out + g.space;
      assert out == old(out) + lead;
      ok := EmitValue(p.value, inner, true);
    }

    /** One pair without formatting, through the fused writes and the value fast arms. */
    method EmitPairCompact(p: Pair, comma: bool, inner: nat, ghost lead: bytes) returns (ok: bool)
      requires fail == None && CacheOk() && KeyLive(p.key, heap) && NoFormat(g)
      requires Native(p.value, numberMax) && KeysLive(p.value, heap)
      requires lead == (if comma then [COMMA] else []) + QuotedText(g, p.key.text) + [COLON]
      modifies this`out, this`fail, keys
      ensures CacheOk() && Did(Prepend(lead, Plain(g, p.value, inner)), old(out), ok)
      ensures ok == Plain(g, p.value, inner).Ok?
      decreases p.value, 2
    {
      hide Plain, CacheOk, Native, KeysLive, KeyLive, QuotedText, FloatText, IntText;
      var v := p.value;
      if !v.Array? && !v.Hash? {
        PlainScalar(g, v, inner);
      }
      ok := true;
      if v.Fixnum? {
        EmitPairIntCompact(p.key, comma, v.i);
        assert out == old(out) + (lead + IntText(v.i));
        return;
      }
      EmitPairPrefixCompact(p.key, comma);
      if v.Str? {
        EmitQuoted(v.text);
      } else if v.Nil? {
        out := out + NULL_TEXT;
      } else if v.Bool? {
        out := out + if v.b then TRUE_TEXT else FALSE_TEXT;
      } else if v.Flonum? {
        ok := EmitFloat(v.f);
      } else {
        ok := EmitValue(v, inner, false);
      }
    }

    method EmitValue(v: Value, depth: nat, pretty: bool) returns (ok: bool)
      requires fail == None && CacheOk()
      requires (pretty || NoFormat(g)) && Native(v, numberMax) && KeysLive(v, heap)
      modifies this`out, this`fail, keys
      ensures CacheOk() && Did(Plain(g, v, depth), old(out), ok)
      decreases v, 1
    {
      hide Plain, CacheOk, Native, KeysLive, FloatText, IntText;
      if !v.Array? && !v.Hash? {
        PlainScalar(g, v, depth);
      }
      ok := true;
      match v {
        case Str(text) => EmitQuoted(text);
        case Hash(_) => ok := EmitObject(v, depth, pretty);
        case Array(_) => ok := EmitArray(v, depth, pretty);
        case HeapFloat(f) => ok := EmitFloat(f);
        case Bignum(digits) => out := out + digits;
        case Sym(text) => EmitQuoted(text);
        case Fixnum(i) => out := out + IntText(i);
        case Flonum(f) => ok := EmitFloat(f);
        case Nil => out := out + NULL_TEXT;
        case Bool(b) => out := out + if b then TRUE_TEXT else FALSE_TEXT;
      }
    }
  }
}
