/** The generate entries and their pooled scratch: ext/nosj/src/gen/mod.rs. */
module Generate {
  import opened Bytes
  import opened KeyCaches
  import opened Printer
  import opened Walker

  // ----- scratch -----

  /** The pooled key caches, one per cacheable escape mode. */
  class GenScratch {
    const keys: GenKeyCache
    const htmlKeys: GenKeyCache

    constructor ()
      ensures fresh(keys) && fresh(htmlKeys)
      ensures forall escape, heap :: Pooled(escape, heap)
    {
      keys := new GenKeyCache();
      htmlKeys := new GenKeyCache();
    }

    /** Each cache holds the bytes of its own mode. */
    ghost predicate Pooled(escape: (EscapeMode, bytes) -> bytes, heap: map<Id, bytes>)
      reads keys, htmlKeys
    {
      && keys != htmlKeys
      && CacheHolds(keys, escape, Standard, heap)
      && CacheHolds(htmlKeys, escape, HtmlSafe, heap)
    }
  }

  /** What the walker asks of a value: spelled numbers within `max` bytes, and live frozen keys. */
  ghost predicate Emits(v: Value, max: nat, heap: map<Id, bytes>) {
    Native(v, max) && KeysLive(v, heap)
  }

  // ----- one value -----

  /** One value appended to `out`; the options choose the pretty or the compact emitter. */
  method EmitOne(g: Config, v: Value, out: bytes, keys: GenKeyCache, max: nat, ghost heap: map<Id, bytes>, ghost cacheMode: EscapeMode)
    returns (r: Result<bytes, GenFail>)
    requires (ModeCacheable(g.mode) ==> g.mode == cacheMode) && CacheHolds(keys, g.escape, cacheMode, heap)
    requires Emits(v, max, heap)
    modifies keys
    ensures CacheHolds(keys, g.escape, cacheMode, heap)
    ensures r == Prepend(out, Plain(g, v, g.startDepth))
  {
    hide Plain, Native, KeysLive, CacheHolds;
    var gen := new Gen(out, g, keys, max, heap, cacheMode);
    var pretty := !NoFormat(g);
    var ok := gen.EmitValue(v, g.startDepth, pretty);
    if ok {
      r := Ok(gen.out);
    } else {
      r := Err(gen.fail.value);
    }
  }

  /**
    A whole document under any options: the cache handed to the emitter always holds bytes
    of the mode in use, so the result is the reference's and both caches stay sound.
   */
  method GenerateScratched(scratch: GenScratch, g: Config, v: Value, max: nat, ghost heap: map<Id, bytes>)
    returns (r: Result<bytes, GenFail>)
    requires scratch.Pooled(g.escape, heap) && Emits(v, max, heap)
    modifies scratch.keys, scratch.htmlKeys
    ensures scratch.Pooled(g.escape, heap)
    ensures r == Plain(g, v, g.startDepth)
  {
    hide Plain, Emits, CacheHolds;
    CacheMatchesMode(g.mode);
    PrependNothing(Plain(g, v, g.startDepth));
    var keys := if g.mode == HtmlSafe then scratch.htmlKeys else scratch.keys;
    r := EmitOne(g, v, [], keys, max, heap, CacheMode(g.mode));
  }

  /**
    A replacement value for a splice or a patch, through the first cache whatever the mode:
    sound because no options hash asks for HtmlSafe.
   */
  method EmitInto(scratch: GenScratch, g: Config, v: Value, out: bytes, max: nat, ghost heap: map<Id, bytes>)
    returns (r: Result<bytes, GenFail>)
    requires exists ascii, script :: OptionMode(ascii, script) == Some(g.mode)
    requires scratch.Pooled(g.escape, heap) && Emits(v, max, heap)
    modifies scratch.keys
    ensures scratch.Pooled(g.escape, heap)
    ensures r == Prepend(out, Plain(g, v, g.startDepth))
  {
    hide Plain, Emits, CacheHolds, OptionMode;
    FirstCacheFits(g.mode);
    r := EmitOne(g, v, out, scratch.keys, max, heap, Standard);
  }

  lemma FirstCacheFits(mode: EscapeMode)
    requires exists ascii, script :: OptionMode(ascii, script) == Some(mode)
    ensures ModeCacheable(mode) ==> mode == Standard
  {
    var ascii, script :| OptionMode(ascii, script) == Some(mode);
    OptionModesShareFirst(ascii, script);
  }

  // ----- one value per line -----

  datatype LinesFail = BadFormat | Failed(fail: GenFail)

  predicate HasBreak(t: bytes) {
    LF in t || CR in t
  }

  /** Formatting that would split one value across lines. */
  predicate BreaksLineFraming(g: Config) {
    HasBreak(g.indent) || HasBreak(g.space) || HasBreak(g.spaceBefore) || HasBreak(g.objectNl) || HasBreak(g.arrayNl)
  }

  /** Every value's text, or the failure of the first that has none. */
  ghost function PlainAll(g: Config, vs: seq<Value>): (r: Result<seq<bytes>, GenFail>)
    ensures r.Ok? ==> |r.value| == |vs|
  {
    if vs == [] then Ok([])
    else
      var init := PlainAll(g, vs[..|vs| - 1]);
      if init.Err? then init
      else
        var last := Plain(g, vs[|vs| - 1], g.startDepth);
        if last.Err? then Err(last.error) else Ok(init.value + [last.value])
  }

  /** Texts, each ended by a newline. */
  function Unlines(ts: seq<bytes>): bytes {
    if ts == [] then [] else Unlines(ts[..|ts| - 1]) + ts[|ts| - 1] + [LF]
  }

  lemma {:induction false} PlainAllFails(g: Config, vs: seq<Value>, k: nat)
    requires k <= |vs| && PlainAll(g, vs[..k]).Err?
    ensures PlainAll(g, vs) == PlainAll(g, vs[..k])
  {
    hide Plain;
    if k == |vs| {
      assert vs[..k] == vs;
    } else {
      var init := vs[..|vs| - 1];
      assert init[..k] == vs[..k];
      PlainAllFails(g, init, k);
    }
  }

  lemma {:induction false} PlainAllAt(g: Config, vs: seq<Value>, i: nat)
    requires i < |vs| && PlainAll(g, vs).Ok?
    ensures Plain(g, vs[i], g.startDepth) == Ok(PlainAll(g, vs).value[i])
  {
    hide Plain;
    if i < |vs| - 1 {
      PlainAllAt(g, vs[..|vs| - 1], i);
    }
  }

  lemma PlainAllNext(g: Config, vs: seq<Value>, i: nat, before: bytes)
    requires i < |vs| && PlainAll(g, vs[..i]).Ok? && before == Unlines(PlainAll(g, vs[..i]).value)
    ensures var here := Prepend(before, Plain(g, vs[i], g.startDepth));
            if here.Err? then PlainAll(g, vs[..i + 1]) == Err(here.error)
            else PlainAll(g, vs[..i + 1]).Ok? && Unlines(PlainAll(g, vs[..i + 1]).value) == here.value + [LF]
  {
    hide Plain;
    assert vs[..i + 1][..i] == vs[..i];
    if Plain(g, vs[i], g.startDepth).Ok? {
      var ts, t := PlainAll(g, vs[..i]).value, Plain(g, vs[i], g.startDepth).value;
      assert (ts + [t])[..|ts|] == ts;
    }
  }

  /** `generate_lines`: every line terminated, or the first failure. */
  method GenerateLines(scratch: GenScratch, g: Config, vs: seq<Value>, max: nat, ghost heap: map<Id, bytes>)
    returns (r: Result<bytes, LinesFail>)
    requires exists ascii, script :: OptionMode(ascii, script) == Some(g.mode)
    requires scratch.Pooled(g.escape, heap) && forall i :: 0 <= i < |vs| ==> Emits(vs[i], max, heap)
    modifies scratch.keys
    ensures scratch.Pooled(g.escape, heap)
    ensures BreaksLineFraming(g) ==> r == Err(BadFormat)
    ensures !BreaksLineFraming(g) && PlainAll(g, vs).Ok? ==> r == Ok(Unlines(PlainAll(g, vs).value))
    ensures !BreaksLineFraming(g) && PlainAll(g, vs).Err? ==> r == Err(Failed(PlainAll(g, vs).error))
  {
    hide Plain, Emits, CacheHolds, PlainAll, Unlines, OptionMode;
    if BreaksLineFraming(g) {
      return Err(BadFormat);
    }
    FirstCacheFits(g.mode);
    var out: bytes := [];
    PlainAllEmpty(g, vs);
    for i := 0 to |vs|
      invariant scratch.Pooled(g.escape, heap)
      invariant PlainAll(g, vs[..i]).Ok? && out == Unlines(PlainAll(g, vs[..i]).value)
    {
      PlainAllNext(g, vs, i, out);
      var one := EmitOne(g, vs[i], out, scratch.keys, max, heap, Standard);
      if one.Err? {
        PlainAllFails(g, vs, i + 1);
        return Err(Failed(one.error));
      }
      out := one.value + [LF];
    }
    assert vs[..|vs|] == vs;
    r := Ok(out);
  }

  lemma PlainAllEmpty(g: Config, vs: seq<Value>)
    ensures PlainAll(g, vs[..0]) == Ok([]) && Unlines([]) == []
  {
  }
}
