/** The identity-keyed cache of escaped keys: ext/nosj/src/gen/keys.rs. */
module KeyCaches {
  import opened Bytes

  /** What a `VALUE` is: the address of a heap object. */
  type Id = nat

  const GEN_KEY_CACHE_CAP: nat := 2048

  datatype EscapeMode = Standard | HtmlSafe | HtmlEntities | JsSeparators | AsciiOnly | ScriptSafe

  /** Keys escaped under these modes may be cached. */
  predicate ModeCacheable(mode: EscapeMode) {
    mode == Standard || mode == HtmlSafe
  }

  /** A string quoted and escaped under a mode, by whatever kernel. */
  function Quoted(escape: (EscapeMode, bytes) -> bytes, mode: EscapeMode, s: bytes): bytes {
    [QUOTE] + escape(mode, s) + [QUOTE]
  }

  // ----- the cache as a value -----

  datatype Cache = Cache(entries: map<Id, bytes>, shadow: seq<Id>)

  ghost predicate Balanced(c: Cache) {
    && (forall k :: k in c.entries <==> k in c.shadow)
    && |c.shadow| == |c.entries| <= GEN_KEY_CACHE_CAP
  }

  /** Store after a miss: at capacity the whole epoch goes first. */
  function Stored(c: Cache, k: Id, text: bytes): Cache {
    var kept := if |c.entries| >= GEN_KEY_CACHE_CAP then Cache(map[], []) else c;
    Cache(kept.entries[k := text], kept.shadow + [k])
  }

  lemma StoredBalanced(c: Cache, k: Id, text: bytes)
    requires Balanced(c) && k !in c.entries
    ensures Balanced(Stored(c, k, text)) && k in Stored(c, k, text).entries
  {
    var kept := if |c.entries| >= GEN_KEY_CACHE_CAP then Cache(map[], []) else c;
    assert |kept.entries[k := text]| == |kept.entries| + 1;
  }

  class GenKeyCache {
    var entries: map<Id, bytes>
    /** Marked by the collector, so everything in it stays alive. */
    var shadow: seq<Id>

    constructor ()
      ensures State() == Cache(map[], [])
    {
      entries, shadow := map[], [];
    }

    function State(): Cache
      reads this
    {
      Cache(entries, shadow)
    }

    function Get(k: Id): Option<bytes>
      reads this
    {
      if k in entries then Some(entries[k]) else None
    }

    method Store(k: Id, text: bytes)
      modifies this
      ensures State() == Stored(old(State()), k, text)
    {
      if |entries| >= GEN_KEY_CACHE_CAP {
        entries := map[];
        shadow := [];
      }
      shadow := shadow + [k];
      entries := entries[k := text];
    }
  }

  /** Map and shadow agree, and every cached address is that of a string whose escaped bytes the cache has. */
  ghost predicate CacheHolds(keys: GenKeyCache, escape: (EscapeMode, bytes) -> bytes, mode: EscapeMode, heap: map<Id, bytes>)
    reads keys
  {
    && Balanced(keys.State())
    && forall k :: k in keys.entries ==> k in heap && keys.entries[k] == Quoted(escape, mode, heap[k])
  }

  // ----- the collector -----

  /**
    Frozen strings alive, those the program still reaches, and one cache with the mode its
    bytes were escaped under.
   */
  datatype World = World(heap: map<Id, bytes>, live: set<Id>, cache: Cache)

  /** What may happen between two looks at the cache. */
  datatype Event =
    /** A string comes to life at an address no live object has. */
    | Allocate(id: Id, content: bytes)
    /** The program lets go of some objects. */
    | Release(ids: set<Id>)
    /** The collector frees objects that neither the program nor the shadow holds. */
    | Collect(ids: set<Id>)
    /** A generate call emits a live frozen key. */
    | Emit(id: Id)

  ghost predicate Enabled(w: World, e: Event) {
    match e
    case Allocate(id, _) => id !in w.heap
    case Release(_) => true
    case Collect(ids) => ids !! w.live && forall k :: k in w.cache.shadow ==> k !in ids
    case Emit(id) => id in w.live
  }

  function Next(w: World, e: Event, escape: (EscapeMode, bytes) -> bytes, mode: EscapeMode): World {
    match e
    case Allocate(id, content) => w.(heap := w.heap[id := content], live := w.live + {id})
    case Release(ids) => w.(live := w.live - ids)
    case Collect(ids) => w.(heap := w.heap - ids)
    case Emit(id) =>
      if id in w.heap then w.(cache := Emitted(w.cache, id, Quoted(escape, mode, w.heap[id]))) else w
  }

  /** The cache after emitting a key whose quoted bytes are `text`: a hit leaves it, a miss stores. */
  function Emitted(c: Cache, id: Id, text: bytes): Cache {
    if id in c.entries then c else Stored(c, id, text)
  }

  /** Every cached address still belongs to the string that was cached, with its escaped bytes. */
  ghost predicate Sound(w: World, escape: (EscapeMode, bytes) -> bytes, mode: EscapeMode) {
    && Balanced(w.cache)
    && (forall k :: k in w.live ==> k in w.heap)
    && (forall k :: k in w.cache.entries ==> k in w.heap && w.cache.entries[k] == Quoted(escape, mode, w.heap[k]))
  }

  lemma StepSound(w: World, e: Event, escape: (EscapeMode, bytes) -> bytes, mode: EscapeMode)
    requires Sound(w, escape, mode) && Enabled(w, e)
    ensures Sound(Next(w, e, escape, mode), escape, mode)
  {
    hide Quoted;
    match e
    case Emit(id) =>
      if id !in w.cache.entries {
        StoredBalanced(w.cache, id, Quoted(escape, mode, w.heap[id]));
      }
    case Collect(ids) =>
      forall k | k in w.cache.entries
        ensures k !in ids
      {
        assert k in w.cache.shadow;
      }
    case _ =>
  }

  /** A run of events, each enabled when it happens. */
  ghost predicate Runs(w: World, es: seq<Event>, escape: (EscapeMode, bytes) -> bytes, mode: EscapeMode, end: World)
    decreases |es|
  {
    if es == [] then end == w
    else Enabled(w, es[0]) && Runs(Next(w, es[0], escape, mode), es[1..], escape, mode, end)
  }

  /**
    In every state a run can reach, a hit returns exactly what escaping the key now would
    emit, map and shadow hold the same keys, and neither exceeds the cap.
   */
  lemma {:induction false} RunSound(w: World, es: seq<Event>, escape: (EscapeMode, bytes) -> bytes, mode: EscapeMode, end: World)
    requires Sound(w, escape, mode) && Runs(w, es, escape, mode, end)
    ensures Sound(end, escape, mode)
    ensures forall id :: id in end.live && id in end.cache.entries ==> end.cache.entries[id] == Quoted(escape, mode, end.heap[id])
    ensures |end.cache.shadow| == |end.cache.entries| <= GEN_KEY_CACHE_CAP
    decreases |es|
  {
    hide Quoted, Enabled, Next;
    if es != [] {
      StepSound(w, es[0], escape, mode);
      RunSound(Next(w, es[0], escape, mode), es[1..], escape, mode, end);
    }
  }

  /** A fresh cache is sound in any world. */
  lemma FreshSound(heap: map<Id, bytes>, live: set<Id>, escape: (EscapeMode, bytes) -> bytes, mode: EscapeMode)
    requires forall k :: k in live ==> k in heap
    ensures Sound(World(heap, live, Cache(map[], [])), escape, mode)
  {
  }

  /**
    Reachability: from a fresh cache, whatever strings come and go, whatever the collector
    frees and whichever keys are emitted, a hit returns what escaping the key now would emit.
   */
  lemma ReachableHitsExact(heap: map<Id, bytes>, live: set<Id>, es: seq<Event>, escape: (EscapeMode, bytes) -> bytes,
                           mode: EscapeMode, end: World, id: Id)
    requires forall k :: k in live ==> k in heap
    requires Runs(World(heap, live, Cache(map[], [])), es, escape, mode, end)
    ensures id in end.live && id in end.cache.entries ==>
              id in end.heap && end.cache.entries[id] == Quoted(escape, mode, end.heap[id])
    ensures forall k :: k in end.cache.entries <==> k in end.cache.shadow
    ensures |end.cache.shadow| == |end.cache.entries| <= 2048
  {
    hide Quoted, Runs, Enabled, Next;
    FreshSound(heap, live, escape, mode);
    RunSound(World(heap, live, Cache(map[], [])), es, escape, mode, end);
  }

  // ----- one cache per cacheable mode -----

  /** The mode of the cache a call gets: `generate` picks by mode, the other entries take the first. */
  function CacheMode(mode: EscapeMode): EscapeMode {
    if mode == HtmlSafe then HtmlSafe else Standard
  }

  /** Where keys may be cached, the cache handed out holds bytes of that very mode. */
  lemma CacheMatchesMode(mode: EscapeMode)
    ensures ModeCacheable(mode) ==> CacheMode(mode) == mode
  {
  }

  /** The modes a generate options hash can ask for. */
  function OptionMode(asciiOnly: bool, scriptSafe: bool): Option<EscapeMode> {
    if asciiOnly then (if scriptSafe then None else Some(AsciiOnly))
    else if scriptSafe then Some(ScriptSafe) else Some(Standard)
  }

  /** `emit_into` and the lines entries always take the first cache: their options never ask for HtmlSafe. */
  lemma OptionModesShareFirst(asciiOnly: bool, scriptSafe: bool)
    ensures OptionMode(asciiOnly, scriptSafe).Some? ==> CacheMode(OptionMode(asciiOnly, scriptSafe).value) == Standard
  {
  }
}
