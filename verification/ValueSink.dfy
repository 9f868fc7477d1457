/** The sink that builds values on a stack, and materializing a span through it. */
module ValueSinks {
  import opened Bytes
  import opened Syntax
  import opened Values
  import opened Sinks
  import opened Grammar
  import opened Mended
  import opened Tree

  /** The ceiling on pending values. */
  const SINK_STACK_MAX: nat := 0x400_0000

  /** A pending value: keys and values share the stack. */
  datatype Slot = KeySlot(key: bytes) | ValueSlot(value: Value)

  // ----- what a slice of the stack builds -----

  /** The elements of an array, from its slice of the stack. */
  function ListOf(slots: seq<Slot>): (vs: seq<Value>)
    ensures |vs| == |slots|
  {
    seq(|slots|, i requires 0 <= i < |slots| => if slots[i].ValueSlot? then slots[i].value else Atom([]))
  }

  /** A Hash filled from alternating keys and values, in order. */
  function HashOf(slots: seq<Slot>): map<bytes, Value> {
    if |slots| < 2 || !slots[|slots| - 2].KeySlot? || !slots[|slots| - 1].ValueSlot? then map[]
    else HashOf(slots[..|slots| - 2])[slots[|slots| - 2].key := slots[|slots| - 1].value]
  }

  /** What a group's first `i` entries leave on the stack. */
  function EntrySlots(c: Codec, n: Node, i: nat): seq<Slot>
    requires n.Group? && i <= |n.entries|
  {
    if i == 0 then []
    else EntrySlots(c, n, i - 1) + (if n.obj then [KeySlot(KeyOf(c, n.entries[i - 1]))] else [])
         + [ValueSlot(ValueOf(c, n.entries[i - 1].value))]
  }

  lemma {:induction false} EntrySlotsLength(c: Codec, n: Node, i: nat)
    requires n.Group? && i <= |n.entries|
    ensures |EntrySlots(c, n, i)| == if n.obj then 2 * i else i
  {
    hide ValueOf, KeyOf;
    if i > 0 {
      EntrySlotsLength(c, n, i - 1);
    }
  }

  /** An array's slice builds the list of its elements. */
  lemma {:induction false} ListOfEntries(c: Codec, n: Node, i: nat)
    requires n.Group? && !n.obj && i <= |n.entries|
    ensures ListOf(EntrySlots(c, n, i)) == ValuesOf(c, n.entries)[..i]
  {
    hide ValueOf, KeyOf, ValuesOf;
    EntrySlotsLength(c, n, i);
    if i > 0 {
      ListOfEntries(c, n, i - 1);
      ValuesOfAt(c, n.entries, i - 1);
      assert EntrySlots(c, n, i) == EntrySlots(c, n, i - 1) + [ValueSlot(ValueOf(c, n.entries[i - 1].value))];
    }
  }

  /** An object's slice builds the map of its members, the last of equal keys winning. */
  lemma {:induction false} HashOfEntries(c: Codec, n: Node, i: nat)
    requires n.Group? && n.obj && i <= |n.entries|
    ensures HashOf(EntrySlots(c, n, i)) == MapOf(Keys(c, n.entries)[..i], ValuesOf(c, n.entries)[..i])
  {
    hide ValueOf, KeyOf, ValuesOf, EntrySlots, HashOf, MapOf;
    var ks, vs := Keys(c, n.entries), ValuesOf(c, n.entries);
    if i == 0 {
      NoMembers(c, n);
    } else {
      HashOfEntries(c, n, i - 1);
      ValuesOfAt(c, n.entries, i - 1);
      PairSlots(EntrySlots(c, n, i - 1), ks[i - 1], vs[i - 1]);
      MemberSlots(c, n, i - 1);
      assert ks[..i] == ks[..i - 1] + [ks[i - 1]] && vs[..i] == vs[..i - 1] + [vs[i - 1]];
      MapOfLast(ks[..i - 1], vs[..i - 1], ks[i - 1], vs[i - 1]);
    }
  }

  lemma NoMembers(c: Codec, n: Node)
    requires n.Group? && n.obj
    ensures HashOf(EntrySlots(c, n, 0)) == map[] && MapOf([], []) == map[]
  {
  }

  lemma MemberSlots(c: Codec, n: Node, i: nat)
    requires n.Group? && n.obj && i < |n.entries|
    ensures EntrySlots(c, n, i + 1) == EntrySlots(c, n, i) + [KeySlot(KeyOf(c, n.entries[i])), ValueSlot(ValueOf(c, n.entries[i].value))]
  {
    hide ValueOf, KeyOf;
  }

  lemma MapOfLast(ks: seq<bytes>, vs: seq<Value>, k: bytes, v: Value)
    requires |ks| == |vs|
    ensures MapOf(ks + [k], vs + [v]) == MapOf(ks, vs)[k := v]
  {
    assert (ks + [k])[..|ks|] == ks && (vs + [v])[..|vs|] == vs;
  }

  lemma PairSlots(slots: seq<Slot>, k: bytes, v: Value)
    ensures HashOf(slots + [KeySlot(k), ValueSlot(v)]) == HashOf(slots)[k := v]
  {
    assert (slots + [KeySlot(k), ValueSlot(v)])[..|slots|] == slots;
  }

  /** The Hash comes out smaller than the pair count exactly when a key repeats. */
  lemma {:induction false} SizeTellsRepeat(ks: seq<bytes>, vs: seq<Value>)
    requires |ks| == |vs|
    ensures |MapOf(ks, vs)| <= |ks|
    ensures |MapOf(ks, vs)| < |ks| <==> !Distinct(ks)
  {
    if ks != [] {
      var k := ks[|ks| - 1];
      var init := ks[..|ks| - 1];
      SizeTellsRepeat(init, vs[..|vs| - 1]);
      MapOfKeys(init, vs[..|vs| - 1]);
      if k in init {
        var i :| 0 <= i < |init| && init[i] == k;
        assert ks[i] == ks[|ks| - 1];
      } else {
        assert forall i :: 0 <= i < |init| ==> ks[i] == init[i] && init[i] in init;
      }
    }
  }

  // ----- how high the stack gets -----

  /** The most slots a drive over `n` holds at once, past what was there. */
  function Peak(n: Node): (p: nat)
    ensures p >= 1
    decreases n, 0
  {
    if n.Leaf? then 1
    else
      var p := PeakFrom(n, 0);
      if p > 1 then p else 1
  }

  function PeakFrom(n: Node, i: nat): nat
    requires n.Group? && i <= |n.entries|
    decreases n.entries, |n.entries| - i
  {
    if i == |n.entries| then 0
    else
      var here := (if n.obj then 2 * i + 1 else i) + Peak(n.entries[i].value);
      var rest := PeakFrom(n, i + 1);
      if here > rest then here else rest
  }

  lemma PeakGroup(n: Node)
    requires n.Group?
    ensures Peak(n) >= PeakFrom(n, 0)
  {
    hide PeakFrom;
  }

  lemma PeakStep(n: Node, i: nat)
    requires n.Group? && i < |n.entries|
    ensures PeakFrom(n, i) >= (if n.obj then 2 * i + 1 else i) + Peak(n.entries[i].value)
    ensures PeakFrom(n, i) >= PeakFrom(n, i + 1)
  {
    hide Peak;
  }

  lemma {:induction false} PeakFromBound(n: Node, i: nat, bound: nat)
    requires n.Group? && i <= |n.entries|
    requires forall j :: i <= j < |n.entries| ==> (if n.obj then 2 * j + 1 else j) + Peak(n.entries[j].value) <= bound
    ensures PeakFrom(n, i) <= bound
    decreases |n.entries| - i
  {
    hide Peak;
    if i < |n.entries| {
      PeakFromBound(n, i + 1, bound);
    }
  }

  lemma PeakBound(n: Node, bound: nat)
    requires n.Group? && bound >= 1
    requires forall j :: 0 <= j < |n.entries| ==> (if n.obj then 2 * j + 1 else j) + Peak(n.entries[j].value) <= bound
    ensures Peak(n) <= bound
  {
    hide PeakFrom;
    PeakFromBound(n, 0, bound);
    assert Peak(n) == if PeakFrom(n, 0) > 1 then PeakFrom(n, 0) else 1;
  }

  /** A key takes at least three bytes with its colon. */
  lemma LabelTakes(obj: bool, s: bytes)
    requires ParseLabel(obj, s).Got?
    ensures |ParseLabel(obj, s).rest| + (if obj then 3 else 0) <= |s|
  {
    hide StringLen, IsString, AllWs, WsLen;
    LabelSound(obj, s);
    var l := ParseLabel(obj, s).value;
    if obj {
      assert |l.text| >= 2 by { StringTakes(l.text); }
    }
  }

  lemma StringTakes(t: bytes)
    requires IsString(t)
    ensures |t| >= 2
  {
  }

  /** Every slot is paid for by a byte of the text, in text that breaks off too. */
  lemma {:induction false} PeakOfNode(s: bytes)
    ensures Peak(MendNode(s)) <= |s| + 1
    decreases |s|, 1
  {
    hide Peak, MendNode, MendEntries, ParseNode, ParseEntries;
    MendStep(s);
    if ParseNode(s).Got? {
      NodeSound(s);
      PeakOfWhole(ParseNode(s).value);
    } else if s != [] && (s[0] == LBRACE || s[0] == LBRACKET) {
      PeakOfEntries(s[0] == LBRACE, s[1..]);
      PeakBound(MendNode(s), |s| + 1);
    } else {
      assert Peak(HOLE) == 1 by { LeafPeak(HOLE); }
    }
  }

  lemma LeafPeak(n: Node)
    requires n.Leaf?
    ensures Peak(n) == 1
  {
  }

  lemma {:induction false} PeakOfWhole(n: Node)
    requires Wf(n)
    ensures Peak(n) <= |Print(n)|
    decreases n, 0
  {
    hide Peak, Print, Texts;
    FirstByte(n);
    if n.Leaf? {
      LeafPeak(n);
    } else {
      forall j | 0 <= j < |n.entries|
        ensures (if n.obj then 2 * j + 1 else j) + Peak(n.entries[j].value) <= |Print(n)|
      {
        PeakOfEntry(n, j);
      }
      PeakBound(n, |Print(n)|);
    }
  }

  lemma PeakOfEntry(n: Node, j: nat)
    requires n.Group? && Wf(n) && j < |n.entries|
    ensures (if n.obj then 2 * j + 1 else j) + Peak(n.entries[j].value) <= |Print(n)|
    decreases n.entries[j], 1
  {
    hide Peak, Print, Texts, Pre, RightOf;
    var e := n.entries[j];
    assert WfEntry(n.obj, e) && e.value < e < n;
    PeakOfWhole(e.value);
    ChildText(n, j);
    PreTakes(n.obj, n.entries[..j]);
    if n.obj {
      assert |PrintLabel(e.head)| >= 3 by { StringTakes(e.head.text); }
    }
  }

  lemma {:induction false} PreTakes(obj: bool, es: seq<Entry>)
    requires forall i :: 0 <= i < |es| ==> WfEntry(obj, es[i])
    ensures |Pre(Texts(es))| >= 2 * |es|
  {
    hide WfEntry, PrintEntry, Texts, Pre;
    if es != [] {
      assert es == [es[0]] + es[1..];
      PreCons(es[0], es[1..]);
      PreTakes(obj, es[1..]);
      EntryTakes(obj, es[0]);
    }
  }

  lemma EntryTakes(obj: bool, e: Entry)
    requires WfEntry(obj, e)
    ensures |PrintEntry(e)| >= (if obj then 4 else 1)
  {
    hide Print, Wf;
    FirstByte(e.value);
    PrintsEntry(e);
    if obj {
      StringTakes(e.head.text);
    }
  }

  lemma {:induction false} PeakOfEntries(obj: bool, s: bytes)
    ensures forall j :: 0 <= j < |MendEntries(obj, s)| ==>
              (if obj then 2 * j + 1 else j) + Peak(MendEntries(obj, s)[j].value) <= |s| + 2
    decreases |s|, 3
  {
    hide Peak, MendNode, MendEntries, MendEntry, ParseEntry, ParseLabel, PrintEntry, Print;
    MendEntriesStep(obj, s);
    LeafPeak(HOLE);
    var first := ParseEntry(obj, s);
    if first.Fail? {
      PeakOfLast(obj, s);
    } else {
      EntrySound(obj, s);
      EntryTakes(obj, first.value);
      PeakOfFirst(obj, first.value);
      if first.rest != [] && first.rest[0] == COMMA {
        PeakOfEntries(obj, first.rest[1..]);
      }
    }
  }

  lemma PeakOfFirst(obj: bool, e: Entry)
    requires WfEntry(obj, e)
    ensures (if obj then 3 else 0) + Peak(e.value) <= |PrintEntry(e)|
  {
    hide Peak, Print, Wf;
    PeakOfWhole(e.value);
    PrintsEntry(e);
    if obj {
      StringTakes(e.head.text);
    }
  }

  lemma PeakOfLast(obj: bool, s: bytes)
    ensures (if obj then 1 else 0) + Peak(MendEntry(obj, s).value) <= |s| + 2
    decreases |s|, 2
  {
    hide Peak, MendNode, MendEntry, ParseLabel;
    MendEntryStep(obj, s);
    LeafPeak(HOLE);
    var head := ParseLabel(obj, s[WsLen(s)..]);
    if head.Got? {
      LabelTakes(obj, s[WsLen(s)..]);
      PeakOfNode(head.rest);
    }
  }

  // ----- the sink -----

  ghost function NeverRepeat(): seq<bytes> -> bool {
    (ks: seq<bytes>) => false
  }

  ghost function RefusedRepeat(allow: bool): seq<bytes> -> bool {
    if allow then NeverRepeat() else ExactRepeat()
  }

  lemma {:induction false} CleanNever(c: Codec, n: Node)
    ensures Clean(c, n, NeverRepeat())
    decreases n
  {
    hide Keys;
    if n.Group? {
      forall i | 0 <= i < |n.entries|
        ensures Clean(c, n.entries[i].value, NeverRepeat())
      {
        CleanNever(c, n.entries[i].value);
      }
    }
  }

  class ValueSink {
    var stack: seq<Slot>
    var depth: nat
    const maxNesting: nat
    const allowDuplicateKey: bool

    constructor (stack: seq<Slot>, maxNesting: nat, allowDuplicateKey: bool)
      ensures this.stack == stack && depth == 0
      ensures this.maxNesting == maxNesting && this.allowDuplicateKey == allowDuplicateKey
    {
      this.stack, this.maxNesting, this.allowDuplicateKey := stack, maxNesting, allowDuplicateKey;
      depth := 0;
    }

    method Push(slot: Slot) returns (r: Option<DriveError>)
      modifies this`stack
      ensures r == if |old(stack)| >= SINK_STACK_MAX then Some(Overflow) else None
      ensures stack == if r.Some? then old(stack) else old(stack) + [slot]
    {
      if |stack| >= SINK_STACK_MAX {
        return Some(Overflow);
      }
      stack := stack + [slot];
      r := None;
    }

    method Begin() returns (r: Option<DriveError>)
      modifies this`depth
      ensures depth == old(depth) + 1
      ensures r == if depth > maxNesting then Some(TooDeep) else None
    {
      depth := depth + 1;
      r := if depth > maxNesting then Some(TooDeep) else None;
    }

    method EndArray(mark: nat) returns (r: Option<DriveError>)
      requires depth > 0 && mark <= |stack| && mark < SINK_STACK_MAX
      modifies this
      ensures depth == old(depth) - 1 && r == None
      ensures stack == old(stack)[..mark] + [ValueSlot(List(ListOf(old(stack)[mark..])))]
    {
      depth := depth - 1;
      var raw := List(ListOf(stack[mark..]));
      stack := stack[..mark];
      r := Push(ValueSlot(raw));
    }

    method EndObject(mark: nat, pairs: nat) returns (r: Option<DriveError>)
      requires depth > 0 && mark <= |stack| && mark < SINK_STACK_MAX
      modifies this
      ensures depth == old(depth) - 1
      ensures var hash := HashOf(old(stack)[mark..]);
              if !allowDuplicateKey && |hash| < pairs
              then r == Some(DuplicateKey) && stack == old(stack)[..mark]
              else r == None && stack == old(stack)[..mark] + [ValueSlot(Dict(hash))]
    {
      depth := depth - 1;
      var hash := HashOf(stack[mark..]);
      stack := stack[..mark];
      if !allowDuplicateKey && |hash| < pairs {
        return Some(DuplicateKey);
      }
      r := Push(ValueSlot(Dict(hash)));
    }
  }

  /**
    A document's events, fed to the sink. Below the ceiling, on any stack, it leaves that
    stack plus exactly the document's value, or stops where the reference says; slots that
    were there before are never touched.
   */
  method DriveValue(c: Codec, n: Node, sink: ValueSink) returns (r: Option<DriveError>)
    requires sink.depth <= sink.maxNesting && |sink.stack| + Peak(n) <= SINK_STACK_MAX
    modifies sink
    ensures r == Outcome(c, n, sink.maxNesting - old(sink.depth), RefusedRepeat(sink.allowDuplicateKey))
    ensures r.None? ==> sink.depth == old(sink.depth) && sink.stack == old(sink.stack) + [ValueSlot(ValueOf(c, n))]
    ensures |old(sink.stack)| <= |sink.stack| && sink.stack[..|old(sink.stack)|] == old(sink.stack)
    decreases n
  {
    hide Outcome, OutcomeFrom, KeyOf, ValueOf, ValuesOf, Peak, PeakFrom, HashOf, MapOf, Distinct, EntrySlots;
    ghost var repeats := RefusedRepeat(sink.allowDuplicateKey);
    ghost var room := sink.maxNesting - sink.depth;
    ghost var below := sink.stack;
    if n.Leaf? {
      OutcomeLeaf(c, n, room, repeats);
      if n == HOLE {
        return Some(Malformed);
      }
      LeafValue(c, n);
      r := sink.Push(ValueSlot(Atom(c.scalar(n.text))));
      return;
    }
    OutcomeGroup(c, n, room, repeats);
    PeakGroup(n);
    r := sink.Begin();
    if r.Some? {
      return;
    }
    var mark := |sink.stack|;
    assert below + EntrySlots(c, n, 0) == below by { NoSlots(c, n); }
    for i := 0 to |n.entries|
      invariant sink.depth == old(sink.depth) + 1 && sink.depth <= sink.maxNesting
      invariant sink.stack == below + EntrySlots(c, n, i)
      invariant Outcome(c, n, room, repeats) == OutcomeFrom(c, n, i, room - 1, repeats)
      invariant |below| + PeakFrom(n, i) <= SINK_STACK_MAX
    {
      OutcomeStep(c, n, i, room - 1, repeats);
      PeakStep(n, i);
      EntrySlotsLength(c, n, i);
      if n.obj {
        r := sink.Push(KeySlot(KeyOf(c, n.entries[i])));
      }
      assert n.entries[i].value < n;
      r := DriveValue(c, n.entries[i].value, sink);
      if r.Some? {
        return;
      }
      NextSlots(c, n, i, below);
    }
    OutcomeStep(c, n, |n.entries|, room - 1, repeats);
    GroupValue(c, n, below);
    if n.obj {
      r := sink.EndObject(mark, |n.entries|);
    } else {
      r := sink.EndArray(mark);
    }
  }

  lemma LeafValue(c: Codec, n: Node)
    requires n.Leaf?
    ensures ValueOf(c, n) == Atom(c.scalar(n.text)) && Peak(n) == 1
  {
  }

  lemma NoSlots(c: Codec, n: Node)
    requires n.Group?
    ensures EntrySlots(c, n, 0) == []
  {
  }

  lemma NextSlots(c: Codec, n: Node, i: nat, below: seq<Slot>)
    requires n.Group? && i < |n.entries|
    ensures below + EntrySlots(c, n, i) + (if n.obj then [KeySlot(KeyOf(c, n.entries[i]))] else [])
            + [ValueSlot(ValueOf(c, n.entries[i].value))] == below + EntrySlots(c, n, i + 1)
    ensures !n.obj ==> below + EntrySlots(c, n, i) + [ValueSlot(ValueOf(c, n.entries[i].value))] == below + EntrySlots(c, n, i + 1)
  {
    hide ValueOf, KeyOf;
  }

  /** The slots of all entries build the group's value, and their count tells a repeat. */
  lemma GroupValue(c: Codec, n: Node, below: seq<Slot>)
    requires n.Group?
    ensures var all := below + EntrySlots(c, n, |n.entries|);
            && all[..|below|] == below
            && var slice := all[|below|..];
            && (n.obj ==> ValueOf(c, n) == Dict(HashOf(slice)) && (|HashOf(slice)| < |n.entries| <==> !Distinct(Keys(c, n.entries))))
            && (!n.obj ==> ValueOf(c, n) == List(ListOf(slice)))
  {
    hide ValueOf, KeyOf, ValuesOf, HashOf, MapOf, Distinct, EntrySlots;
    var slots := EntrySlots(c, n, |n.entries|);
    assert (below + slots)[|below|..] == slots;
    ValueOfGroup(c, n);
    var ks, vs := Keys(c, n.entries), ValuesOf(c, n.entries);
    assert ks[..|ks|] == ks && vs[..|vs|] == vs;
    if n.obj {
      HashOfEntries(c, n, |n.entries|);
      SizeTellsRepeat(ks, vs);
    } else {
      ListOfEntries(c, n, |n.entries|);
    }
  }

  /** What a parse into values accepts: a document whose nesting fits and, unless allowed, whose keys do not repeat. */
  lemma DriveAccepts(c: Codec, s: bytes, room: nat, allow: bool)
    ensures TextOutcome(c, s, room, RefusedRepeat(allow)).None? <==>
            ParseDoc(s).Some? && Depth(ReadRoot(s)) <= room && (allow || Unique(c, ReadRoot(s)))
  {
    hide TextOutcome, Clean, Unique, Depth, ParseDoc, ReadRoot;
    TextOutcomeNone(c, s, room, RefusedRepeat(allow));
    CleanNever(c, ReadRoot(s));
    CleanExact(c, ReadRoot(s));
  }

  /** Every stretch of the source keeps the stack below the ceiling. */
  ghost predicate BelowCeiling(source: bytes) {
    forall a, b :: 0 <= a <= b <= |source| ==> Peak(ReadRoot(source[a..b])) <= SINK_STACK_MAX
  }

  /** Text shorter than the ceiling, 2^26 slots, never reaches it, well-formed or not. */
  lemma ShortTextFits(source: bytes)
    requires |source| < 67108864
    ensures BelowCeiling(source)
  {
    hide Peak, ReadRoot, WsLen;
    forall a, b | 0 <= a <= b <= |source|
      ensures Peak(ReadRoot(source[a..b])) <= SINK_STACK_MAX
    {
      RootPeak(source[a..b]);
    }
  }

  lemma RootPeak(s: bytes)
    ensures Peak(ReadRoot(s)) <= |s| + 1
  {
    hide Peak, MendNode;
    PeakOfNode(s[WsLen(s)..]);
  }

  /**
    `materialize_at`, on any stretch of text: parse `source[start..end]` over the cleared
    stack and pop the root. It stops with the first refusal or fault a drive meets, and
    otherwise gives the document's value.
   */
  method MaterializeAt(c: Codec, source: bytes, start: nat, end: nat, stack: seq<Slot>, maxNesting: nat, allow: bool)
    returns (r: Result<Value, DriveError>)
    requires start <= end <= |source| && Peak(ReadRoot(source[start..end])) <= SINK_STACK_MAX
    ensures var slice := source[start..end];
            var stop := TextOutcome(c, slice, maxNesting, RefusedRepeat(allow));
            && (stop.Some? ==> r == Err(stop.value))
            && (stop.None? ==> ParseDoc(slice).Some? && r == Ok(ValueOf(c, ReadRoot(slice))))
  {
    hide ParseDoc, Outcome, ValueOf, Peak, RefusedRepeat, ReadRoot;
    var slice := source[start..end];
    var cleared: seq<Slot> := stack[..0];
    var sink := new ValueSink(cleared, maxNesting, allow);
    var stop := DriveValue(c, ReadRoot(slice), sink);
    if stop.Some? {
      return Err(stop.value);
    }
    if ParseDoc(slice).None? {
      return Err(Malformed);
    }
    var top := sink.stack[|sink.stack| - 1];
    sink.stack := sink.stack[..|sink.stack| - 1];
    r := Ok(top.value);
  }
}
