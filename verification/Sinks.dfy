/**
  The sinks of ext/nosj/src/sink.rs, driven over a document's events: the null sink that
  only detects, and the sink that builds values on a stack. Both stop where `Outcome` says.
 */
module Sinks {
  import opened Bytes
  import opened Syntax
  import opened Values
  import opened SeenTables
  import opened DupKeyStack
  import opened Tree
  import opened Paths
  import opened Grammar
  import opened Mended
  import opened Locate

  /** Why a drive stopped: a refusal by the sink, or a fault the parser met first. */
  datatype DriveError = Overflow | TooDeep | DuplicateKey | Malformed

  // ----- the reference: where a drive stops -----

  /**
    What stops a drive over `n` first, in the order containers open and close: nesting past
    `room`, an object closing with keys for which `repeats` holds, or a hole.
   */
  ghost function Outcome(c: Codec, n: Node, room: nat, repeats: seq<bytes> -> bool): Option<DriveError>
    decreases n, 0
  {
    if n == HOLE then Some(Malformed)
    else if n.Leaf? then None
    else if room == 0 then Some(TooDeep)
    else OutcomeFrom(c, n, 0, room - 1, repeats)
  }

  ghost function OutcomeFrom(c: Codec, n: Node, i: nat, room: nat, repeats: seq<bytes> -> bool): Option<DriveError>
    requires n.Group? && i <= |n.entries|
    decreases n.entries, |n.entries| - i
  {
    if i == |n.entries| then
      if n.obj && repeats(Keys(c, n.entries)) then Some(DuplicateKey) else None
    else
      var inside := Outcome(c, n.entries[i].value, room, repeats);
      if inside.Some? then inside else OutcomeFrom(c, n, i + 1, room, repeats)
  }

  lemma OutcomeLeaf(c: Codec, n: Node, room: nat, repeats: seq<bytes> -> bool)
    requires n.Leaf?
    ensures Outcome(c, n, room, repeats) == if n == HOLE then Some(Malformed) else None
  {
  }

  lemma OutcomeGroup(c: Codec, n: Node, room: nat, repeats: seq<bytes> -> bool)
    requires n.Group?
    ensures Outcome(c, n, room, repeats) ==
            if room == 0 then Some(TooDeep) else OutcomeFrom(c, n, 0, room - 1, repeats)
  {
    hide OutcomeFrom;
  }

  lemma OutcomeStep(c: Codec, n: Node, i: nat, room: nat, repeats: seq<bytes> -> bool)
    requires n.Group? && i <= |n.entries|
    ensures OutcomeFrom(c, n, i, room, repeats) ==
            if i == |n.entries| then
              if n.obj && repeats(Keys(c, n.entries)) then Some(DuplicateKey) else None
            else
              var inside := Outcome(c, n.entries[i].value, room, repeats);
              if inside.Some? then inside else OutcomeFrom(c, n, i + 1, room, repeats)
  {
    hide Outcome, Keys;
  }

  /** No object in `n` has keys for which `repeats` holds. */
  ghost predicate Clean(c: Codec, n: Node, repeats: seq<bytes> -> bool)
    decreases n
  {
    match n
    case Leaf(_) => true
    case Group(obj, _, es) =>
      && (obj ==> !repeats(Keys(c, es)))
      && forall i :: 0 <= i < |es| ==> Clean(c, es[i].value, repeats)
  }

  /** A drive goes through exactly when nothing is missing, nesting fits and no object repeats. */
  lemma {:induction false} OutcomeNone(c: Codec, n: Node, room: nat, repeats: seq<bytes> -> bool)
    ensures Outcome(c, n, room, repeats).None? <==> NoHole(n) && Depth(n) <= room && Clean(c, n, repeats)
    decreases n, 0
  {
    hide Outcome, OutcomeFrom, Depth, DepthOf, Keys;
    DepthOfNode(n);
    if n.Leaf? {
      OutcomeLeaf(c, n, room, repeats);
    } else {
      OutcomeGroup(c, n, room, repeats);
      if room > 0 {
        DepthOfBound(n.entries, room - 1);
        OutcomeFromNone(c, n, 0, room - 1, repeats);
      }
    }
  }

  lemma {:induction false} OutcomeFromNone(c: Codec, n: Node, i: nat, room: nat, repeats: seq<bytes> -> bool)
    requires n.Group? && i <= |n.entries|
    ensures OutcomeFrom(c, n, i, room, repeats).None? <==>
            && (n.obj ==> !repeats(Keys(c, n.entries)))
            && forall j :: i <= j < |n.entries| ==>
                 && NoHole(n.entries[j].value) && Depth(n.entries[j].value) <= room
                 && Clean(c, n.entries[j].value, repeats)
    decreases n.entries, |n.entries| - i
  {
    hide Outcome, OutcomeFrom, Depth, Clean, Keys, NoHole;
    OutcomeStep(c, n, i, room, repeats);
    if i < |n.entries| {
      OutcomeNone(c, n.entries[i].value, room, repeats);
      OutcomeFromNone(c, n, i + 1, room, repeats);
    }
  }

  /** A drive that stops for anything but a duplicate met nesting past the limit, or a hole. */
  lemma {:induction false} StopIsReal(c: Codec, n: Node, room: nat, repeats: seq<bytes> -> bool)
    requires Outcome(c, n, room, repeats).Some? && Outcome(c, n, room, repeats) != Some(DuplicateKey)
    ensures Outcome(c, n, room, repeats) == Some(TooDeep) ==> Depth(n) > room
    ensures Outcome(c, n, room, repeats) != Some(TooDeep) ==> Outcome(c, n, room, repeats) == Some(Malformed) && !NoHole(n)
    decreases n, 0
  {
    hide Outcome, OutcomeFrom, Depth, DepthOf;
    DepthOfNode(n);
    if n.Leaf? {
      OutcomeLeaf(c, n, room, repeats);
    } else {
      OutcomeGroup(c, n, room, repeats);
      if room > 0 {
        var j := StopInside(c, n, 0, room - 1, repeats);
        DepthOfBound(n.entries, room - 1);
      }
    }
  }

  lemma {:induction false} StopInside(c: Codec, n: Node, i: nat, room: nat, repeats: seq<bytes> -> bool) returns (j: nat)
    requires n.Group? && i <= |n.entries|
    requires OutcomeFrom(c, n, i, room, repeats).Some? && OutcomeFrom(c, n, i, room, repeats) != Some(DuplicateKey)
    ensures i <= j < |n.entries|
    ensures OutcomeFrom(c, n, i, room, repeats) == Some(TooDeep) ==> Depth(n.entries[j].value) > room
    ensures OutcomeFrom(c, n, i, room, repeats) != Some(TooDeep) ==>
              OutcomeFrom(c, n, i, room, repeats) == Some(Malformed) && !NoHole(n.entries[j].value)
    decreases n.entries, |n.entries| - i
  {
    hide Outcome, OutcomeFrom, Depth, Keys, NoHole;
    OutcomeStep(c, n, i, room, repeats);
    if i < |n.entries| && Outcome(c, n.entries[i].value, room, repeats).Some? {
      StopIsReal(c, n.entries[i].value, room, repeats);
      j := i;
    } else {
      j := StopInside(c, n, i + 1, room, repeats);
    }
  }

  /** A drive stops for a duplicate only where some object repeats. */
  lemma DuplicateIsRepeat(c: Codec, n: Node, room: nat, repeats: seq<bytes> -> bool)
    requires Outcome(c, n, room, repeats) == Some(DuplicateKey)
    ensures !Clean(c, n, repeats)
  {
    hide Outcome, Clean, ValidPath, At;
    var p := DuplicateIsFirst(c, n, room, repeats);
    if Clean(c, n, repeats) {
      CleanEverywhere(c, n, p, repeats);
    }
  }

  ghost predicate CleanAt(c: Codec, n: Node, q: seq<nat>, repeats: seq<bytes> -> bool)
    requires ValidPath(n, q)
  {
    At(n, q).Group? && At(n, q).obj ==> !repeats(Keys(c, At(n, q).entries))
  }

  lemma {:induction false} CleanEverywhere(c: Codec, n: Node, q: seq<nat>, repeats: seq<bytes> -> bool)
    requires Clean(c, n, repeats) && ValidPath(n, q)
    ensures CleanAt(c, n, q, repeats)
    decreases |q|
  {
    hide Keys;
    if q != [] {
      CleanEverywhere(c, n.entries[q[0]].value, q[1..], repeats);
    }
  }

  /** `p` is an object that repeats, and no object that closes before it does. */
  ghost predicate FirstRefused(c: Codec, n: Node, p: seq<nat>, from: nat, repeats: seq<bytes> -> bool) {
    && ValidPath(n, p) && At(n, p).Group? && At(n, p).obj && repeats(Keys(c, At(n, p).entries))
    && forall q :: ValidPath(n, q) && (q == [] || q[0] >= from) && ClosesBefore(q, p) ==> CleanAt(c, n, q, repeats)
  }

  /** A duplicate is refused at the first object, in the order objects close, that repeats. */
  lemma {:induction false} DuplicateIsFirst(c: Codec, n: Node, room: nat, repeats: seq<bytes> -> bool) returns (p: seq<nat>)
    requires Outcome(c, n, room, repeats) == Some(DuplicateKey)
    ensures FirstRefused(c, n, p, 0, repeats)
    decreases n, 0
  {
    hide Outcome, OutcomeFrom, FirstRefused;
    if n.Leaf? {
      OutcomeLeaf(c, n, room, repeats);
    } else {
      OutcomeGroup(c, n, room, repeats);
    }
    p := DuplicateInside(c, n, 0, room - 1, repeats);
  }

  lemma {:induction false} DuplicateInside(c: Codec, n: Node, i: nat, room: nat, repeats: seq<bytes> -> bool) returns (p: seq<nat>)
    requires n.Group? && i <= |n.entries| && OutcomeFrom(c, n, i, room, repeats) == Some(DuplicateKey)
    ensures FirstRefused(c, n, p, i, repeats) && (p == [] || p[0] >= i)
    decreases n.entries, |n.entries| - i
  {
    hide Outcome, OutcomeFrom, Keys, Depth, Clean, CleanAt;
    OutcomeStep(c, n, i, room, repeats);
    if i == |n.entries| {
      p := [];
    } else {
      var child := n.entries[i].value;
      if Outcome(c, child, room, repeats).Some? {
        var inner := DuplicateIsFirst(c, child, room, repeats);
        p := [i] + inner;
        FirstUnder(c, n, i, inner, repeats);
      } else {
        OutcomeNone(c, child, room, repeats);
        p := DuplicateInside(c, n, i + 1, room, repeats);
        FirstPast(c, n, i, p, repeats);
      }
    }
  }

  lemma FirstUnder(c: Codec, n: Node, i: nat, inner: seq<nat>, repeats: seq<bytes> -> bool)
    requires n.Group? && i < |n.entries| && FirstRefused(c, n.entries[i].value, inner, 0, repeats)
    ensures FirstRefused(c, n, [i] + inner, i, repeats)
  {
    hide Keys;
    var p := [i] + inner;
    assert p[1..] == inner;
    forall q | ValidPath(n, q) && (q == [] || q[0] >= i) && ClosesBefore(q, p)
      ensures CleanAt(c, n, q, repeats)
    {
      assert q[0] == i;
      assert |p| < |q| && q[..|p|] == p ==> q[1..][..|inner|] == inner;
      assert ClosesBefore(q[1..], inner);
      assert CleanAt(c, n.entries[i].value, q[1..], repeats);
    }
  }

  lemma FirstPast(c: Codec, n: Node, i: nat, p: seq<nat>, repeats: seq<bytes> -> bool)
    requires n.Group? && i < |n.entries| && FirstRefused(c, n, p, i + 1, repeats)
    requires Clean(c, n.entries[i].value, repeats)
    ensures FirstRefused(c, n, p, i, repeats)
  {
    hide Keys, ClosesBefore;
    forall q | ValidPath(n, q) && (q == [] || q[0] >= i) && ClosesBefore(q, p)
      ensures CleanAt(c, n, q, repeats)
    {
      if q != [] && q[0] == i {
        CleanEverywhere(c, n.entries[i].value, q[1..], repeats);
        assert CleanAt(c, n.entries[i].value, q[1..], repeats);
      }
    }
  }

  // ----- what counts as a repeat -----

  function Hashes(hash: bytes -> Fingerprint, ks: seq<bytes>): (fs: seq<Fingerprint>)
    ensures |fs| == |ks|
  {
    seq(|ks|, i requires 0 <= i < |ks| => hash(ks[i]))
  }

  /** Equal keys. */
  ghost function ExactRepeat(): seq<bytes> -> bool {
    (ks: seq<bytes>) => !Distinct(ks)
  }

  /** Keys with equal fingerprints, when the check is on. */
  ghost function HashRepeat(hash: bytes -> Fingerprint, check: bool): seq<bytes> -> bool {
    (ks: seq<bytes>) => check && HasRepeat(Hashes(hash, ks))
  }

  lemma {:induction false} CleanExact(c: Codec, n: Node)
    ensures Clean(c, n, ExactRepeat()) <==> Unique(c, n)
    decreases n
  {
    hide Keys, Distinct;
    if n.Group? {
      forall i | 0 <= i < |n.entries|
        ensures Clean(c, n.entries[i].value, ExactRepeat()) <==> Unique(c, n.entries[i].value)
      {
        CleanExact(c, n.entries[i].value);
      }
    }
  }

  /** Equal keys have equal fingerprints: the detector misses nothing, whatever the hash. */
  lemma {:induction false} CleanHash(c: Codec, n: Node, hash: bytes -> Fingerprint)
    requires Clean(c, n, HashRepeat(hash, true))
    ensures Unique(c, n)
    decreases n
  {
    hide Keys;
    if n.Group? {
      if n.obj {
        EqualKeysCollide(hash, Keys(c, n.entries));
      }
      forall i | 0 <= i < |n.entries|
        ensures Unique(c, n.entries[i].value)
      {
        CleanHash(c, n.entries[i].value, hash);
      }
    }
  }

  lemma EqualKeysCollide(hash: bytes -> Fingerprint, ks: seq<bytes>)
    requires !HasRepeat(Hashes(hash, ks))
    ensures Distinct(ks)
  {
    var fs := Hashes(hash, ks);
    forall i, j | 0 <= i < j < |ks|
      ensures ks[i] != ks[j]
    {
      assert fs[i] != fs[j];
    }
  }

  lemma {:induction false} CleanUnchecked(c: Codec, n: Node, hash: bytes -> Fingerprint)
    ensures Clean(c, n, HashRepeat(hash, false))
    decreases n
  {
    hide Keys;
    if n.Group? {
      forall i | 0 <= i < |n.entries|
        ensures Clean(c, n.entries[i].value, HashRepeat(hash, false))
      {
        CleanUnchecked(c, n.entries[i].value, hash);
      }
    }
  }

  // ----- whole texts -----

  /**
    What stops a drive over a text: what stops it inside the root, or else text after it that
    is not whitespace.
   */
  ghost function TextOutcome(c: Codec, s: bytes, room: nat, repeats: seq<bytes> -> bool): Option<DriveError> {
    var inside := Outcome(c, ReadRoot(s), room, repeats);
    if inside.None? && ParseDoc(s).None? then Some(Malformed) else inside
  }

  /** A drive accepts a text exactly when it is a document whose nesting fits and whose objects do not repeat. */
  lemma TextOutcomeNone(c: Codec, s: bytes, room: nat, repeats: seq<bytes> -> bool)
    ensures TextOutcome(c, s, room, repeats).None? <==>
            ParseDoc(s).Some? && Depth(ReadRoot(s)) <= room && Clean(c, ReadRoot(s), repeats)
  {
    hide Outcome, ParseDoc, ReadRoot, Depth, Clean, NoHole;
    OutcomeNone(c, ReadRoot(s), room, repeats);
    if ParseDoc(s).Some? {
      ReadRootIs(s);
    }
  }

  /** Nesting past the limit stops the drive where it is opened, whatever the text holds further on. */
  lemma {:induction false} NestingComesFirst(c: Codec, s: bytes, room: nat, repeats: seq<bytes> -> bool)
    requires |s| > room && forall i :: 0 <= i <= room ==> s[i] == LBRACKET
    ensures Outcome(c, MendNode(s), room, repeats) == Some(TooDeep)
    ensures TextOutcome(c, s, room, repeats) == Some(TooDeep)
    decreases room
  {
    hide Outcome, OutcomeFrom, MendNode, ParseDoc;
    assert WsLen(s) == 0 && s[0..] == s;
    OpensArray(s);
    var n := MendNode(s);
    OutcomeGroup(c, n, room, repeats);
    if room > 0 {
      FirstElement(s);
      NestingComesFirst(c, s[1..], room - 1, repeats);
      OutcomeStep(c, n, 0, room - 1, repeats);
    }
  }

  lemma OpensArray(s: bytes)
    requires s != [] && s[0] == LBRACKET
    ensures MendNode(s).Group? && !MendNode(s).obj
  {
    hide MendNode, ParseNode, MendEntries, ParseEntries, WsLen;
    MendStep(s);
    if ParseNode(s).Got? {
      NodeStep(s);
    }
  }

  lemma FirstElement(s: bytes)
    requires |s| > 1 && s[0] == LBRACKET && s[1] == LBRACKET
    ensures var n := MendNode(s); n.Group? && n.entries != [] && n.entries[0].value == MendNode(s[1..])
  {
    hide MendNode, ParseNode, MendEntries, ParseEntries, ParseEntry;
    MendStep(s);
    FirstInside(s[1..]);
    MendEntriesStep(false, s[1..]);
    if ParseNode(s).Got? {
      NodeStep(s);
      assert WsLen(s[1..]) == 0 && s[1..][0..] == s[1..];
      EntriesStep(false, s[1..]);
    }
  }

  lemma FirstInside(s: bytes)
    requires s != [] && s[0] == LBRACKET
    ensures ParseEntry(false, s).Got? ==> ParseEntry(false, s).value.value == MendNode(s)
    ensures ParseEntry(false, s).Fail? ==> MendEntry(false, s).value == MendNode(s)
  {
    hide MendNode, ParseNode;
    assert WsLen(s) == 0 && s[0..] == s;
    assert ParseLabel(false, s) == Got(Bare, s);
    MendStep(s);
  }

  // ----- the null sink -----

  class NullSink {
    var depth: nat
    const maxNesting: nat
    const dup: DupKeys

    constructor (maxNesting: nat, dup: DupKeys)
      ensures this.maxNesting == maxNesting && this.dup == dup && depth == 0
    {
      this.maxNesting, this.dup, depth := maxNesting, dup, 0;
    }

    ghost predicate Valid()
      reads this, dup, dup.scratch, dup.scratch.table, dup.scratch.table.slots
    {
      dup.Valid() && depth <= maxNesting
    }

    method Begin() returns (r: Option<DriveError>)
      requires depth <= maxNesting
      modifies this`depth
      ensures depth == old(depth) + 1
      ensures r == if depth > maxNesting then Some(TooDeep) else None
    {
      depth := depth + 1;
      r := if depth > maxNesting then Some(TooDeep) else None;
    }

    method EndArray()
      requires depth > 0
      modifies this`depth
      ensures depth == old(depth) - 1
    {
      depth := depth - 1;
    }

    method EndObject(mark: nat) returns (r: Option<DriveError>)
      requires depth > 0 && dup.Valid() && mark <= |dup.scratch.fingerprints|
      modifies this`depth, dup.scratch`fingerprints, dup.scratch.table, dup.scratch.table.slots
      ensures depth == old(depth) - 1 && dup.Valid()
      ensures r == if dup.enabled && HasRepeat(old(dup.scratch.fingerprints)[mark..]) then Some(DuplicateKey) else None
      ensures dup.scratch.fingerprints ==
              if dup.enabled then old(dup.scratch.fingerprints)[..mark] else old(dup.scratch.fingerprints)
    {
      depth := depth - 1;
      var repeated := dup.Close(mark);
      r := if repeated then Some(DuplicateKey) else None;
    }
  }

  /** The fingerprints of a group's first `i` keys, as the sink has pushed them. */
  function Pushed(c: Codec, n: Node, i: nat, hash: bytes -> Fingerprint, check: bool): seq<Fingerprint>
    requires n.Group? && i <= |n.entries|
  {
    if check && n.obj then Hashes(hash, Keys(c, n.entries)[..i]) else []
  }

  /**
    The events of a document, fed to the null sink in order. The drive stops exactly where
    the reference says. Until then the detector is a stack: whatever was on it before a
    value is there after it.
   */
  method DriveNull(c: Codec, n: Node, sink: NullSink) returns (r: Option<DriveError>)
    requires sink.Valid()
    modifies sink`depth, sink.dup.scratch`fingerprints, sink.dup.scratch.table, sink.dup.scratch.table.slots
    ensures sink.dup.Valid()
    ensures r == Outcome(c, n, sink.maxNesting - old(sink.depth), HashRepeat(sink.dup.hash, sink.dup.enabled))
    ensures r.None? ==> sink.depth == old(sink.depth) && sink.dup.scratch.fingerprints == old(sink.dup.scratch.fingerprints)
    decreases n, 0
  {
    hide Outcome, OutcomeFrom, HasRepeat, KeyOf;
    ghost var repeats := HashRepeat(sink.dup.hash, sink.dup.enabled);
    ghost var room := sink.maxNesting - sink.depth;
    if n.Leaf? {
      OutcomeLeaf(c, n, room, repeats);
      return if n == HOLE then Some(Malformed) else None;
    }
    OutcomeGroup(c, n, room, repeats);
    r := sink.Begin();
    if r.Some? {
      return;
    }
    var mark := sink.dup.Mark();
    ghost var below := sink.dup.scratch.fingerprints;
    assert below + Pushed(c, n, 0, sink.dup.hash, sink.dup.enabled) == below;
    for i := 0 to |n.entries|
      invariant sink.Valid() && sink.depth == old(sink.depth) + 1
      invariant sink.dup.scratch.fingerprints == below + Pushed(c, n, i, sink.dup.hash, sink.dup.enabled)
      invariant Outcome(c, n, room, repeats) == OutcomeFrom(c, n, i, room - 1, repeats)
    {
      OutcomeStep(c, n, i, room - 1, repeats);
      if n.obj {
        sink.dup.Key(KeyOf(c, n.entries[i]));
      }
      PushedNext(c, n, i, sink.dup.hash, sink.dup.enabled, below);
      assert n.entries[i].value < n;
      r := DriveNull(c, n.entries[i].value, sink);
      if r.Some? {
        return;
      }
    }
    OutcomeStep(c, n, |n.entries|, room - 1, repeats);
    PushedAll(c, n, sink.dup.hash, sink.dup.enabled, below);
    if n.obj {
      r := sink.EndObject(mark);
    } else {
      sink.EndArray();
      r := None;
    }
  }

  lemma PushedNext(c: Codec, n: Node, i: nat, hash: bytes -> Fingerprint, check: bool, below: seq<Fingerprint>)
    requires n.Group? && i < |n.entries|
    ensures below + Pushed(c, n, i, hash, check) + (if check && n.obj then [hash(KeyOf(c, n.entries[i]))] else [])
            == below + Pushed(c, n, i + 1, hash, check)
  {
  }

  lemma PushedAll(c: Codec, n: Node, hash: bytes -> Fingerprint, check: bool, below: seq<Fingerprint>)
    requires n.Group?
    ensures var all := below + Pushed(c, n, |n.entries|, hash, check);
            && all[..|below|] == below
            && (check && n.obj ==> all[|below|..] == Hashes(hash, Keys(c, n.entries)))
            && (!(check && n.obj) ==> all == below)
  {
    assert Keys(c, n.entries)[..|n.entries|] == Keys(c, n.entries);
  }
}
