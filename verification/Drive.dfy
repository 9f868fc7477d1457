/** The check, confirm and redrive protocol of `drive_hashless` in ext/nosj/src/parse.rs. */
module Drive {
  import opened Bytes
  import opened Syntax
  import opened Values
  import opened Edits
  import opened Grammar
  import opened Mended
  import opened SeenTables
  import opened DupKeyStack
  import opened Sinks
  import opened ValueSinks
  import opened Tree
  import opened Paths
  import opened Locate

  /** One parse of any text into a fresh null sink over the pooled scratch. */
  method DriveOnce(c: Codec, input: bytes, maxNesting: nat, check: bool, hash: bytes -> Fingerprint, scratch: DupScratch)
    returns (r: Option<DriveError>)
    requires scratch.table.Valid()
    modifies scratch`fingerprints, scratch.table, scratch.table.slots
    ensures scratch.table.Valid()
    ensures r == TextOutcome(c, input, maxNesting, HashRepeat(hash, check))
  {
    hide ParseDoc, Outcome, ReadRoot;
    var dup := new DupKeys(scratch, check, hash);
    var sink := new NullSink(maxNesting, dup);
    r := DriveNull(c, ReadRoot(input), sink);
    if r.None? && ParseDoc(input).None? {
      r := Some(Malformed);
    }
  }

  /**
    `drive_hashless`, on any text. Whatever the hash, however often it collides and whatever
    state the scratch is in, it accepts exactly the documents that nest within the limit
    and, unless allowed, repeat no key. A duplicate it reports stands unless the re-walk
    reads the whole root and finds none; where the text breaks off first, it stands.
   */
  method DriveHashless(c: Codec, input: bytes, maxNesting: nat, allow: bool, hash: bytes -> Fingerprint, scratch: DupScratch)
    returns (r: Option<DriveError>)
    requires scratch.table.Valid()
    modifies scratch`fingerprints, scratch.table, scratch.table.slots
    ensures scratch.table.Valid()
    ensures r.None? <==>
              && TextOutcome(c, input, maxNesting, HashRepeat(hash, false)).None?
              && (allow || Unique(c, ReadRoot(input)))
    ensures r.None? <==> TextOutcome(c, input, maxNesting, RefusedRepeat(allow)).None?
    ensures var first := TextOutcome(c, input, maxNesting, HashRepeat(hash, !allow));
            if first == Some(DuplicateKey) && Search(c, ReadRoot(input)).Nothing?
            then r == TextOutcome(c, input, maxNesting, HashRepeat(hash, false)) else r == first
  {
    hide ParseDoc, TextOutcome, Unique, Depth, Clean, HashRepeat, RefusedRepeat, ReadRoot, Search, NoHole;
    ghost var n := ReadRoot(input);
    TextOutcomeNone(c, input, maxNesting, HashRepeat(hash, !allow));
    TextOutcomeNone(c, input, maxNesting, HashRepeat(hash, false));
    CleanUnchecked(c, n, hash);
    DriveAccepts(c, input, maxNesting, allow);
    if !allow && Clean(c, n, HashRepeat(hash, true)) {
      CleanHash(c, n, hash);
    }
    ghost var first := TextOutcome(c, input, maxNesting, HashRepeat(hash, !allow));
    if first.Some? && first != Some(DuplicateKey) {
      RefusedForGood(c, input, maxNesting, HashRepeat(hash, !allow));
    }
    UncheckedNeverRepeats(c, input, maxNesting, hash);
    if ParseDoc(input).Some? {
      ReadRootIs(input);
    }
    r := DriveOnce(c, input, maxNesting, !allow, hash, scratch);
    if r == Some(DuplicateKey) {
      var repeat := Locate.DuplicateKey(c, input);
      if repeat.Absent? {
        r := DriveOnce(c, input, maxNesting, false, hash, scratch);
      }
    }
  }

  /** A stop that is not for a duplicate is one whatever counts as a repeat. */
  lemma RefusedForGood(c: Codec, input: bytes, room: nat, repeats: seq<bytes> -> bool)
    requires TextOutcome(c, input, room, repeats).Some? && TextOutcome(c, input, room, repeats) != Some(DuplicateKey)
    ensures ParseDoc(input).None? || Depth(ReadRoot(input)) > room
  {
    hide ParseDoc, Outcome, Depth, ReadRoot, NoHole;
    if ParseDoc(input).Some? {
      ReadRootIs(input);
      StopIsReal(c, ReadRoot(input), room, repeats);
    }
  }

  lemma UncheckedNeverRepeats(c: Codec, input: bytes, room: nat, hash: bytes -> Fingerprint)
    ensures TextOutcome(c, input, room, HashRepeat(hash, false)) != Some(DuplicateKey)
  {
    hide ParseDoc, Outcome, ReadRoot, Clean, HashRepeat;
    if TextOutcome(c, input, room, HashRepeat(hash, false)) == Some(DuplicateKey) {
      DuplicateIsRepeat(c, ReadRoot(input), room, HashRepeat(hash, false));
      CleanUnchecked(c, ReadRoot(input), hash);
    }
  }

  /**
    In text that breaks off before any object repeats a key, a collision before the break is
    still reported as a duplicate: no object that is there to its end repeats one.
   */
  lemma CollisionBeforeFault(c: Codec, input: bytes, q: seq<nat>)
    requires Search(c, ReadRoot(input)).Fault? && ValidPath(ReadRoot(input), q) && Whole(ReadRoot(input), q)
    ensures NoRepeatAt(c, ReadRoot(input), q) && ParseDoc(input).None?
  {
    hide ReadRoot, Search, ParseDoc, Unique, NoHole, Whole, At, ValidPath;
    FaultIsFirst(c, ReadRoot(input), q);
    FaultHasHole(c, ReadRoot(input));
    if ParseDoc(input).Some? {
      ReadRootIs(input);
    }
  }

  // ----- where a failure is reported -----

  /** Of two containers one closes first, unless they are the same. */
  lemma {:induction false} OneClosesFirst(p: seq<nat>, q: seq<nat>)
    ensures ClosesBefore(p, q) || ClosesBefore(q, p) || p == q
  {
    if p != [] && q != [] && p[0] == q[0] {
      OneClosesFirst(p[1..], q[1..]);
      assert p == [p[0]] + p[1..] && q == [q[0]] + q[1..];
    }
  }

  lemma FirstIsNotLater(c: Codec, n: Node, p: seq<nat>, q: seq<nat>, repeats: seq<bytes> -> bool)
    requires FirstRefused(c, n, p, 0, repeats) && FirstRefused(c, n, q, 0, repeats)
    ensures !ClosesBefore(p, q)
  {
    hide At, ValidPath, ClosesBefore, Keys;
  }

  lemma FirstIsOne(c: Codec, n: Node, p: seq<nat>, q: seq<nat>, repeats: seq<bytes> -> bool)
    requires FirstRefused(c, n, p, 0, repeats) && FirstRefused(c, n, q, 0, repeats)
    ensures p == q
  {
    hide FirstRefused, ClosesBefore;
    OneClosesFirst(p, q);
    FirstIsNotLater(c, n, p, q, repeats);
    FirstIsNotLater(c, n, q, p, repeats);
  }

  lemma {:induction false} DuplicateIsFound(c: Codec, n: Node, room: nat)
    requires Outcome(c, n, room, ExactRepeat()) == Some(DuplicateKey)
    ensures Search(c, n).Repeats?
    decreases n, 0
  {
    hide Outcome, OutcomeFrom, Search, SearchFrom;
    if n.Leaf? {
      OutcomeLeaf(c, n, room, ExactRepeat());
    } else {
      OutcomeGroup(c, n, room, ExactRepeat());
      SearchGroup(c, n);
      DuplicateIsFoundFrom(c, n, 0, room - 1);
    }
  }

  lemma {:induction false} DuplicateIsFoundFrom(c: Codec, n: Node, i: nat, room: nat)
    requires n.Group? && i <= |n.entries| && OutcomeFrom(c, n, i, room, ExactRepeat()) == Some(DuplicateKey)
    ensures SearchFrom(c, n, i).Repeats?
    decreases n.entries, |n.entries| - i
  {
    hide Outcome, OutcomeFrom, Search, SearchFrom, FirstRepeat, Distinct, Keys, Unique, NoHole, Clean, Depth;
    OutcomeStep(c, n, i, room, ExactRepeat());
    SearchStep(c, n, i);
    if i == |n.entries| {
      RepeatIffNotDistinct(Keys(c, n.entries));
    } else {
      var child := n.entries[i].value;
      if Outcome(c, child, room, ExactRepeat()).Some? {
        DuplicateIsFound(c, child, room);
      } else {
        OutcomeNone(c, child, room, ExactRepeat());
        CleanExact(c, child);
        SearchFindsAll(c, child);
        DuplicateIsFoundFrom(c, n, i + 1, room);
      }
    }
  }

  /**
    The object the cold re-walk finds is the one at whose close the drive stopped: the first
    in close order that repeats a key, and there is one such object only.
   */
  lemma RewalkFindsAbort(c: Codec, n: Node, room: nat)
    requires Outcome(c, n, room, RefusedRepeat(false)) == Some(DuplicateKey)
    ensures Search(c, n).Repeats? && FirstRefused(c, n, Search(c, n).path, 0, ExactRepeat())
    ensures forall p :: FirstRefused(c, n, p, 0, ExactRepeat()) ==> p == Search(c, n).path
  {
    hide Outcome, Search, At, ValidPath, ClosesBefore, FirstRepeat, Distinct, Keys, Whole;
    DuplicateIsFound(c, n, room);
    SearchIsRepeat(c, n);
    var path := Search(c, n).path;
    RepeatIffNotDistinct(Keys(c, At(n, path).entries));
    forall q | ValidPath(n, q) && ClosesBefore(q, path)
      ensures CleanAt(c, n, q, ExactRepeat())
    {
      SearchIsFirst(c, n, q);
    }
    assert FirstRefused(c, n, path, 0, ExactRepeat());
    forall p | FirstRefused(c, n, p, 0, ExactRepeat())
      ensures p == path
    {
      FirstIsOne(c, n, p, path, ExactRepeat());
    }
  }

  /**
    `drive_error`'s position. `faultAt` is where, inside the slice it was given, the parser
    stopped; every position comes out absolute. A duplicate is placed at the opening brace
    of the object that repeats the key, also in a slice that is malformed further on. It goes
    without a position only where the re-walk finds no repeat, so only after a collision.
   */
  method FaultPosition(c: Codec, source: bytes, start: nat, end: nat, fault: DriveError, faultAt: bytes -> nat, ghost room: nat)
    returns (at: Option<nat>)
    requires start <= end <= |source|
    ensures fault == Malformed ==> at == Some(start + faultAt(source[start..end]))
    ensures fault == Overflow || fault == TooDeep ==> at == None
    ensures fault == DuplicateKey ==> (at.Some? <==> Search(c, ReadRoot(source[start..end])).Repeats?)
    ensures fault == DuplicateKey && at.Some? ==>
              var root := ReadRoot(source[start..end]);
              var Repeats(path, key) := Search(c, root);
              && RepeatsAt(c, root, path, key)
              && at == Some(start + StartIn(source[start..end], path))
              && start <= at.value < end && source[at.value] == LBRACE
    ensures fault == DuplicateKey && TextOutcome(c, source[start..end], room, RefusedRepeat(false)) == Some(DuplicateKey) ==> at.Some?
  {
    hide ReadRoot, Search, RepeatsAt, StartIn, Outcome, ParseDoc, Unique, NoHole, FirstRefused;
    var driven := source[start..end];
    if fault == Malformed {
      return Some(start + faultAt(driven));
    }
    if fault != DuplicateKey {
      return None;
    }
    if TextOutcome(c, driven, room, RefusedRepeat(false)) == Some(DuplicateKey) {
      RewalkFindsAbort(c, ReadRoot(driven), room);
    }
    var repeat := Locate.DuplicateKey(c, driven);
    match repeat {
      case Absent => at := None;
      case Undecided => at := None;
      case Found(offset, key) =>
        ghost var hit := Search(c, ReadRoot(driven));
        FoundBrace(c, driven, hit.path, hit.key);
        BraceInSlice(c, driven, hit.path, hit.key);
        at := Some(start + offset);
    }
  }

  lemma BraceInSlice(c: Codec, s: bytes, path: seq<nat>, key: bytes)
    requires RepeatsAt(c, ReadRoot(s), path, key)
    ensures ValidPath(ReadRoot(s), path)
  {
    hide ReadRoot, At, Keys, FirstRepeat, Whole, ValidPath;
  }
}
