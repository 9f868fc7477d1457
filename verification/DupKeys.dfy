/** Duplicate-key detection by fingerprints, for sinks that build no Hash: ext/nosj/src/sink.rs. */
module DupKeyStack {
  import opened Bytes
  import opened SeenTables
  import Sorting

  /** Objects up to this many keys compare pairwise. */
  const PAIRWISE_MAX: nat := 8

  function IdentityKey(): Fingerprint -> int {
    (x: Fingerprint) => x
  }

  // ----- the three strategies decide one predicate -----

  /** A repeat is an element that occurs at least twice, so order does not matter. */
  lemma RepeatCount(keys: seq<Fingerprint>)
    ensures HasRepeat(keys) <==> exists x :: multiset(keys)[x] >= 2
  {
    hide HasRepeat;
    if HasRepeat(keys) {
      RepeatCounts(keys);
    }
    if exists x :: multiset(keys)[x] >= 2 {
      var x :| multiset(keys)[x] >= 2;
      CountRepeats(keys, x);
    }
  }

  lemma RepeatCounts(keys: seq<Fingerprint>)
    requires HasRepeat(keys)
    ensures exists x :: multiset(keys)[x] >= 2
  {
    var i, j :| 0 <= i < j < |keys| && keys[i] == keys[j];
    assert keys == keys[..i] + [keys[i]] + keys[i + 1..j] + [keys[j]] + keys[j + 1..];
    assert multiset(keys)[keys[i]] >= 2;
  }

  lemma {:induction false} CountRepeats(keys: seq<Fingerprint>, x: Fingerprint)
    requires multiset(keys)[x] >= 2
    ensures HasRepeat(keys)
  {
    var init, last := keys[..|keys| - 1], keys[|keys| - 1];
    assert keys == init + [last];
    if last == x {
      assert x in multiset(init);
      var i :| 0 <= i < |init| && init[i] == x;
      assert keys[i] == keys[|keys| - 1];
    } else {
      CountRepeats(init, x);
      var i, j :| 0 <= i < j < |init| && init[i] == init[j];
      assert keys[i] == keys[j];
    }
  }

  /** Sorted keys repeat exactly when two neighbours are equal. */
  lemma NeighboursDecide(keys: seq<Fingerprint>, sorted: seq<Fingerprint>)
    requires multiset(sorted) == multiset(keys) && Sorting.SortedBy(IdentityKey(), sorted)
    ensures HasRepeat(keys) <==> exists i :: 0 <= i < |sorted| - 1 && sorted[i] == sorted[i + 1]
  {
    RepeatCount(keys);
    RepeatCount(sorted);
    SortedNeighbours(sorted);
  }

  lemma SortedNeighbours(sorted: seq<Fingerprint>)
    requires Sorting.SortedBy(IdentityKey(), sorted)
    ensures HasRepeat(sorted) <==> exists i :: 0 <= i < |sorted| - 1 && sorted[i] == sorted[i + 1]
  {
    assert forall i, j :: 0 <= i < j < |sorted| ==> sorted[i] <= sorted[j] by {
      forall i, j | 0 <= i < j < |sorted|
        ensures sorted[i] <= sorted[j]
      {
        assert IdentityKey()(sorted[i]) <= IdentityKey()(sorted[j]);
      }
    }
    if HasRepeat(sorted) {
      var i, j :| 0 <= i < j < |sorted| && sorted[i] == sorted[j];
      assert sorted[i] <= sorted[i + 1] <= sorted[j];
      assert sorted[i] == sorted[i + 1];
    }
  }

  method PairwiseRepeat(keys: seq<Fingerprint>) returns (repeated: bool)
    ensures repeated <==> HasRepeat(keys)
  {
    hide HasRepeat;
    assert !HasRepeat(keys[..0]) by { NothingRepeats(keys[..0]); }
    for i := 0 to |keys|
      invariant !HasRepeat(keys[..i])
    {
      if keys[i] in keys[..i] {
        RepeatAt(keys, i);
        return true;
      }
      NoRepeatStep(keys, i);
    }
    assert keys[..|keys|] == keys;
    repeated := false;
  }

  method NeighbourRepeat(sorted: seq<Fingerprint>) returns (repeated: bool)
    ensures repeated <==> exists i :: 0 <= i < |sorted| - 1 && sorted[i] == sorted[i + 1]
  {
    var i := 1;
    while i < |sorted|
      invariant 1 <= i
      invariant forall j :: 0 <= j < i - 1 && j < |sorted| - 1 ==> sorted[j] != sorted[j + 1]
    {
      if sorted[i - 1] == sorted[i] {
        assert sorted[i - 1] == sorted[i - 1 + 1];
        return true;
      }
      i := i + 1;
    }
    repeated := false;
  }

  // ----- the detector -----

  /** The pooled buffers: the fingerprints of every open object, and the close-time set. */
  class DupScratch {
    var fingerprints: seq<Fingerprint>
    const table: SeenTable

    constructor ()
      ensures fingerprints == [] && fresh(table) && fresh(table.slots) && table.Valid()
    {
      fingerprints := [];
      table := new SeenTable();
    }
  }

  class DupKeys {
    const scratch: DupScratch
    const enabled: bool
    /** The key hash, whatever it is and however often it collides. */
    const hash: bytes -> Fingerprint

    constructor (scratch: DupScratch, enabled: bool, hash: bytes -> Fingerprint)
      modifies scratch`fingerprints
      ensures this.scratch == scratch && this.enabled == enabled && this.hash == hash
      ensures scratch.fingerprints == []
    {
      this.scratch, this.enabled, this.hash := scratch, enabled, hash;
      new;
      scratch.fingerprints := [];
    }

    ghost predicate Valid()
      reads this, scratch, scratch.table, scratch.table.slots
    {
      scratch.table.Valid()
    }

    function Mark(): nat
      reads this, scratch
    {
      |scratch.fingerprints|
    }

    method Key(key: bytes)
      modifies scratch`fingerprints
      ensures scratch.fingerprints == old(scratch.fingerprints) + if enabled then [hash(key)] else []
    {
      if enabled {
        scratch.fingerprints := scratch.fingerprints + [hash(key)];
      }
    }

    /**
      Close the object whose keys start at `mark`: refused exactly when they repeat a
      fingerprint. Its own keys go, and everything below the mark stays as it was.
     */
    method Close(mark: nat) returns (repeated: bool)
      requires Valid() && mark <= |scratch.fingerprints|
      modifies scratch`fingerprints, scratch.table, scratch.table.slots
      ensures Valid()
      ensures repeated <==> enabled && HasRepeat(old(scratch.fingerprints)[mark..])
      ensures scratch.fingerprints == if enabled then old(scratch.fingerprints)[..mark] else old(scratch.fingerprints)
    {
      hide HasRepeat, Sorting.SortedBy;
      if !enabled {
        return false;
      }
      var keys := scratch.fingerprints[mark..];
      if |keys| <= PAIRWISE_MAX {
        repeated := PairwiseRepeat(keys);
      } else if |keys| <= TABLE_MAX_KEYS {
        repeated := scratch.table.AnyRepeat(keys);
      } else {
        var sorted := Sorting.SortByKey(keys, IdentityKey());
        NeighboursDecide(keys, sorted);
        scratch.fingerprints := scratch.fingerprints[..mark] + sorted;
        repeated := NeighbourRepeat(scratch.fingerprints[mark..]);
        assert scratch.fingerprints[..mark] == old(scratch.fingerprints)[..mark];
      }
      scratch.fingerprints := scratch.fingerprints[..mark];
    }
  }
}
