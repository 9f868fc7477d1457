/** The epoch-tagged open-addressing set of ext/nosj/src/sink.rs. */
module SeenTables {

  const U32: nat := 0x1_0000_0000

  /** Table slots; a fingerprint's low bits index them. */
  const TABLE_SLOTS: nat := 256
  /** Keys a table takes, which leaves it at least half empty. */
  const TABLE_MAX_KEYS: nat := TABLE_SLOTS / 2

  /** A 64-bit key fingerprint. */
  type Fingerprint = x: int | 0 <= x < 0x1_0000_0000_0000_0000

  ghost predicate HasRepeat(keys: seq<Fingerprint>) {
    exists i, j :: 0 <= i < j < |keys| && keys[i] == keys[j]
  }

  /** A fingerprint and the epoch that claimed the slot. */
  type Slot = (Fingerprint, nat)

  /** The slot `d` probes after the home slot of `fp`. */
  function Probe(fp: Fingerprint, d: nat): (at: nat)
    ensures at < TABLE_SLOTS
  {
    (fp + d) % TABLE_SLOTS
  }

  /** Every slot is some probe of every fingerprint. */
  lemma ProbeReaches(fp: Fingerprint, at: nat) returns (d: nat)
    requires at < TABLE_SLOTS
    ensures d < TABLE_SLOTS && Probe(fp, d) == at
  {
    d := (at - fp % TABLE_SLOTS) % TABLE_SLOTS;
  }

  lemma ProbeNext(fp: Fingerprint, d: nat)
    ensures Probe(fp, d + 1) == (Probe(fp, d) + 1) % TABLE_SLOTS
  {
  }

  function Range(n: nat): set<int> {
    if n == 0 then {} else Range(n - 1) + {n - 1}
  }

  lemma {:induction false} RangeSize(n: nat)
    ensures |Range(n)| == n
    ensures forall i :: i in Range(n) <==> 0 <= i < n
  {
    if n > 0 {
      RangeSize(n - 1);
    }
  }

  /** The slots claimed in epoch `e`; the others count as empty. */
  ghost function Claimed(t: seq<Slot>, e: nat): set<int> {
    set i: int | 0 <= i < |t| && t[i].1 == e
  }

  /** Slot `i` is the `d`-th probe of `fp`, and every probe before it is claimed. */
  ghost predicate Reaches(t: seq<Slot>, e: nat, fp: Fingerprint, d: nat, i: int)
    requires |t| == TABLE_SLOTS
  {
    d < TABLE_SLOTS && Probe(fp, d) == i && forall d': nat :: d' < d ==> t[Probe(fp, d')].1 == e
  }

  /** The claimed slots hold exactly `keys`, each where probing finds it. */
  ghost predicate Holds(t: seq<Slot>, e: nat, keys: seq<Fingerprint>)
    requires |t| == TABLE_SLOTS
  {
    && (forall i :: 0 <= i < |t| && t[i].1 == e ==> t[i].0 in keys && exists d :: Reaches(t, e, t[i].0, d, i))
    && (forall fp :: fp in keys ==> exists i :: 0 <= i < |t| && t[i] == (fp, e))
  }

  /** Probing that meets an empty slot before `fp` shows that `fp` is not in the table. */
  lemma NotHeld(t: seq<Slot>, e: nat, keys: seq<Fingerprint>, fp: Fingerprint, d: nat)
    requires |t| == TABLE_SLOTS && Holds(t, e, keys)
    requires t[Probe(fp, d)].1 != e
    requires forall d': nat :: d' < d ==> t[Probe(fp, d')].1 == e && t[Probe(fp, d')].0 != fp
    ensures fp !in keys
  {
    hide Probe;
    forall i | 0 <= i < |t| && t[i].1 == e
      ensures t[i].0 != fp
    {
      var d2 :| Reaches(t, e, t[i].0, d2, i);
    }
  }

  /** Claiming the empty slot that probing met adds `fp`. */
  lemma Grown(t: seq<Slot>, e: nat, keys: seq<Fingerprint>, fp: Fingerprint, d: nat)
    requires |t| == TABLE_SLOTS && Holds(t, e, keys) && d < TABLE_SLOTS
    requires t[Probe(fp, d)].1 != e && forall d': nat :: d' < d ==> t[Probe(fp, d')].1 == e
    ensures var t' := t[Probe(fp, d) := (fp, e)];
            Holds(t', e, keys + [fp]) && |Claimed(t', e)| == |Claimed(t, e)| + 1
  {
    hide Probe;
    var at := Probe(fp, d);
    var t' := t[at := (fp, e)];
    assert Claimed(t', e) == Claimed(t, e) + {at};
    forall i | 0 <= i < |t'| && t'[i].1 == e
      ensures t'[i].0 in keys + [fp] && exists d' :: Reaches(t', e, t'[i].0, d', i)
    {
      if i == at {
        assert Reaches(t', e, fp, d, i);
      } else {
        var d' :| Reaches(t, e, t[i].0, d', i);
        assert Reaches(t', e, t'[i].0, d', i);
      }
    }
    forall k | k in keys + [fp]
      ensures exists i :: 0 <= i < |t'| && t'[i] == (k, e)
    {
      if k in keys {
        var i :| 0 <= i < |t| && t[i] == (k, e);
        assert t'[i] == (k, e);
      } else {
        assert t'[at] == (k, e);
      }
    }
  }

  /** When every probe is claimed, every slot is. */
  lemma FullTable(t: seq<Slot>, e: nat, fp: Fingerprint)
    requires |t| == TABLE_SLOTS
    requires forall d: nat :: d < TABLE_SLOTS ==> t[Probe(fp, d)].1 == e
    ensures |Claimed(t, e)| == TABLE_SLOTS
  {
    hide Probe;
    forall i | 0 <= i < TABLE_SLOTS
      ensures i in Claimed(t, e)
    {
      var d := ProbeReaches(fp, i);
    }
    RangeSize(TABLE_SLOTS);
    assert Claimed(t, e) == Range(TABLE_SLOTS);
  }

  lemma RepeatAt(keys: seq<Fingerprint>, i: nat)
    requires i < |keys| && keys[i] in keys[..i]
    ensures HasRepeat(keys)
  {
    var j :| 0 <= j < i && keys[..i][j] == keys[i];
    assert keys[j] == keys[i];
  }

  lemma NoRepeatStep(keys: seq<Fingerprint>, i: nat)
    requires i < |keys| && !HasRepeat(keys[..i]) && keys[i] !in keys[..i]
    ensures !HasRepeat(keys[..i + 1])
  {
    assert keys[..i + 1] == keys[..i] + [keys[i]];
    assert forall j :: 0 <= j < i ==> keys[..i + 1][j] == keys[..i][j] && keys[..i][j] in keys[..i];
  }

  class SeenTable {
    const slots: array<Slot>
    var epoch: nat

    /** No slot carries an epoch still to come, so a fresh epoch finds every slot empty. */
    ghost predicate Valid()
      reads this, slots
    {
      && slots.Length == TABLE_SLOTS && epoch < U32
      && forall i :: 0 <= i < slots.Length ==> slots[i].1 <= epoch
    }

    constructor ()
      ensures Valid() && fresh(slots)
    {
      slots := new Slot[TABLE_SLOTS](_ => (0, 0));
      epoch := 0;
    }

    /** Claim the current epoch's slot for `fp`, unless it is in. Probing ends at an empty slot. */
    method Claim(fp: Fingerprint, ghost keys: seq<Fingerprint>) returns (found: bool)
      requires Valid() && Holds(slots[..], epoch, keys) && |Claimed(slots[..], epoch)| == |keys| < TABLE_SLOTS
      modifies slots
      ensures Valid()
      ensures found <==> fp in keys
      ensures !found ==> Holds(slots[..], epoch, keys + [fp]) && |Claimed(slots[..], epoch)| == |keys| + 1
    {
      hide Probe, Holds, Claimed;
      ghost var t := slots[..];
      var at := fp % TABLE_SLOTS;
      ghost var d := 0;
      assert at == Probe(fp, 0) by { HomeSlot(fp); }
      while true
        invariant d < TABLE_SLOTS && at == Probe(fp, d) && slots[..] == t
        invariant forall d': nat :: d' < d ==> t[Probe(fp, d')].1 == epoch && t[Probe(fp, d')].0 != fp
        decreases TABLE_SLOTS - d
      {
        if slots[at].1 != epoch {
          NotHeld(t, epoch, keys, fp, d);
          Grown(t, epoch, keys, fp, d);
          slots[at] := (fp, epoch);
          assert slots[..] == t[at := (fp, epoch)];
          return false;
        }
        if slots[at].0 == fp {
          HeldKey(t, epoch, keys, at);
          return true;
        }
        ProbeNext(fp, d);
        at := (at + 1) % TABLE_SLOTS;
        d := d + 1;
        if d == TABLE_SLOTS {
          FullTable(t, epoch, fp);
          assert false;
        }
      }
    }

    /** Whether `keys` repeats a fingerprint, from any state the table can be in. */
    method AnyRepeat(keys: seq<Fingerprint>) returns (repeated: bool)
      requires Valid() && |keys| <= TABLE_MAX_KEYS
      modifies this, slots
      ensures Valid()
      ensures repeated <==> HasRepeat(keys)
    {
      hide Holds, Claimed, HasRepeat;
      epoch := (epoch + 1) % U32;
      if epoch == 0 {
        forall i | 0 <= i < slots.Length {
          slots[i] := (0, 0);
        }
        epoch := 1;
      }
      EmptyEpoch(slots[..], epoch);
      assert !HasRepeat(keys[..0]) by { NothingRepeats(keys[..0]); }
      for i := 0 to |keys|
        invariant Valid() && Holds(slots[..], epoch, keys[..i]) && |Claimed(slots[..], epoch)| == i
        invariant !HasRepeat(keys[..i])
      {
        var found := Claim(keys[i], keys[..i]);
        if found {
          RepeatAt(keys, i);
          return true;
        }
        NoRepeatStep(keys, i);
        assert keys[..i + 1] == keys[..i] + [keys[i]];
      }
      assert keys[..|keys|] == keys;
      repeated := false;
    }
  }

  lemma HomeSlot(fp: Fingerprint)
    ensures Probe(fp, 0) == fp % TABLE_SLOTS
  {
  }

  lemma HeldKey(t: seq<Slot>, e: nat, keys: seq<Fingerprint>, i: nat)
    requires |t| == TABLE_SLOTS && Holds(t, e, keys) && i < |t| && t[i].1 == e
    ensures t[i].0 in keys
  {
    hide Reaches;
  }

  /** In an epoch no slot carries, the table holds nothing. */
  lemma EmptyEpoch(t: seq<Slot>, e: nat)
    requires |t| == TABLE_SLOTS && forall i :: 0 <= i < |t| ==> t[i].1 < e
    ensures Holds(t, e, []) && Claimed(t, e) == {}
  {
    hide Reaches;
  }

  lemma NothingRepeats(keys: seq<Fingerprint>)
    requires |keys| <= 1
    ensures !HasRepeat(keys)
  {
  }
}
