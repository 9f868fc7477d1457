/**
  Several nodes of one document at once: how their paths compare, how their spans then lie,
  and that replacements at places apart from each other do not disturb one another.
 */
module Paths {
  import opened Bytes
  import opened Syntax
  import opened Values
  import opened Tree
  import opened Entries
  import Pointer

  // ----- comparing paths -----

  /** `p` leads to an earlier place than `q`, neither inside the other. */
  predicate Before(p: seq<nat>, q: seq<nat>) {
    p != [] && q != [] && (p[0] < q[0] || (p[0] == q[0] && Before(p[1..], q[1..])))
  }

  predicate Apart(p: seq<nat>, q: seq<nat>) {
    Before(p, q) || Before(q, p)
  }

  /** One list is a prefix of the other, or equal to it. */
  predicate Comparable<T(==)>(a: seq<T>, b: seq<T>) {
    a == [] || b == [] || (a[0] == b[0] && Comparable(a[1..], b[1..]))
  }

  lemma {:induction false} ComparableIsPrefix<T>(a: seq<T>, b: seq<T>)
    ensures Comparable(a, b) <==> a <= b || b <= a
  {
    if a != [] && b != [] {
      ComparableIsPrefix(a[1..], b[1..]);
      assert a == [a[0]] + a[1..] && b == [b[0]] + b[1..];
    }
  }

  lemma {:induction false} ApartOrComparable(p: seq<nat>, q: seq<nat>)
    ensures Apart(p, q) <==> !Comparable(p, q)
    ensures Before(p, q) ==> !Before(q, p)
  {
    if p != [] && q != [] {
      ApartOrComparable(p[1..], q[1..]);
    }
  }

  // ----- spans -----

  function EndOf(n: Node, p: seq<nat>): nat
    requires ValidPath(n, p)
  {
    |Left(n, p)| + |Print(At(n, p))|
  }

  lemma {:induction false} EntriesInOrder(n: Node, i: nat, j: nat)
    requires n.Group? && i < j < |n.entries|
    ensures |Through(n, i)| <= |LeftOf(n, j)|
    decreases j - i
  {
    hide Print, LeftOf, UpTo, PrintLabel;
    if i + 1 < j {
      EntriesInOrder(n, i + 1, j);
      assert |LeftOf(n, i + 1)| <= |Through(n, i + 1)|;
    }
    UpToLonger(n, i);
    UpToText(n, i + 1);
  }

  /** A node lies within its ancestors. */
  lemma {:induction false} SpanInside(n: Node, p: seq<nat>)
    requires ValidPath(n, p)
    ensures EndOf(n, p) <= |Print(n)|
  {
    hide Print;
    PathText(n, p);
  }

  lemma EndOfStep(n: Node, p: seq<nat>)
    requires ValidPath(n, p) && p != []
    ensures EndOf(n, p) == |LeftOf(n, p[0])| + EndOf(n.entries[p[0]].value, p[1..])
    ensures EndOf(n, p) <= |Through(n, p[0])|
  {
    hide Print, LeftOf;
    SpanInside(n.entries[p[0]].value, p[1..]);
  }

  /** Earlier places end before later ones start. */
  lemma {:induction false} BeforeSpans(n: Node, p: seq<nat>, q: seq<nat>)
    requires ValidPath(n, p) && ValidPath(n, q) && Before(p, q)
    ensures EndOf(n, p) <= |Left(n, q)|
  {
    hide Print, LeftOf, EndOf;
    EndOfStep(n, p);
    if p[0] < q[0] {
      EntriesInOrder(n, p[0], q[0]);
    } else {
      BeforeSpans(n.entries[p[0]].value, p[1..], q[1..]);
    }
  }

  /** A place inside another, or equal to it, has a span inside the other's. */
  lemma {:induction false} PrefixSpans(n: Node, p: seq<nat>, q: seq<nat>)
    requires ValidPath(n, p) && ValidPath(n, q) && p <= q
    ensures |Left(n, p)| <= |Left(n, q)| && EndOf(n, q) <= EndOf(n, p)
  {
    hide Print, LeftOf, EndOf;
    if p == [] {
      SpanInside(n, q);
      assert EndOf(n, []) == |Print(n)| by { EndOfRoot(n); }
    } else {
      EndOfStep(n, p);
      EndOfStep(n, q);
      PrefixSpans(n.entries[p[0]].value, p[1..], q[1..]);
    }
  }

  lemma EndOfRoot(n: Node)
    ensures ValidPath(n, []) && EndOf(n, []) == |Print(n)|
  {
    hide Print;
  }

  /** Two places have disjoint spans exactly when neither is inside the other. */
  lemma DisjointIffApart(c: Codec, n: Node, p: seq<nat>, q: seq<nat>)
    requires ValidPath(n, p) && ValidPath(n, q) && Wf(n) && Unique(c, n)
    ensures EndOf(n, p) <= |Left(n, q)| || EndOf(n, q) <= |Left(n, p)| <==> Apart(p, q)
    ensures |Left(n, p)| < EndOf(n, p)
    ensures |Left(n, p)| <= |Left(n, q)| && Apart(p, q) ==> Before(p, q)
  {
    hide Print, Left, Wf, Unique;
    AtKeeps(c, n, p);
    AtKeeps(c, n, q);
    FirstByte(At(n, p));
    FirstByte(At(n, q));
    ApartOrComparable(p, q);
    if Before(p, q) {
      BeforeSpans(n, p, q);
    } else if Before(q, p) {
      BeforeSpans(n, q, p);
    } else {
      ComparableIsPrefix(p, q);
      if p <= q {
        PrefixSpans(n, p, q);
      } else {
        PrefixSpans(n, q, p);
      }
    }
  }

  // ----- tokens and paths -----

  lemma SameChildSameToken(c: Codec, n: Node, a: bytes, b: bytes)
    requires ChildIndex(c, n, a).Some? && ChildIndex(c, n, a) == ChildIndex(c, n, b)
    ensures a == b
  {
    hide Keys, Pointer.ParseIndex, Pointer.Decimal;
    if !n.obj {
      var i := ChildIndex(c, n, a).value;
      Pointer.IndexIsDecimal(a, i);
      Pointer.IndexIsDecimal(b, i);
    }
  }

  /** Resolved pointers lead to places one inside the other exactly when their tokens do. */
  lemma {:induction false} ComparableTokens(c: Codec, n: Node, a: seq<bytes>, b: seq<bytes>)
    requires PathOf(c, n, a).Some? && PathOf(c, n, b).Some?
    ensures Comparable(PathOf(c, n, a).value, PathOf(c, n, b).value) <==> Comparable(a, b)
    decreases |a|
  {
    hide ChildIndex;
    if a != [] && b != [] {
      var i, j := ChildIndex(c, n, a[0]).value, ChildIndex(c, n, b[0]).value;
      var p := PathOf(c, n.entries[i].value, a[1..]).value;
      var q := PathOf(c, n.entries[j].value, b[1..]).value;
      assert ([i] + p)[1..] == p && ([j] + q)[1..] == q;
      if i == j {
        SameChildSameToken(c, n, a[0], b[0]);
        ComparableTokens(c, n.entries[i].value, a[1..], b[1..]);
      }
    }
  }

  // ----- replacements apart from each other -----

  lemma ApartKept(n: Node, p: seq<nat>, q: seq<nat>, m: Node)
    requires ValidPath(n, p) && ValidPath(n, q) && Apart(p, q)
    ensures ValidPath(Put(n, p, m), q) && At(Put(n, p, m), q) == At(n, q)
    decreases |p|
  {
    var n' := Put(n, p, m);
    if p[0] == q[0] {
      ApartKept(n.entries[p[0]].value, p[1..], q[1..], m);
    } else {
      assert n'.entries[q[0]] == n.entries[q[0]];
    }
  }

  /** Replacing a later place does not move an earlier one. */
  lemma {:induction false} EarlierStays(n: Node, p: seq<nat>, q: seq<nat>, m: Node)
    requires ValidPath(n, p) && ValidPath(n, q) && Before(q, p) && ValidPath(Put(n, p, m), q)
    ensures Left(Put(n, p, m), q) == Left(n, q)
    decreases |p|
  {
    hide Texts, Pre, PrintLabel;
    var n' := Put(n, p, m);
    assert n'.entries[..q[0]] == n.entries[..q[0]];
    assert n'.entries[q[0]].lead == n.entries[q[0]].lead && n'.entries[q[0]].head == n.entries[q[0]].head;
    if p[0] == q[0] {
      EarlierStays(n.entries[p[0]].value, p[1..], q[1..], m);
    } else {
      assert n'.entries[q[0]] == n.entries[q[0]];
    }
  }

  /** Replacements at places apart commute. */
  lemma {:induction false} PutsCommute(n: Node, p: seq<nat>, a: Node, q: seq<nat>, b: Node)
    requires ValidPath(n, p) && ValidPath(n, q) && Apart(p, q)
    requires ValidPath(Put(n, p, a), q) && ValidPath(Put(n, q, b), p)
    ensures Put(Put(n, p, a), q, b) == Put(Put(n, q, b), p, a)
    decreases |p|
  {
    var i, j := p[0], q[0];
    if i == j {
      PutsCommute(n.entries[i].value, p[1..], a, q[1..], b);
    } else {
      var es := n.entries;
      var x := es[i].(value := Put(es[i].value, p[1..], a));
      var y := es[j].(value := Put(es[j].value, q[1..], b));
      assert es[i := x][j := y] == es[j := y][i := x];
    }
  }

  /** A replacement: the place and the node that goes there. */
  datatype Target = Target(path: seq<nat>, node: Node)

  ghost predicate AllValid(n: Node, ts: seq<Target>) {
    forall i :: 0 <= i < |ts| ==> ValidPath(n, ts[i].path)
  }

  ghost predicate AllApart(ts: seq<Target>) {
    forall i, j :: 0 <= i < j < |ts| ==> Apart(ts[i].path, ts[j].path)
  }

  /** One replacement after another. */
  function PutAll(n: Node, ts: seq<Target>): Node
    decreases |ts|
  {
    if ts == [] then n
    else PutAll(if ValidPath(n, ts[0].path) then Put(n, ts[0].path, ts[0].node) else n, ts[1..])
  }

  lemma StillValid(n: Node, t: Target, ts: seq<Target>)
    requires ValidPath(n, t.path) && AllValid(n, ts)
    requires forall i :: 0 <= i < |ts| ==> Apart(t.path, ts[i].path)
    ensures AllValid(Put(n, t.path, t.node), ts)
  {
    forall i | 0 <= i < |ts|
      ensures ValidPath(Put(n, t.path, t.node), ts[i].path)
    {
      ApartKept(n, t.path, ts[i].path, t.node);
    }
  }

  lemma PutAllStep(n: Node, t: Target, ts: seq<Target>)
    requires ValidPath(n, t.path)
    ensures PutAll(n, [t] + ts) == PutAll(Put(n, t.path, t.node), ts)
  {
    hide Put, ValidPath;
    assert ([t] + ts)[1..] == ts;
  }

  lemma FirstOfApart(n: Node, x: Target, rest: seq<Target>)
    requires AllValid(n, [x] + rest) && AllApart([x] + rest)
    ensures ValidPath(n, x.path) && AllValid(n, rest) && AllApart(rest)
    ensures AllValid(Put(n, x.path, x.node), rest)
    ensures forall i :: 0 <= i < |rest| ==> Apart(x.path, rest[i].path)
  {
    hide Put, ValidPath, Apart;
    var all := [x] + rest;
    assert all[0] == x && forall i :: 0 <= i < |rest| ==> rest[i] == all[i + 1];
    StillValid(n, x, rest);
  }

  /** Two replacements apart change places. */
  lemma PutTwo(n: Node, x: Target, t: Target, ts: seq<Target>)
    requires ValidPath(n, x.path) && ValidPath(n, t.path) && Apart(x.path, t.path)
    ensures PutAll(n, [x] + ([t] + ts)) == PutAll(n, [t] + ([x] + ts))
  {
    hide PutAll, Put, ValidPath, Apart;
    ApartSym(x.path, t.path);
    ApartKept(n, x.path, t.path, x.node);
    ApartKept(n, t.path, x.path, t.node);
    PutAllStep(n, x, [t] + ts);
    PutAllStep(Put(n, x.path, x.node), t, ts);
    PutAllStep(n, t, [x] + ts);
    PutAllStep(Put(n, t.path, t.node), x, ts);
    PutsCommute(n, x.path, x.node, t.path, t.node);
  }

  /** A replacement apart from all the others may as well come first. */
  lemma {:induction false} PutFirst(n: Node, a: seq<Target>, t: Target, b: seq<Target>)
    requires AllValid(n, a + [t] + b) && AllApart(a + [t] + b)
    ensures PutAll(n, a + [t] + b) == PutAll(n, [t] + (a + b))
    decreases |a|
  {
    hide PutAll, Put, ValidPath, Apart, AllValid, AllApart;
    if a == [] {
      assert a + [t] + b == [t] + (a + b);
    } else {
      var x, a' := a[0], a[1..];
      var rest := a' + [t] + b;
      assert a + [t] + b == [x] + rest;
      FirstOfApart(n, x, rest);
      assert rest[|a'|] == t;
      PutAllStep(n, x, rest);
      PutFirst(Put(n, x.path, x.node), a', t, b);
      PutAllStep(n, x, [t] + (a' + b));
      assert ValidPath(n, t.path) by { ValidAt(n, rest, |a'|); }
      PutTwo(n, x, t, a' + b);
      assert [x] + (a' + b) == a + b;
    }
  }

  lemma ValidAt(n: Node, ts: seq<Target>, i: nat)
    requires AllValid(n, ts) && i < |ts|
    ensures ValidPath(n, ts[i].path)
  {
  }

  lemma ApartSym(p: seq<nat>, q: seq<nat>)
    requires Apart(p, q)
    ensures Apart(q, p)
  {
  }

  function Without<T>(ts: seq<T>, i: nat): (rest: seq<T>)
    requires i < |ts|
    ensures |rest| == |ts| - 1
    ensures forall j :: 0 <= j < |rest| ==> rest[j] == ts[if j < i then j else j + 1]
  {
    ts[..i] + ts[i + 1..]
  }

  lemma WithoutMultiset<T>(ts: seq<T>, i: nat, us: seq<T>)
    requires i < |ts| && us != [] && us[0] == ts[i] && multiset(ts) == multiset(us)
    ensures multiset(Without(ts, i)) == multiset(us[1..])
  {
    assert ts == ts[..i] + [ts[i]] + ts[i + 1..];
    assert us == [us[0]] + us[1..];
    assert multiset(ts) == multiset(Without(ts, i)) + multiset{ts[i]};
    assert multiset(us) == multiset(us[1..]) + multiset{ts[i]};
    assert multiset(Without(ts, i)) == multiset(ts) - multiset{ts[i]};
    assert multiset(us[1..]) == multiset(us) - multiset{ts[i]};
  }

  lemma FindIn<T>(ts: seq<T>, us: seq<T>) returns (i: nat)
    requires us != [] && multiset(ts) == multiset(us)
    ensures i < |ts| && ts[i] == us[0]
  {
    assert us[0] in multiset(us);
    assert us[0] in multiset(ts);
    i :| 0 <= i < |ts| && ts[i] == us[0];
  }

  /** The order of replacements apart from each other does not matter. */
  lemma {:induction false} PutAllAnyOrder(n: Node, ts: seq<Target>, us: seq<Target>)
    requires multiset(ts) == multiset(us) && AllValid(n, ts) && AllApart(ts)
    ensures PutAll(n, ts) == PutAll(n, us)
    decreases |us|
  {
    hide Put, ValidPath, Apart;
    assert |ts| == |multiset(ts)| == |multiset(us)| == |us|;
    if us != [] {
      var t := us[0];
      var i := FindIn(ts, us);
      var rest := Without(ts, i);
      PutOneFirst(n, ts, i);
      WithoutMultiset(ts, i, us);
      RestApart(ts, i);
      StillValid(n, t, rest);
      PutAllAnyOrder(Put(n, t.path, t.node), rest, us[1..]);
    }
  }

  lemma PutOneFirst(n: Node, ts: seq<Target>, i: nat)
    requires i < |ts| && AllValid(n, ts) && AllApart(ts)
    ensures PutAll(n, ts) == PutAll(Put(n, ts[i].path, ts[i].node), Without(ts, i))
  {
    hide Put, ValidPath, Apart;
    var a, t, b := ts[..i], ts[i], ts[i + 1..];
    assert ts == a + [t] + b;
    PutFirst(n, a, t, b);
    assert ([t] + a + b)[0] == t && ([t] + a + b)[1..] == Without(ts, i);
  }

  lemma RestApart(ts: seq<Target>, i: nat)
    requires i < |ts| && AllApart(ts)
    ensures AllApart(Without(ts, i))
    ensures forall j :: 0 <= j < |ts| - 1 ==> Apart(ts[i].path, Without(ts, i)[j].path)
  {
    hide Before;
    var rest := Without(ts, i);
    forall j | 0 <= j < |rest|
      ensures Apart(ts[i].path, rest[j].path)
    {
      if j < i {
        assert Apart(ts[j].path, ts[i].path);
      } else {
        assert Apart(ts[i].path, ts[j + 1].path);
      }
    }
  }
}
