/** Replacing many spans of a text in one sweep, and what that does to the document. */
module Sweep {
  import opened Bytes
  import opened Syntax
  import opened Values
  import opened Tree
  import opened Entries
  import opened Edits
  import opened Paths

  /** Bytes `[start, end)` are to be replaced by `text`. */
  datatype Piece = Piece(start: nat, end: nat, text: bytes)

  /** The pieces lie in order, without overlap, from `pos` to the end of the text. */
  ghost predicate Fits(doc: bytes, ps: seq<Piece>, pos: nat) {
    if ps == [] then pos <= |doc|
    else pos <= ps[0].start <= ps[0].end && Fits(doc, ps[1..], ps[0].end)
  }

  lemma {:induction false} FitsIn(doc: bytes, ps: seq<Piece>, pos: nat)
    requires Fits(doc, ps, pos)
    ensures pos <= |doc|
    ensures ps != [] ==> ps[0].end <= |doc| && ps[|ps| - 1].end <= |doc|
  {
    if ps != [] {
      FitsIn(doc, ps[1..], ps[0].end);
    }
  }

  /** From `pos` on: the bytes between the pieces untouched and in order, each piece replaced. */
  ghost function SweepOf(doc: bytes, ps: seq<Piece>, pos: nat): bytes
    requires Fits(doc, ps, pos)
  {
    FitsIn(doc, ps, pos);
    if ps == [] then doc[pos..]
    else doc[pos..ps[0].start] + ps[0].text + SweepOf(doc, ps[1..], ps[0].end)
  }

  // ----- length -----

  function Removed(ps: seq<Piece>): int {
    if ps == [] then 0 else ps[0].end - ps[0].start + Removed(ps[1..])
  }

  function Inserted(ps: seq<Piece>): nat {
    if ps == [] then 0 else |ps[0].text| + Inserted(ps[1..])
  }

  /** The sweep loses the spans' bytes and gains the rendered ones. */
  lemma {:induction false} SweepLength(doc: bytes, ps: seq<Piece>, pos: nat)
    requires Fits(doc, ps, pos)
    ensures |SweepOf(doc, ps, pos)| == |doc| - pos - Removed(ps) + Inserted(ps)
  {
    FitsIn(doc, ps, pos);
    if ps != [] {
      SweepLength(doc, ps[1..], ps[0].end);
    }
  }

  // ----- one at a time -----

  lemma {:induction false} FitsInit(doc: bytes, init: seq<Piece>, x: Piece, pos: nat)
    requires Fits(doc, init + [x], pos)
    ensures x.start <= x.end <= |doc| && pos <= x.start
    ensures Fits(Spliced(doc, x.start, x.end, x.text), init, pos)
  {
    hide Spliced;
    var all := init + [x];
    if init == [] {
      assert all[0] == x && all[1..] == [];
      assert |Spliced(doc, x.start, x.end, x.text)| >= x.start by { SplicedShape(doc, x.start, x.end, x.text); }
    } else {
      assert all[0] == init[0] && all[1..] == init[1..] + [x];
      FitsInit(doc, init[1..], x, init[0].end);
    }
  }

  lemma SplicedShape(doc: bytes, s: nat, e: nat, t: bytes)
    requires s <= e <= |doc|
    ensures |Spliced(doc, s, e, t)| == |doc| - (e - s) + |t|
    ensures forall p :: 0 <= p <= s ==> Spliced(doc, s, e, t)[p..] == doc[p..s] + t + doc[e..]
    ensures forall p, q :: 0 <= p <= q <= s ==> Spliced(doc, s, e, t)[p..q] == doc[p..q]
  {
  }

  /** Sweeping is replacing the last piece first and sweeping the rest. */
  lemma {:induction false} SweepLast(doc: bytes, init: seq<Piece>, x: Piece, pos: nat)
    requires Fits(doc, init + [x], pos)
    requires x.start <= x.end <= |doc| && Fits(Spliced(doc, x.start, x.end, x.text), init, pos)
    ensures SweepOf(doc, init + [x], pos) == SweepOf(Spliced(doc, x.start, x.end, x.text), init, pos)
  {
    hide Spliced;
    var doc' := Spliced(doc, x.start, x.end, x.text);
    SplicedShape(doc, x.start, x.end, x.text);
    var all := init + [x];
    FitsInit(doc, init, x, pos);
    FitsIn(doc, all, pos);
    if init == [] {
      assert all[0] == x && all[1..] == [];
      assert x.text + doc[x.end..] == x.text + SweepOf(doc, [], x.end);
      assert doc[pos..x.start] + (x.text + doc[x.end..]) == doc[pos..x.start] + x.text + doc[x.end..];
    } else {
      assert all[0] == init[0] && all[1..] == init[1..] + [x];
      FitsInit(doc, init[1..], x, init[0].end);
      SweepLast(doc, init[1..], x, init[0].end);
      assert doc'[pos..init[0].start] == doc[pos..init[0].start];
    }
  }

  // ----- pieces that are nodes -----

  /** The replacements lead to places in text order, apart from each other. */
  ghost predicate Ascending(ts: seq<Target>) {
    forall i, j :: 0 <= i < j < |ts| ==> Before(ts[i].path, ts[j].path)
  }

  ghost predicate AllWellFormed(c: Codec, ts: seq<Target>) {
    forall i :: 0 <= i < |ts| ==> Wf(ts[i].node) && Unique(c, ts[i].node)
  }

  ghost function PieceOf(d: Doc, t: Target): Piece
    requires ValidPath(d.root, t.path)
  {
    Piece(|d.lead| + |Left(d.root, t.path)|, |d.lead| + EndOf(d.root, t.path), Print(t.node))
  }

  ghost function PiecesOf(d: Doc, ts: seq<Target>): (ps: seq<Piece>)
    requires AllValid(d.root, ts)
    ensures |ps| == |ts|
  {
    seq(|ts|, i requires 0 <= i < |ts| => PieceOf(d, ts[i]))
  }

  lemma {:induction false} PiecesFit(d: Doc, ts: seq<Target>, pos: nat)
    requires AllValid(d.root, ts) && Ascending(ts) && pos <= |PrintDoc(d)|
    requires ts != [] ==> pos <= PieceOf(d, ts[0]).start
    ensures Fits(PrintDoc(d), PiecesOf(d, ts), pos)
  {
    hide Print, Left, Before, ValidPath;
    if ts != [] {
      var ps := PiecesOf(d, ts);
      var more := ts[1..];
      assert ps[1..] == PiecesOf(d, more);
      SpanInside(d.root, ts[0].path);
      if more != [] {
        assert more[0] == ts[1];
        BeforeSpans(d.root, ts[0].path, ts[1].path);
      }
      PiecesFit(d, more, ps[0].end);
    }
  }

  /** Replacing the last target leaves the pieces of the earlier ones where they are. */
  lemma EarlierPieces(d: Doc, init: seq<Target>, x: Target)
    requires AllValid(d.root, init + [x]) && Ascending(init + [x])
    ensures var d' := d.(root := Put(d.root, (init + [x])[|init|].path, x.node));
            AllValid(d.root, init) && AllValid(d'.root, init) && PiecesOf(d', init) == PiecesOf(d, init)
  {
    hide Print, Left, ValidPath, Put, At, Before;
    var all := init + [x];
    assert all[|init|] == x;
    var d' := d.(root := Put(d.root, x.path, x.node));
    forall i | 0 <= i < |init|
      ensures ValidPath(d.root, init[i].path) && ValidPath(d'.root, init[i].path) && PieceOf(d', init[i]) == PieceOf(d, init[i])
    {
      assert all[i] == init[i];
      assert Before(init[i].path, x.path);
      ApartKept(d.root, x.path, init[i].path, x.node);
      EarlierStays(d.root, x.path, init[i].path, x.node);
    }
  }

  /** The sweep over targets in text order is the text of the document with all of them replaced. */
  lemma {:induction false} SweepText(c: Codec, d: Doc, ts: seq<Target>)
    requires WfDoc(d) && Unique(c, d.root) && AllValid(d.root, ts) && Ascending(ts) && AllWellFormed(c, ts)
    ensures Fits(PrintDoc(d), PiecesOf(d, ts), 0)
    ensures var d' := d.(root := PutAll(d.root, ts));
            && SweepOf(PrintDoc(d), PiecesOf(d, ts), 0) == PrintDoc(d')
            && WfDoc(d') && Unique(c, d'.root)
    decreases |ts|
  {
    hide Print, Wf, Unique, PrintDoc, Spliced, ValidPath, Put, PieceOf, Before, AllWs, PutAll, EndOf;
    PiecesFit(d, ts, 0);
    if ts == [] {
      assert PutAll(d.root, []) == d.root by { PutNone(d.root); }
    } else {
      var k := |ts| - 1;
      var init, x := ts[..k], ts[k];
      assert ts == init + [x];
      var n := At(d.root, x.path);
      var d' := d.(root := Put(d.root, x.path, x.node));
      assert [] + Print(n) + [] == Print(n) && [] + Print(x.node) + [] == Print(x.node);
      SpliceNode(c, d, x.path, [], Print(n), [], Print(x.node), x.node);
      PieceIs(d, x);
      EarlierPieces(d, init, x);
      AscendingApart(ts);
      PutOneFirst(d.root, ts, k);
      assert Without(ts, k) == init;
      SweepText(c, d', init);
      var ps, x' := PiecesOf(d, init), PieceOf(d, x);
      assert PiecesOf(d, ts) == ps + [x'];
      FitsInit(PrintDoc(d), ps, x', 0);
      SweepLast(PrintDoc(d), ps, x', 0);
    }
  }

  lemma PutNone(n: Node)
    ensures PutAll(n, []) == n
  {
  }

  lemma PieceIs(d: Doc, t: Target)
    requires ValidPath(d.root, t.path)
    ensures var p := PieceOf(d, t); var s := |d.lead| + |Left(d.root, t.path)|;
            p.start == s && p.end == s + |Print(At(d.root, t.path))| && p.text == Print(t.node)
  {
    hide Print, Left, At;
  }

  lemma AscendingApart(ts: seq<Target>)
    requires Ascending(ts)
    ensures AllApart(ts)
  {
    hide Before;
  }
}
