/** Newline-delimited documents: `walk_lines` in ext/nosj/src/lines.rs. */
module Lines {
  import opened Bytes
  import opened Syntax
  import opened Values
  import opened Grammar
  import opened Edits
  import opened Mended
  import opened Sinks
  import opened ValueSinks
  import opened Drive
  import opened Positions

  // ----- framing -----

  /** One physical line: its number, where it starts, and its text without the newline. */
  datatype Line = Line(number: nat, start: nat, text: bytes)

  /** The lines from `pos` on. A trailing newline ends the last line and starts none. */
  function LinesFrom(s: bytes, pos: nat, number: nat): seq<Line>
    requires pos <= |s| + 1
    decreases |s| + 1 - pos
  {
    if pos >= |s| then []
    else
      var end := LineEnd(s, pos);
      [Line(number, pos, s[pos..end])] + LinesFrom(s, end + 1, number + 1)
  }

  predicate IsLineWs(b: byte) {
    b == SPACE || b == TAB || b == CR
  }

  predicate Blank(line: bytes) {
    forall i :: 0 <= i < |line| ==> IsLineWs(line[i])
  }

  /** The lines that hold something. */
  function Documents(ls: seq<Line>): (ds: seq<Line>)
    ensures |ds| <= |ls|
    ensures forall d :: d in ds <==> d in ls && !Blank(d.text)
  {
    if ls == [] then []
    else (if Blank(ls[0].text) then [] else [ls[0]]) + Documents(ls[1..])
  }

  /** What each line is: its stretch of the source, its physical line number, no newline inside. */
  ghost predicate IsLineOf(s: bytes, l: Line) {
    && l.start < |s| && l.start + |l.text| <= |s|
    && l.text == s[l.start..l.start + |l.text|]
    && LF !in l.text
    && (l.start == 0 || s[l.start - 1] == LF)
    && (l.start + |l.text| == |s| || s[l.start + |l.text|] == LF)
    && l.number == LineOf(s, l.start)
  }

  /** The lines that are skipped are those of JSON whitespace, no more and no fewer. */
  lemma BlankIsWhitespace(s: bytes, l: Line)
    requires IsLineOf(s, l)
    ensures Blank(l.text) <==> AllWs(l.text)
  {
    hide LineOf;
    forall i | 0 <= i < |l.text|
      ensures IsWs(l.text[i]) <==> IsLineWs(l.text[i])
    {
    }
  }

  lemma NewlinesAcross(s: bytes, a: nat, b: nat)
    requires a <= b <= |s| && LF !in s[a..b]
    ensures LineOf(s, b) == LineOf(s, a)
    decreases b - a
  {
    if a < b {
      assert s[a..b] == s[a..b - 1] + [s[b - 1]];
      NewlinesAcross(s, a, b - 1);
      assert s[..b][..b - 1] == s[..b - 1];
    }
  }

  /** The next line starts after this one's newline, with the next number. */
  lemma NextLine(s: bytes, pos: nat, number: nat)
    requires pos < |s| && number == LineOf(s, pos) && (pos == 0 || s[pos - 1] == LF)
    ensures var end := LineEnd(s, pos);
            && IsLineOf(s, Line(number, pos, s[pos..end]))
            && (end < |s| ==> LineOf(s, end + 1) == number + 1 && s[end] == LF)
  {
    hide LineEnd, LineOf;
    LineEndIs(s, pos);
    var end := LineEnd(s, pos);
    if end < |s| {
      NewlinesAcross(s, pos, end);
      LineStep(s, end);
    }
  }

  /** Line texts joined by newlines. */
  function Joined(ls: seq<Line>): bytes {
    if ls == [] then []
    else ls[0].text + (if |ls| == 1 then [] else [LF] + Joined(ls[1..]))
  }

  lemma LinesStep(s: bytes, pos: nat, number: nat)
    requires pos < |s|
    ensures var end := LineEnd(s, pos);
            LinesFrom(s, pos, number) == [Line(number, pos, s[pos..end])] + LinesFrom(s, end + 1, number + 1)
  {
    hide LineEnd;
  }

  /** Every line is one of the source's, numbered as in it. */
  lemma {:induction false} LinesAre(s: bytes, pos: nat, number: nat)
    requires pos <= |s| + 1
    requires pos <= |s| ==> number == LineOf(s, pos) && (pos == 0 || s[pos - 1] == LF)
    ensures forall l :: l in LinesFrom(s, pos, number) ==> IsLineOf(s, l) && l.start >= pos
    decreases |s| + 1 - pos
  {
    hide LineEnd, LineOf, IsLineOf, LinesFrom;
    if pos < |s| {
      NextLine(s, pos, number);
      LinesStep(s, pos, number);
      LinesAre(s, LineEnd(s, pos) + 1, number + 1);
    } else {
      assert LinesFrom(s, pos, number) == [] by { NoLines(s, pos, number); }
    }
  }

  /** The lines partition the source: joined by newlines they are the source, but for a last newline. */
  lemma {:induction false} LinesJoin(s: bytes, pos: nat, number: nat)
    requires pos < |s|
    ensures LinesFrom(s, pos, number) != []
    ensures s[pos..] == Joined(LinesFrom(s, pos, number)) || s[pos..] == Joined(LinesFrom(s, pos, number)) + [LF]
    decreases |s| - pos
  {
    hide LineEnd, LinesFrom, Joined;
    LineEndIs(s, pos);
    LinesStep(s, pos, number);
    var end := LineEnd(s, pos);
    var first, rest := Line(number, pos, s[pos..end]), LinesFrom(s, end + 1, number + 1);
    JoinedStep(first, rest);
    if end == |s| {
      assert rest == [] by { NoLines(s, end + 1, number + 1); }
      assert s[pos..] == s[pos..end];
    } else {
      assert s[pos..] == s[pos..end] + [LF] + s[end + 1..];
      if end + 1 == |s| {
        assert rest == [] by { NoLines(s, end + 1, number + 1); }
        assert s[end + 1..] == [];
      } else {
        LinesJoin(s, end + 1, number + 1);
        assert first.text + [LF] + (Joined(rest) + [LF]) == first.text + [LF] + Joined(rest) + [LF];
      }
    }
  }

  lemma JoinedStep(first: Line, rest: seq<Line>)
    ensures Joined([first] + rest) == if rest == [] then first.text else first.text + [LF] + Joined(rest)
  {
    assert ([first] + rest)[1..] == rest;
    assert first.text + [] == first.text;
    assert first.text + ([LF] + Joined(rest)) == first.text + [LF] + Joined(rest);
  }

  // ----- one line -----

  /** What a line parses to, under the parse options: its value, or what stops the parse first. */
  ghost function LineResult(c: Codec, text: bytes, maxNesting: nat, allow: bool): Result<Value, DriveError> {
    var stop := TextOutcome(c, text, maxNesting, RefusedRepeat(allow));
    if stop.Some? then Err(stop.value) else Ok(ValueOf(c, ReadRoot(text)))
  }

  /** Why the walk stopped, and where it says so. */
  datatype Stop = Stop(fault: DriveError, at: Option<nat>)

  /** The fault is the line's, and its position, if it has one, is absolute and on that physical line. */
  ghost predicate ReportedBy(c: Codec, source: bytes, line: Line, maxNesting: nat, allow: bool, faultAt: bytes -> nat, stop: Stop) {
    && LineResult(c, line.text, maxNesting, allow) == Err(stop.fault)
    && (stop.fault == Malformed ==> stop.at == Some(line.start + faultAt(line.text)))
    && (stop.fault == DuplicateKey ==> stop.at.Some? && stop.at.value < |source| && source[stop.at.value] == LBRACE)
    && (stop.fault == TooDeep || stop.fault == Overflow ==> stop.at == None)
    && (stop.at.Some? ==> stop.at.value <= |source| && LineOf(source, stop.at.value) == line.number)
  }

  lemma DuplicateNotAllowed(c: Codec, text: bytes, room: nat, allow: bool)
    requires TextOutcome(c, text, room, RefusedRepeat(allow)) == Some(DuplicateKey)
    ensures !allow
  {
    hide Outcome, Clean, ReadRoot, ParseDoc;
    DuplicateIsRepeat(c, ReadRoot(text), room, RefusedRepeat(allow));
    CleanNever(c, ReadRoot(text));
  }

  /** An offset inside a line, or at its newline, is on that line. */
  lemma OnLine(s: bytes, l: Line, at: nat)
    requires IsLineOf(s, l) && l.start <= at <= l.start + |l.text|
    ensures LineOf(s, at) == l.number
  {
    hide LineOf;
    assert s[l.start..at] == l.text[..at - l.start];
    NewlinesAcross(s, l.start, at);
  }

  /** Parse one line against the full source. */
  method ParseLine(c: Codec, source: bytes, ghost line: Line, pos: nat, end: nat, stack: seq<Slot>,
                   maxNesting: nat, allow: bool, faultAt: bytes -> nat)
    returns (r: Result<Value, DriveError>, at: Option<nat>)
    requires IsLineOf(source, line) && pos == line.start && end == pos + |line.text|
    requires BelowCeiling(source) && forall t :: faultAt(t) <= |t|
    ensures r == LineResult(c, line.text, maxNesting, allow)
    ensures r.Err? ==> ReportedBy(c, source, line, maxNesting, allow, faultAt, Stop(r.error, at))
  {
    hide ParseDoc, TextOutcome, ValueOf, LineOf, Peak, RefusedRepeat, Locate.Search, Locate.RepeatsAt, Locate.StartIn, ReadRoot, IsLineOf;
    assert source[pos..end] == line.text && end <= |source| by { LineSpan(source, line); }
    r := MaterializeAt(c, source, pos, end, stack, maxNesting, allow);
    at := None;
    if r.Err? {
      if r.error == DuplicateKey {
        DuplicateNotAllowed(c, line.text, maxNesting, allow);
      }
      at := FaultPosition(c, source, pos, end, r.error, faultAt, maxNesting);
      if at.Some? {
        OnLine(source, line, at.value);
      }
    }
  }

  lemma LineSpan(s: bytes, l: Line)
    requires IsLineOf(s, l)
    ensures l.start + |l.text| <= |s| && s[l.start..l.start + |l.text|] == l.text
  {
    hide LineOf;
  }

  // ----- the walk -----

  /** The documents from `pos` on: the lines that are not blank. */
  function DocumentsFrom(s: bytes, pos: nat, number: nat): seq<Line>
    requires pos <= |s| + 1
  {
    Documents(LinesFrom(s, pos, number))
  }

  lemma DocumentsStep(s: bytes, pos: nat, number: nat)
    requires pos < |s|
    ensures var end := LineEnd(s, pos);
            var l := Line(number, pos, s[pos..end]);
            DocumentsFrom(s, pos, number) ==
            (if Blank(l.text) then [] else [l]) + DocumentsFrom(s, end + 1, number + 1)
  {
    hide LineEnd;
  }

  /** The values yielded are those of the first documents, in order. */
  ghost predicate Yields(c: Codec, docs: seq<Line>, maxNesting: nat, allow: bool, yielded: seq<Value>) {
    && |yielded| <= |docs|
    && forall i :: 0 <= i < |yielded| ==> LineResult(c, docs[i].text, maxNesting, allow) == Ok(yielded[i])
  }

  /** So far these were yielded, and `rest` is still to come. */
  ghost predicate Progress(c: Codec, docs: seq<Line>, maxNesting: nat, allow: bool, yielded: seq<Value>, rest: seq<Line>) {
    Yields(c, docs, maxNesting, allow, yielded) && docs[|yielded|..] == rest
  }

  lemma ProgressNone(c: Codec, docs: seq<Line>, maxNesting: nat, allow: bool)
    ensures Progress(c, docs, maxNesting, allow, [], docs)
  {
  }

  lemma ProgressAll(c: Codec, docs: seq<Line>, maxNesting: nat, allow: bool, yielded: seq<Value>)
    requires Progress(c, docs, maxNesting, allow, yielded, [])
    ensures Yields(c, docs, maxNesting, allow, yielded) && |yielded| == |docs|
  {
    assert |docs[|yielded|..]| == 0;
  }

  lemma ProgressNext(c: Codec, docs: seq<Line>, maxNesting: nat, allow: bool, yielded: seq<Value>, line: Line, rest: seq<Line>)
    requires Progress(c, docs, maxNesting, allow, yielded, [line] + rest)
    ensures Yields(c, docs, maxNesting, allow, yielded) && |yielded| < |docs| && docs[|yielded|] == line
    ensures forall v :: LineResult(c, line.text, maxNesting, allow) == Ok(v) ==> Progress(c, docs, maxNesting, allow, yielded + [v], rest)
  {
    hide LineResult;
    assert docs[|yielded|..][1..] == docs[|yielded| + 1..];
  }

  /**
    `walk_lines`: yields, in order, the parse of exactly the lines that are not blank, and
    stops at the first that fails, reported at its physical line. `faultAt` is where in a
    malformed slice the parser stopped.
   */
  method WalkLines(c: Codec, source: bytes, stack: seq<Slot>, maxNesting: nat, allow: bool, faultAt: bytes -> nat)
    returns (yielded: seq<Value>, stop: Option<Stop>)
    requires BelowCeiling(source) && forall t :: faultAt(t) <= |t|
    ensures var docs := DocumentsFrom(source, 0, 1);
            && Yields(c, docs, maxNesting, allow, yielded)
            && (stop.None? ==> |yielded| == |docs|)
            && (stop.Some? ==> |yielded| < |docs| && ReportedBy(c, source, docs[|yielded|], maxNesting, allow, faultAt, stop.value))
  {
    hide *;
    yielded, stop := [], None;
    ghost var docs := DocumentsFrom(source, 0, 1);
    var pos := 0;
    ghost var number := 1;
    FirstLine(source);
    ProgressNone(c, docs, maxNesting, allow);
    while pos < |source|
      invariant pos <= |source| + 1
      invariant pos <= |source| ==> number == LineOf(source, pos) && (pos == 0 || source[pos - 1] == LF)
      invariant Progress(c, docs, maxNesting, allow, yielded, DocumentsFrom(source, pos, number))
      decreases |source| + 1 - pos
    {
      var lineEnd := LineEnd(source, pos);
      ghost var line := Line(number, pos, source[pos..lineEnd]);
      ghost var rest := DocumentsFrom(source, lineEnd + 1, number + 1);
      NextLine(source, pos, number);
      DocumentsStep(source, pos, number);
      if Blank(source[pos..lineEnd]) {
        assert [] + rest == rest;
      } else {
        var value, at := ParseLine(c, source, line, pos, lineEnd, stack, maxNesting, allow, faultAt);
        ProgressNext(c, docs, maxNesting, allow, yielded, line, rest);
        if value.Err? {
          stop := Some(Stop(value.error, at));
          return;
        }
        yielded := yielded + [value.value];
      }
      pos := lineEnd + 1;
      number := number + 1;
    }
    assert DocumentsFrom(source, pos, number) == [] by { NoLines(source, pos, number); }
    ProgressAll(c, docs, maxNesting, allow, yielded);
  }

  lemma FirstLine(s: bytes)
    ensures LineOf(s, 0) == 1
  {
  }

  lemma NoLines(s: bytes, pos: nat, number: nat)
    requires |s| <= pos <= |s| + 1
    ensures LinesFrom(s, pos, number) == [] && DocumentsFrom(s, pos, number) == []
  {
  }
}
