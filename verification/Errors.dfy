/**
  Error positions and caret snippets: `locate` and `build_snippet` in
  ext/nosj/src/errors.rs. Text is UTF-8; a character is the bytes that spell it.
 */
module Positions {
  import opened Bytes

  type Char = bytes

  const CARET: byte := 94
  const ELLIPSIS: Char := [226, 128, 166]
  const SNIPPET_CHARS_BEFORE: nat := 50
  const SNIPPET_CHARS_AFTER: nat := 30

  // ----- characters -----

  /** A UTF-8 continuation byte: 0b10xxxxxx. */
  predicate IsCont(b: byte) {
    128 <= b < 192
  }

  function CountChars(s: bytes): (n: nat)
    ensures n <= |s|
  {
    if s == [] then 0 else CountChars(s[..|s| - 1]) + (if IsCont(s[|s| - 1]) then 0 else 1)
  }

  function CountNewlines(s: bytes): (n: nat)
    ensures n <= |s|
  {
    if s == [] then 0 else CountNewlines(s[..|s| - 1]) + (if s[|s| - 1] == LF then 1 else 0)
  }

  ghost predicate IsChar(ch: Char) {
    ch != [] && !IsCont(ch[0]) && forall i :: 1 <= i < |ch| ==> IsCont(ch[i])
  }

  ghost predicate AllChars(cs: seq<Char>) {
    forall i :: 0 <= i < |cs| ==> IsChar(cs[i])
  }

  function Flat(cs: seq<Char>): bytes {
    if cs == [] then [] else cs[0] + Flat(cs[1..])
  }

  lemma {:induction false} CountMore(s: bytes, t: bytes)
    ensures CountChars(s + t) == CountChars(s) + CountChars(t)
  {
    if t == [] {
      assert s + t == s;
    } else {
      var init := t[..|t| - 1];
      assert (s + t)[..|s + t| - 1] == s + init;
      CountMore(s, init);
    }
  }

  lemma {:induction false} CountTail(ch: Char)
    requires IsChar(ch)
    ensures CountChars(ch) == 1
  {
    if |ch| > 1 {
      CountTail(ch[..|ch| - 1]);
    } else {
      assert ch[..0] == [];
    }
  }

  lemma {:induction false} CountFlat(cs: seq<Char>)
    requires AllChars(cs)
    ensures CountChars(Flat(cs)) == |cs|
  {
    if cs != [] {
      CountTail(cs[0]);
      CountFlat(cs[1..]);
      CountMore(cs[0], Flat(cs[1..]));
    }
  }

  // ----- lines -----

  /** The start of the line `off` is on. */
  function LineStart(s: bytes, off: nat): (k: nat)
    requires off <= |s|
    ensures k <= off
  {
    if off == 0 || s[off - 1] == LF then off else LineStart(s, off - 1)
  }

  /** Where the line `off` is on meets its newline, or the end of the text. */
  function LineEnd(s: bytes, off: nat): (k: nat)
    requires off <= |s|
    ensures off <= k <= |s|
    decreases |s| - off
  {
    if off == |s| || s[off] == LF then off else LineEnd(s, off + 1)
  }

  /** The same, short of a carriage return before the newline. */
  function ContentEnd(s: bytes, off: nat): (k: nat)
    requires off <= |s|
    ensures LineStart(s, off) <= k <= LineEnd(s, off)
  {
    var end := LineEnd(s, off);
    if end > LineStart(s, off) && s[end - 1] == CR then end - 1 else end
  }

  /** An offset on the line terminator carets one past the line's content. */
  function CaretAt(s: bytes, off: nat): (k: nat)
    requires off <= |s|
    ensures LineStart(s, off) <= k <= ContentEnd(s, off)
  {
    if off <= ContentEnd(s, off) then off else ContentEnd(s, off)
  }

  function LineOf(s: bytes, off: nat): nat
    requires off <= |s|
  {
    1 + CountNewlines(s[..off])
  }

  function ColumnOf(s: bytes, off: nat): nat
    requires off <= |s|
  {
    1 + CountChars(s[LineStart(s, off)..CaretAt(s, off)])
  }

  /** A line is a maximal stretch without newlines. */
  lemma {:induction false} LineStartIs(s: bytes, off: nat)
    requires off <= |s|
    ensures LF !in s[LineStart(s, off)..off]
    ensures LineStart(s, off) == 0 || s[LineStart(s, off) - 1] == LF
  {
    if off > 0 && s[off - 1] != LF {
      LineStartIs(s, off - 1);
      var k := LineStart(s, off);
      assert s[k..off] == s[k..off - 1] + [s[off - 1]];
    }
  }

  lemma {:induction false} LineEndIs(s: bytes, off: nat)
    requires off <= |s|
    ensures LF !in s[off..LineEnd(s, off)]
    ensures LineEnd(s, off) == |s| || s[LineEnd(s, off)] == LF
    decreases |s| - off
  {
    if off < |s| && s[off] != LF {
      LineEndIs(s, off + 1);
      assert s[off..LineEnd(s, off)] == [s[off]] + s[off + 1..LineEnd(s, off)];
    }
  }

  /** A line's content is the line without its terminator: a carriage return before the newline, or at the end, is not content. */
  lemma ContentIsLine(s: bytes, off: nat)
    requires off <= |s|
    ensures var line, content := s[LineStart(s, off)..LineEnd(s, off)], s[LineStart(s, off)..ContentEnd(s, off)];
            if line != [] && line[|line| - 1] == 13 then line == content + [13] else line == content
    ensures LineStart(s, off) <= CaretAt(s, off) <= ContentEnd(s, off)
    ensures off <= ContentEnd(s, off) ==> CaretAt(s, off) == off
    ensures CaretAt(s, off) < off ==> CaretAt(s, off) == ContentEnd(s, off)
  {
  }

  // ----- positions are ordered -----

  /** One step of the offset: the same line goes on, or the next one starts. */
  lemma LineStep(s: bytes, off: nat)
    requires off < |s|
    ensures s[off] == LF ==> LineOf(s, off + 1) == LineOf(s, off) + 1 && LineStart(s, off + 1) == off + 1
    ensures s[off] != LF ==>
              && LineOf(s, off + 1) == LineOf(s, off)
              && LineStart(s, off + 1) == LineStart(s, off)
              && LineEnd(s, off + 1) == LineEnd(s, off)
  {
    assert s[..off + 1][..off] == s[..off];
  }

  lemma ColumnStep(s: bytes, off: nat)
    requires off < |s| && s[off] != LF
    ensures ColumnOf(s, off + 1) == ColumnOf(s, off) + (if off < ContentEnd(s, off) && !IsCont(s[off]) then 1 else 0)
  {
    LineStep(s, off);
    var k := LineStart(s, off);
    if off < ContentEnd(s, off) {
      assert s[k..off + 1][..off - k] == s[k..off];
    }
  }

  lemma InContent(s: bytes, off: nat)
    requires off < |s| && s[off] != LF
    ensures off <= ContentEnd(s, off)
  {
  }

  ghost predicate NotAfter(a: (nat, nat), b: (nat, nat)) {
    a.0 < b.0 || (a.0 == b.0 && a.1 <= b.1)
  }

  ghost function PositionOf(s: bytes, off: nat): (nat, nat)
    requires off <= |s|
  {
    (LineOf(s, off), ColumnOf(s, off))
  }

  /** A byte that takes no cell of its line: inside a character, or the carriage return of the terminator. */
  ghost predicate NoCell(s: bytes, off: nat)
    requires off < |s|
  {
    s[off] != LF && (IsCont(s[off]) || off == ContentEnd(s, off))
  }

  lemma StepNotAfter(s: bytes, off: nat)
    requires off < |s|
    ensures NotAfter(PositionOf(s, off), PositionOf(s, off + 1))
    ensures PositionOf(s, off) == PositionOf(s, off + 1) <==> NoCell(s, off)
  {
    hide LineOf, ColumnOf, ContentEnd;
    LineStep(s, off);
    if s[off] != LF {
      ColumnStep(s, off);
      InContent(s, off);
    }
  }

  /** Positions, byte by byte: they start at line 1, column 1; a newline starts the next line; every cell is one column. */
  lemma PositionSteps(s: bytes, off: nat)
    requires off < |s|
    ensures PositionOf(s, 0) == (1, 1)
    ensures var (line, column) := PositionOf(s, off);
            PositionOf(s, off + 1) ==
            if s[off] == LF then (line + 1, 1) else if NoCell(s, off) then (line, column) else (line, column + 1)
  {
    hide ContentEnd, CountChars, CountNewlines, LineStart, LineEnd;
    NothingCounts();
    assert s[..0] == [] && CountNewlines([]) == 0 by { NoNewlines(); }
    AtLineStart(s, 0);
    LineStep(s, off);
    if s[off] == LF {
      AtLineStart(s, off + 1);
    } else {
      ColumnStep(s, off);
      InContent(s, off);
    }
  }

  lemma NoNewlines()
    ensures CountNewlines([]) == 0
  {
  }

  lemma AtLineStart(s: bytes, off: nat)
    requires off <= |s| && (off == 0 || s[off - 1] == LF)
    ensures LineStart(s, off) == off && ColumnOf(s, off) == 1
  {
    assert s[off..off] == [];
  }

  /** A later offset is never reported at an earlier (line, column). */
  lemma {:induction false} PositionsOrdered(s: bytes, a: nat, b: nat)
    requires a <= b <= |s|
    ensures NotAfter(PositionOf(s, a), PositionOf(s, b))
    decreases b - a
  {
    hide PositionOf;
    if a < b {
      PositionsOrdered(s, a, b - 1);
      StepNotAfter(s, b - 1);
    }
  }

  /** Two offsets share a position exactly when no byte between them takes a cell. */
  lemma {:induction false} PositionsShared(s: bytes, a: nat, b: nat)
    requires a <= b <= |s|
    ensures PositionOf(s, a) == PositionOf(s, b) <==> forall i :: a <= i < b ==> NoCell(s, i)
    decreases b - a
  {
    hide PositionOf, NoCell;
    if a < b {
      PositionsShared(s, a, b - 1);
      PositionsOrdered(s, a, b - 1);
      StepNotAfter(s, b - 1);
    }
  }

  // ----- the snippet -----

  /** How many characters end at or before byte `b`: the index of the character holding it. */
  function CharAt(cs: seq<Char>, b: nat): (k: nat)
    ensures k <= |cs|
  {
    if cs == [] || b < |cs[0]| then 0 else 1 + CharAt(cs[1..], b - |cs[0]|)
  }

  function Rendered(ch: Char, control: Char -> bool): Char {
    if control(ch) then [SPACE] else ch
  }

  function RenderedAll(cs: seq<Char>, control: Char -> bool): seq<Char> {
    seq(|cs|, i requires 0 <= i < |cs| => Rendered(cs[i], control))
  }

  function First(k: nat): (f: nat)
    ensures f <= k
  {
    if k <= SNIPPET_CHARS_BEFORE then 0 else k - SNIPPET_CHARS_BEFORE
  }

  function Last(total: nat, k: nat): (l: nat)
    requires k <= total
    ensures k <= l <= total
  {
    if k + SNIPPET_CHARS_AFTER <= total then k + SNIPPET_CHARS_AFTER else total
  }

  /** The characters shown around character `k`. */
  function Window(cs: seq<Char>, k: nat, control: Char -> bool): seq<Char>
    requires k <= |cs|
  {
    (if First(k) > 0 then [ELLIPSIS] else [])
    + RenderedAll(cs[First(k)..Last(|cs|, k)], control)
    + (if Last(|cs|, k) < |cs| then [ELLIPSIS] else [])
  }

  /** The caret's cell. */
  function CaretColumn(k: nat): nat {
    k - First(k) + (if First(k) > 0 then 1 else 0)
  }

  function Snippet(cs: seq<Char>, k: nat, control: Char -> bool): seq<Char>
    requires k <= |cs|
  {
    Window(cs, k, control) + [[LF]] + seq(CaretColumn(k), i => [SPACE]) + [[CARET]]
  }

  /**
    The window shows at most 50 characters before the caret and 30 from it on, plus two
    ellipses; the caret stands under the offending character, or one past the line's end.
   */
  lemma SnippetFrames(cs: seq<Char>, k: nat, control: Char -> bool)
    requires k <= |cs|
    ensures |Window(cs, k, control)| <= SNIPPET_CHARS_BEFORE + SNIPPET_CHARS_AFTER + 2
    ensures k < |cs| ==> CaretColumn(k) < |Window(cs, k, control)| && Window(cs, k, control)[CaretColumn(k)] == Rendered(cs[k], control)
    ensures k == |cs| ==> CaretColumn(k) == |Window(cs, k, control)|
    ensures |cs| <= SNIPPET_CHARS_AFTER ==> Window(cs, k, control) == RenderedAll(cs, control)
  {
    hide Rendered;
    if |cs| <= SNIPPET_CHARS_AFTER {
      assert cs[First(k)..Last(|cs|, k)] == cs;
    }
  }

  /**
    The snippet, cell by cell. It shows the 50 characters before character `k` and the 30
    from it on, or what there is of them, an ellipsis on a side that is cut, and below them
    the caret under character `k`.
   */
  lemma SnippetShows(cs: seq<Char>, k: nat, control: Char -> bool) returns (shown: seq<Char>, blanks: seq<Char>)
    requires k <= |cs|
    ensures var before := if k < 50 then k else 50;
            var after := if |cs| - k < 30 then |cs| - k else 30;
            var left: seq<Char> := if before < k then [[0xE2, 0x80, 0xA6]] else [];
            var right: seq<Char> := if k + after < |cs| then [[0xE2, 0x80, 0xA6]] else [];
            && Snippet(cs, k, control) == left + shown + right + [Ascii("\n")] + blanks + [Ascii("^")]
            && |shown| == before + after && |blanks| == |left| + before
            && (forall i :: 0 <= i < |shown| ==> shown[i] == Shown(cs[k - before + i], control))
            && (forall i :: 0 <= i < |blanks| ==> blanks[i] == Ascii(" "))
  {
    assert Ascii(" ") == [SPACE] && Ascii("\n") == [LF] && Ascii("^") == [CARET];
    shown := RenderedAll(cs[First(k)..Last(|cs|, k)], control);
    blanks := seq(CaretColumn(k), i => [SPACE]);
  }

  /** A control character takes one blank cell; every other character is shown as it is. */
  function Shown(ch: Char, control: Char -> bool): (shown: Char)
    ensures control(ch) ==> shown == Ascii(" ")
    ensures !control(ch) ==> shown == ch
  {
    if control(ch) then Ascii(" ") else ch
  }

  predicate IsBoundary(line: bytes, b: nat)
    requires b <= |line|
  {
    b == 0 || b == |line| || !IsCont(line[b])
  }

  /** The byte offset where character `k` starts. */
  function ByteOf(cs: seq<Char>, k: nat): nat
    requires k <= |cs|
  {
    |Flat(cs[..k])|
  }

  lemma {:induction false} FlatCut(cs: seq<Char>, k: nat)
    requires k <= |cs|
    ensures Flat(cs) == Flat(cs[..k]) + Flat(cs[k..])
  {
    if k == 0 {
      assert cs[0..] == cs && cs[..0] == [];
      assert [] + Flat(cs) == Flat(cs);
    } else {
      FlatCut(cs[1..], k - 1);
      assert cs[..k][1..] == cs[1..][..k - 1] && cs[k..] == cs[1..][k - 1..];
      assert cs[0] + (Flat(cs[1..][..k - 1]) + Flat(cs[k..])) == cs[0] + Flat(cs[1..][..k - 1]) + Flat(cs[k..]);
    }
  }

  /** Character `CharAt` starts at the last character boundary at or before the byte. */
  lemma {:induction false} CharAtBoundary(cs: seq<Char>, b: nat)
    requires AllChars(cs) && b <= |Flat(cs)|
    ensures var k := CharAt(cs, b);
            && ByteOf(cs, k) <= b
            && IsBoundary(Flat(cs), ByteOf(cs, k))
            && forall i :: ByteOf(cs, k) < i <= b ==> !IsBoundary(Flat(cs), i)
  {
    var line := Flat(cs);
    if cs == [] || b < |cs[0]| {
      assert cs[..0] == [];
      assert forall i :: 0 < i <= b ==> line[i] == cs[0][i];
    } else {
      var n, k := |cs[0]|, CharAt(cs[1..], b - |cs[0]|);
      var rest := Flat(cs[1..]);
      CharAtBoundary(cs[1..], b - n);
      assert cs[..k + 1][1..] == cs[1..][..k];
      assert ByteOf(cs, k + 1) == n + ByteOf(cs[1..], k);
      assert forall i :: n <= i < |line| ==> line[i] == rest[i - n];
      if rest != [] {
        FirstIsBoundary(cs[1..]);
      }
      forall i | n <= i <= |line|
        ensures IsBoundary(line, i) <==> IsBoundary(rest, i - n)
      {
      }
    }
  }

  lemma FirstIsBoundary(cs: seq<Char>)
    requires AllChars(cs) && Flat(cs) != []
    ensures !IsCont(Flat(cs)[0])
  {
  }

  lemma CharsBefore(cs: seq<Char>, k: nat)
    requires AllChars(cs) && k <= |cs|
    ensures ByteOf(cs, k) <= |Flat(cs)|
    ensures CountChars(Flat(cs)[..ByteOf(cs, k)]) == k
    ensures CountChars(Flat(cs)[ByteOf(cs, k)..]) == |cs| - k
  {
    hide Flat, CountChars;
    FlatCut(cs, k);
    CountFlat(cs[..k]);
    CountFlat(cs[k..]);
    var a, b := Flat(cs[..k]), Flat(cs[k..]);
    assert (a + b)[..|a|] == a && (a + b)[|a|..] == b;
  }

  /** Back from a byte offset to the boundary of the character holding it. */
  method BackToBoundary(cs: seq<Char>, b: nat) returns (caret: nat)
    requires AllChars(cs) && b <= |Flat(cs)|
    ensures caret == ByteOf(cs, CharAt(cs, b)) <= |Flat(cs)|
  {
    hide CharAt, Flat;
    var line := Flat(cs);
    CharAtBoundary(cs, b);
    caret := b;
    while !IsBoundary(line, caret)
      invariant ByteOf(cs, CharAt(cs, b)) <= caret <= b
      invariant forall i :: caret < i <= b ==> !IsBoundary(line, i)
      decreases caret
    {
      caret := caret - 1;
    }
  }

  /** The snippet's text for a caret after `caretChars` of the line's `total` characters. */
  method RenderSnippet(cs: seq<Char>, caretChars: nat, total: nat, control: Char -> bool) returns (out: seq<Char>)
    requires caretChars <= total == |cs|
    ensures out == Snippet(cs, caretChars, control)
  {
    hide Rendered;
    var windowFirst := if caretChars <= SNIPPET_CHARS_BEFORE then 0 else caretChars - SNIPPET_CHARS_BEFORE;
    var windowLast := if caretChars + SNIPPET_CHARS_AFTER <= total then caretChars + SNIPPET_CHARS_AFTER else total;
    var caretColumn := caretChars - windowFirst;
    out := [];
    if windowFirst > 0 {
      out := out + [ELLIPSIS];
      caretColumn := caretColumn + 1;
    }
    ghost var lead := out;
    for i := windowFirst to windowLast
      invariant out == lead + RenderedAll(cs[windowFirst..i], control)
    {
      assert cs[windowFirst..i + 1] == cs[windowFirst..i] + [cs[i]];
      out := out + [Rendered(cs[i], control)];
    }
    if windowLast < total {
      out := out + [ELLIPSIS];
    }
    assert out == Window(cs, caretChars, control);
    out := out + [[LF]];
    ghost var above := out;
    for i := 0 to caretColumn
      invariant out == above + seq(i, _ => [SPACE])
    {
      out := out + [[SPACE]];
    }
    out := out + [[CARET]];
  }

  /** `build_snippet` on a line of characters. */
  method BuildSnippet(cs: seq<Char>, caretByte: nat, control: Char -> bool) returns (r: Option<seq<Char>>)
    requires AllChars(cs)
    ensures cs == [] ==> r == None
    ensures cs != [] ==>
              var b := if caretByte <= |Flat(cs)| then caretByte else |Flat(cs)|;
              r == Some(Snippet(cs, CharAt(cs, b), control))
  {
    hide CharAt, Flat, CountChars, Snippet;
    var line := Flat(cs);
    EmptyFlat(cs);
    if line == [] {
      return None;
    }
    var caret := BackToBoundary(cs, if caretByte <= |line| then caretByte else |line|);
    CharsBefore(cs, CharAt(cs, if caretByte <= |line| then caretByte else |line|));
    var caretChars := CountChars(line[..caret]);
    var total := caretChars + CountChars(line[caret..]);
    var out := RenderSnippet(cs, caretChars, total, control);
    r := Some(out);
  }

  lemma EmptyFlat(cs: seq<Char>)
    requires AllChars(cs)
    ensures Flat(cs) == [] <==> cs == []
  {
  }

  // ----- locate -----

  datatype Location = Location(line: nat, column: nat, snippet: Option<seq<Char>>)

  /** Decoding UTF-8: text that decodes is the concatenation of its characters. */
  ghost predicate Utf8(decode: bytes -> Option<seq<Char>>) {
    forall s :: decode(s).Some? ==> AllChars(decode(s).value) && Flat(decode(s).value) == s
  }

  /**
    `locate`. Besides line and column it shows the line with the caret under the character
    at the offset; no snippet for an empty line or one that is not UTF-8.
   */
  method LocateOffset(source: bytes, offset: nat, decode: bytes -> Option<seq<Char>>, control: Char -> bool)
    returns (r: Location)
    requires Utf8(decode)
    ensures var off := if offset <= |source| then offset else |source|;
            var start, end := LineStart(source, off), ContentEnd(source, off);
            var cs := decode(source[start..end]);
            && (r.line, r.column) == PositionOf(source, off)
            && r.snippet == if cs.None? || cs.value == [] then None
                            else Some(Snippet(cs.value, CharAt(cs.value, CaretAt(source, off) - start), control))
  {
    hide *;
    var off := if offset <= |source| then offset else |source|;
    var line := 1 + CountNewlines(source[..off]);
    var lineStart := LineStart(source, off);
    var lineEnd := LineEnd(source, off);
    if lineEnd > lineStart && source[lineEnd - 1] == CR {
      lineEnd := lineEnd - 1;
    }
    var caret := if off < lineStart then lineStart else if off > lineEnd then lineEnd else off;
    LocatedAt(source, off, lineEnd, caret);
    var column := 1 + CountChars(source[lineStart..caret]);
    var snippet := SnippetOf(source[lineStart..lineEnd], caret - lineStart, decode, control);
    r := Location(line, column, snippet);
  }

  /** The snippet of a line's content, unless it is empty or not UTF-8. */
  method SnippetOf(content: bytes, caretByte: nat, decode: bytes -> Option<seq<Char>>, control: Char -> bool)
    returns (r: Option<seq<Char>>)
    requires Utf8(decode) && caretByte <= |content|
    ensures var cs := decode(content);
            r == if cs.None? || cs.value == [] then None else Some(Snippet(cs.value, CharAt(cs.value, caretByte), control))
  {
    hide *;
    if decode(content).None? {
      return None;
    }
    DecodedChars(decode, content);
    r := BuildSnippet(decode(content).value, caretByte, control);
  }

  lemma LocatedAt(s: bytes, off: nat, end: nat, caret: nat)
    requires off <= |s|
    requires end == var e := LineEnd(s, off); if e > LineStart(s, off) && s[e - 1] == CR then e - 1 else e
    requires caret == if off > end then end else off
    ensures end == ContentEnd(s, off) && caret == CaretAt(s, off)
    ensures LineStart(s, off) <= caret <= end
    ensures PositionOf(s, off) == (1 + CountNewlines(s[..off]), 1 + CountChars(s[LineStart(s, off)..caret]))
  {
    hide LineStart, LineEnd, CountNewlines, CountChars;
  }

  lemma DecodedChars(decode: bytes -> Option<seq<Char>>, s: bytes)
    requires Utf8(decode) && decode(s).Some?
    ensures AllChars(decode(s).value) && Flat(decode(s).value) == s
  {
  }

  /**
    The reported column and the caret name the same character exactly when the offset is on
    a character boundary; inside a character the column is one too far.
   */
  lemma ColumnNamesCaret(source: bytes, off: nat, cs: seq<Char>)
    requires off <= |source| && AllChars(cs)
    requires Flat(cs) == source[LineStart(source, off)..ContentEnd(source, off)]
    ensures var b := CaretAt(source, off) - LineStart(source, off);
            && (IsBoundary(Flat(cs), b) ==> ColumnOf(source, off) == CharAt(cs, b) + 1)
            && (!IsBoundary(Flat(cs), b) ==> ColumnOf(source, off) == CharAt(cs, b) + 2)
  {
    hide CharAt, Flat, LineStart, ContentEnd, CountChars;
    var start, line := LineStart(source, off), Flat(cs);
    var b := CaretAt(source, off) - start;
    var k := CharAt(cs, b);
    CharAtBoundary(cs, b);
    CharsBefore(cs, k);
    assert source[start..CaretAt(source, off)] == line[..b];
    var from := ByteOf(cs, k);
    assert line[..b] == line[..from] + line[from..b];
    CountMore(line[..from], line[from..b]);
    if from < b {
      assert IsChar(line[from..b]) by { InsideChar(cs, k, b); }
      CountTail(line[from..b]);
    } else {
      assert line[from..b] == [];
      assert CountChars([]) == 0 by { NothingCounts(); }
    }
  }

  /** Inside a two-byte character: the column is the next one's, the caret this one's. */
  lemma ColumnInsideCharacter()
    ensures var e: bytes := [195, 169];
            && ColumnOf(e, 1) == 2 && ColumnOf(e, 0) == 1
            && AllChars([e]) && Flat([e]) == e && CharAt([e], 1) == 0
  {
    var e: bytes := [195, 169];
    assert [e][1..] == [] && e + [] == e;
    assert Flat([e]) == e;
    assert LineStart(e, 1) == 0 && LineEnd(e, 2) == 2 && LineEnd(e, 1) == 2 && LineEnd(e, 0) == 2;
    assert e[0..1] == [195] && e[0..0] == [];
    NothingCounts();
    assert CountChars([195]) == 1 by { CountTail([195]); }
  }

  lemma NothingCounts()
    ensures CountChars([]) == 0
  {
  }

  /** From a boundary up to bytes that are none: the start of one character. */
  lemma InsideChar(cs: seq<Char>, k: nat, b: nat)
    requires AllChars(cs) && k <= |cs| && ByteOf(cs, k) < b <= |Flat(cs)|
    requires IsBoundary(Flat(cs), ByteOf(cs, k)) && forall i :: ByteOf(cs, k) < i <= b ==> !IsBoundary(Flat(cs), i)
    ensures IsChar(Flat(cs)[ByteOf(cs, k)..b])
  {
    hide Flat;
    var line, from := Flat(cs), ByteOf(cs, k);
    if from == 0 {
      FirstIsBoundary(cs);
    }
    forall i | from < i < b
      ensures IsCont(line[i])
    {
      assert !IsBoundary(line, i);
    }
  }
}
