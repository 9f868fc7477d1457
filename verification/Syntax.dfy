/**
  Concrete JSON text: a tree that keeps every byte, with whitespace in each slot
  section 2 of RFC 8259 allows, and the text it prints.
 */
module Syntax {
  import opened Bytes

  /** `Leaf` is a string, number or literal token; `Group` an object or an array. */
  datatype Node =
    | Leaf(text: bytes)
    | Group(obj: bool, gap: bytes, entries: seq<Entry>)

  /** One member or element with the whitespace around it. */
  datatype Entry = Entry(lead: bytes, head: Label, value: Node, trail: bytes)

  /** What stands before a value: nothing in an array, `"key" :` in an object. */
  datatype Label = Bare | Key(text: bytes, pre: bytes, post: bytes)

  datatype Doc = Doc(lead: bytes, root: Node, trail: bytes)

  // ----- printing -----

  function Opener(obj: bool): byte {
    if obj then LBRACE else LBRACKET
  }

  function Closer(obj: bool): byte {
    if obj then RBRACE else RBRACKET
  }

  function Print(n: Node): bytes
    decreases n, 0
  {
    match n
    case Leaf(text) => text
    case Group(obj, gap, es) => Wrap(obj, gap, Texts(es))
  }

  function PrintLabel(l: Label): bytes {
    match l
    case Bare => []
    case Key(text, pre, post) => text + pre + [COLON] + post
  }

  function PrintEntry(e: Entry): bytes
    decreases e, 1
  {
    e.lead + PrintLabel(e.head) + Print(e.value) + e.trail
  }

  /** The text of each entry. */
  function Texts(es: seq<Entry>): (ts: seq<bytes>)
    ensures |ts| == |es|
    decreases es, 2
  {
    if es == [] then [] else [PrintEntry(es[0])] + Texts(es[1..])
  }

  /** A group's text, given its entries' texts. */
  function Wrap(obj: bool, gap: bytes, ts: seq<bytes>): bytes {
    [Opener(obj)] + (if ts == [] then gap else Body(ts)) + [Closer(obj)]
  }

  /** Texts joined by commas. */
  function Body(ts: seq<bytes>): bytes
    requires ts != []
  {
    ts[0] + Tail(ts[1..])
  }

  /** Texts each preceded by a comma. */
  function Tail(ts: seq<bytes>): bytes {
    if ts == [] then [] else [COMMA] + ts[0] + Tail(ts[1..])
  }

  function PrintDoc(d: Doc): bytes {
    d.lead + Print(d.root) + d.trail
  }

  // ----- well-formedness -----

  /**
    A byte of a number or literal token. Which runs of them spell a number is the
    tokenizer's business; here any run does.
   */
  predicate IsBare(b: byte) {
    !IsWs(b) && b >= 32 && b != QUOTE && b != COMMA && b != COLON
    && b != LBRACKET && b != RBRACKET && b != LBRACE && b != RBRACE
  }

  /** The length of the run of bare bytes at the start of `s`. */
  function BareLen(s: bytes): (n: nat)
    ensures n <= |s|
  {
    if s == [] || !IsBare(s[0]) then 0 else 1 + BareLen(s[1..])
  }

  /** The length of string content up to and including its closing quote; 0 when unclosed. */
  function QuotedLen(s: bytes): (n: nat)
    ensures n <= |s|
  {
    if s == [] || s[0] < 32 then 0
    else if s[0] == QUOTE then 1
    else if s[0] == BACKSLASH then
      if |s| < 2 || s[1] < 32 then 0
      else var n := QuotedLen(s[2..]); if n == 0 then 0 else n + 2
    else var n := QuotedLen(s[1..]); if n == 0 then 0 else n + 1
  }

  /** The length of the string token at the start of `s`; 0 when there is none. */
  function StringLen(s: bytes): (n: nat)
    ensures n <= |s|
    ensures n == 0 || n >= 2
  {
    if s == [] || s[0] != QUOTE then 0
    else var n := QuotedLen(s[1..]); if n == 0 then 0 else n + 1
  }

  /** The length of the string, number or literal token at the start of `s`. */
  function TokenLen(s: bytes): (n: nat)
    ensures n <= |s|
  {
    if s != [] && s[0] == QUOTE then StringLen(s) else BareLen(s)
  }

  predicate IsString(t: bytes) {
    t != [] && StringLen(t) == |t|
  }

  predicate IsToken(t: bytes) {
    t != [] && TokenLen(t) == |t|
  }

  ghost predicate WfLabel(obj: bool, l: Label) {
    match l
    case Bare => !obj
    case Key(text, pre, post) => obj && IsString(text) && AllWs(pre) && AllWs(post)
  }

  ghost predicate Wf(n: Node)
    decreases n, 0
  {
    match n
    case Leaf(text) => IsToken(text)
    case Group(obj, gap, es) =>
      && AllWs(gap)
      && (es != [] ==> gap == [])
      && forall i :: 0 <= i < |es| ==> WfEntry(obj, es[i])
  }

  ghost predicate WfEntry(obj: bool, e: Entry)
    decreases e, 1
  {
    AllWs(e.lead) && AllWs(e.trail) && WfLabel(obj, e.head) && Wf(e.value)
  }

  ghost predicate WfDoc(d: Doc) {
    AllWs(d.lead) && AllWs(d.trail) && Wf(d.root)
  }

  // ----- holes -----

  /** Stands where a value was expected and no token is: a parser gets no further. */
  const HOLE: Node := Leaf([])

  ghost predicate NoHole(n: Node)
    decreases n
  {
    n != HOLE && (n.Group? ==> forall i :: 0 <= i < |n.entries| ==> NoHole(n.entries[i].value))
  }

  lemma {:induction false} WfNoHole(n: Node)
    requires Wf(n)
    ensures NoHole(n)
    decreases n
  {
    if n.Group? {
      forall i | 0 <= i < |n.entries|
        ensures NoHole(n.entries[i].value)
      {
        assert WfEntry(n.obj, n.entries[i]);
        WfNoHole(n.entries[i].value);
      }
    }
  }

  // ----- first facts -----

  /** A well-formed node's text is not empty and starts with no separator. */
  lemma FirstByte(n: Node)
    requires Wf(n)
    ensures Print(n) != []
    ensures !IsWs(Print(n)[0]) && Print(n)[0] != COMMA && Print(n)[0] != COLON
    ensures Print(n)[0] != RBRACE && Print(n)[0] != RBRACKET
    ensures n.Leaf? ==> Print(n)[0] != LBRACE && Print(n)[0] != LBRACKET
    ensures n.Group? ==> Print(n)[0] == Opener(n.obj)
  {
    if n.Leaf? && n.text[0] != QUOTE {
      assert IsBare(n.text[0]);
    }
  }

  lemma PrintsEntry(e: Entry)
    ensures PrintEntry(e) == e.lead + PrintLabel(e.head) + Print(e.value) + e.trail
  {
    hide Print;
  }

  lemma PrintsGroup(obj: bool, gap: bytes, es: seq<Entry>)
    ensures Print(Group(obj, gap, es)) == Wrap(obj, gap, Texts(es))
  {
    hide Texts, Wrap;
  }

  lemma {:induction false} TextsConcat(a: seq<Entry>, b: seq<Entry>)
    ensures Texts(a + b) == Texts(a) + Texts(b)
  {
    hide Texts;
    if a == [] {
      assert a + b == b;
      assert Texts(a) == [] by { NoTexts(); }
    } else {
      TextsConcat(a[1..], b);
      TextsCons(a[0], a[1..]);
      TextsCons(a[0], a[1..] + b);
      assert [a[0]] + a[1..] == a && [a[0]] + (a[1..] + b) == a + b;
    }
  }

  lemma NoTexts()
    ensures Texts([]) == []
  {
  }

  lemma TextsCons(e: Entry, es: seq<Entry>)
    ensures Texts([e] + es) == [PrintEntry(e)] + Texts(es)
  {
    hide PrintEntry;
    assert ([e] + es)[1..] == es;
  }

  lemma TextsOne(e: Entry)
    ensures Texts([e]) == [PrintEntry(e)]
  {
    hide PrintEntry, Print;
    assert [e][1..] == [];
  }

  lemma BodyOne(e: Entry)
    ensures Body(Texts([e])) == PrintEntry(e)
  {
    hide PrintEntry, Print;
    TextsOne(e);
  }

  lemma BodyCons(e: Entry, more: seq<Entry>)
    requires more != []
    ensures Body(Texts([e] + more)) == PrintEntry(e) + [COMMA] + Body(Texts(more))
  {
    TextsOne(e);
    TextsConcat([e], more);
    hide PrintEntry, Print, Texts;
    var ts := Texts(more);
    assert ([PrintEntry(e)] + ts)[1..] == ts;
  }

  /** What precedes entry `|a|` inside a group's body. */
  function Pre(a: seq<bytes>): bytes {
    if a == [] then [] else Body(a) + [COMMA]
  }

  lemma {:induction false} TailConcat(a: seq<bytes>, b: seq<bytes>)
    ensures Tail(a + b) == Tail(a) + Tail(b)
  {
    hide Tail;
    if a == [] {
      assert a + b == b;
      assert Tail(a) == [] by { NoTail(); }
    } else {
      TailConcat(a[1..], b);
      TailCons(a[0], a[1..]);
      TailCons(a[0], a[1..] + b);
      assert [a[0]] + a[1..] == a && [a[0]] + (a[1..] + b) == a + b;
    }
  }

  lemma NoTail()
    ensures Tail([]) == []
  {
  }

  lemma TailCons(t: bytes, ts: seq<bytes>)
    ensures Tail([t] + ts) == [COMMA] + t + Tail(ts)
  {
    assert ([t] + ts)[1..] == ts;
  }

  /** A group's body, seen from the text `x` between `a` and `b`. */
  lemma BodyAround(a: seq<bytes>, x: bytes, b: seq<bytes>)
    ensures Body(a + [x] + b) == Pre(a) + x + Tail(b)
  {
    hide Tail;
    var ts := a + [x] + b;
    if a == [] {
      assert ts == [x] + b && ts[1..] == b;
    } else {
      assert ts[0] == a[0] && ts[1..] == a[1..] + ([x] + b);
      TailConcat(a[1..], [x] + b);
      TailCons(x, b);
      Regroup(a[0], Tail(a[1..]), [COMMA], x, Tail(b));
    }
  }

  lemma Regroup(a: bytes, b: bytes, c: bytes, d: bytes, e: bytes)
    ensures a + (b + (c + d + e)) == a + b + c + d + e
  {
  }
}
