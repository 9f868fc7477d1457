/**
  The reference for generation: a recursive printer of native value trees, with commas
  placed by position. ext/nosj/src/gen/walker.rs must emit exactly this.
 */
module Printer {
  import opened Bytes
  import opened KeyCaches
  import Pointer

  // ----- what is generated -----

  /** A float: its Ruby spelling when finite. */
  datatype Float = Finite(text: bytes) | NotANumber | Infinite(negative: bool)

  /** A Hash key: a String object, a Symbol, or something else by its `to_s`. */
  datatype Key = StrKey(id: Id, text: bytes, frozen: bool) | SymKey(text: bytes) | OtherKey(text: bytes)

  /** A tree of native Ruby values. */
  datatype Value =
    | Nil
    | Bool(b: bool)
    | Fixnum(i: int)
    | Flonum(f: Float)
    | HeapFloat(f: Float)
    | Bignum(digits: bytes)
    | Str(text: bytes)
    | Sym(text: bytes)
    | Array(items: seq<Value>)
    | Hash(pairs: seq<Pair>)

  datatype Pair = Pair(key: Key, value: Value)

  datatype GenFail = NotAllowed(f: Float) | Nesting(limit: nat) | DuplicateKey

  datatype Config = Config(
    indent: bytes, space: bytes, spaceBefore: bytes, objectNl: bytes, arrayNl: bytes,
    maxNesting: nat, startDepth: nat, allowNan: bool, rails: bool, allowDuplicateKey: bool,
    mode: EscapeMode, escape: (EscapeMode, bytes) -> bytes)

  predicate NoFormat(g: Config) {
    g.indent == [] && g.space == [] && g.spaceBefore == [] && g.objectNl == [] && g.arrayNl == []
  }

  // ----- texts -----

  const NULL_TEXT: bytes := [110, 117, 108, 108]
  const TRUE_TEXT: bytes := [116, 114, 117, 101]
  const FALSE_TEXT: bytes := [102, 97, 108, 115, 101]
  const NAN_TEXT: bytes := [78, 97, 78]
  const INFINITY_TEXT: bytes := [73, 110, 102, 105, 110, 105, 116, 121]

  function IntText(i: int): (t: bytes)
    ensures t != []
  {
    if i < 0 then [DASH] + Pointer.Decimal(-i) else Pointer.Decimal(i)
  }

  function FloatText(g: Config, f: Float): Result<bytes, GenFail> {
    if f.Finite? then Ok(f.text)
    else if g.rails then Ok(NULL_TEXT)
    else if !g.allowNan then Err(NotAllowed(f))
    else if f.NotANumber? then Ok(NAN_TEXT)
    else Ok((if f.negative then [DASH] else []) + INFINITY_TEXT)
  }

  function QuotedText(g: Config, s: bytes): bytes {
    Quoted(g.escape, g.mode, s)
  }

  function Indent(g: Config, n: nat): bytes {
    if n == 0 then [] else Indent(g, n - 1) + g.indent
  }

  function TooDeep(g: Config, inner: nat): bool {
    g.maxNesting > 0 && inner > g.maxNesting
  }

  // ----- duplicate keys -----

  datatype KeyKind = StringKind | SymbolKind | OtherKind

  function KindOf(k: Key): KeyKind {
    match k
    case StrKey(_, _, _) => StringKind
    case SymKey(_) => SymbolKind
    case OtherKey(_) => OtherKind
  }

  /** Pair `i` makes the full duplicate check due: a String or Symbol key, unlike the first. */
  predicate Mixes(ps: seq<Pair>, i: nat)
    requires i < |ps|
  {
    KindOf(ps[i].key) != KindOf(ps[0].key) && KindOf(ps[i].key) != OtherKind
  }

  ghost predicate KeysRepeat(ps: seq<Pair>) {
    exists i, j :: 0 <= i < j < |ps| && ps[i].key.text == ps[j].key.text
  }

  ghost predicate Refuses(g: Config, ps: seq<Pair>, i: nat)
    requires i < |ps|
  {
    !g.allowDuplicateKey && Mixes(ps, i) && KeysRepeat(ps)
  }

  // ----- the printer -----

  function Prepend(t: bytes, r: Result<bytes, GenFail>): Result<bytes, GenFail> {
    if r.Err? then r else Ok(t + r.value)
  }

  function Append(r: Result<bytes, GenFail>, t: bytes): Result<bytes, GenFail> {
    if r.Err? then r else Ok(r.value + t)
  }

  ghost function Plain(g: Config, v: Value, depth: nat): Result<bytes, GenFail>
    decreases v, 0
  {
    match v
    case Nil => Ok(NULL_TEXT)
    case Bool(b) => Ok(if b then TRUE_TEXT else FALSE_TEXT)
    case Fixnum(i) => Ok(IntText(i))
    case Flonum(f) => FloatText(g, f)
    case HeapFloat(f) => FloatText(g, f)
    case Bignum(digits) => Ok(digits)
    case Str(text) => Ok(QuotedText(g, text))
    case Sym(text) => Ok(QuotedText(g, text))
    case Array(xs) =>
      if TooDeep(g, depth + 1) then Err(Nesting(g.maxNesting))
      else if xs == [] then Ok([LBRACKET, RBRACKET])
      else Append(Prepend([LBRACKET], PlainItems(g, xs, 0, depth + 1)), CloseText(g, g.arrayNl, depth) + [RBRACKET])
    case Hash(ps) =>
      if TooDeep(g, depth + 1) then Err(Nesting(g.maxNesting))
      else if ps == [] then Ok([LBRACE, RBRACE])
      else Append(Prepend([LBRACE], PlainPairs(g, ps, 0, depth + 1)), CloseText(g, g.objectNl, depth) + [RBRACE])
  }

  /** The line break in front of a closing bracket, only where the format has one. */
  function CloseText(g: Config, nl: bytes, depth: nat): bytes {
    if nl == [] then [] else nl + Indent(g, depth)
  }

  function ItemLead(g: Config, i: nat, inner: nat): bytes {
    (if i > 0 then [COMMA] else []) + g.arrayNl + Indent(g, inner)
  }

  /** The elements from `i` on, each with what precedes it. */
  ghost function PlainItems(g: Config, xs: seq<Value>, i: nat, inner: nat): Result<bytes, GenFail>
    requires i <= |xs|
    decreases xs, |xs| - i
  {
    if i == |xs| then Ok([])
    else
      var here := Plain(g, xs[i], inner);
      if here.Err? then here
      else Prepend(ItemLead(g, i, inner) + here.value, PlainItems(g, xs, i + 1, inner))
  }

  function PairLead(g: Config, k: Key, i: nat, inner: nat): bytes {
    (if i > 0 then [COMMA] else []) + g.objectNl + Indent(g, inner) + QuotedText(g, k.text)
    + g.spaceBefore + [COLON] + g.space
  }

  /** The members from `i` on, each with its key and what precedes it. */
  ghost function PlainPairs(g: Config, ps: seq<Pair>, i: nat, inner: nat): Result<bytes, GenFail>
    requires i <= |ps|
    decreases ps, |ps| - i
  {
    if i == |ps| then Ok([])
    else if Refuses(g, ps, i) then Err(DuplicateKey)
    else
      assert ps[i].value < ps[i];
      var here := Plain(g, ps[i].value, inner);
      if here.Err? then here
      else Prepend(PairLead(g, ps[i].key, i, inner) + here.value, PlainPairs(g, ps, i + 1, inner))
  }

  // ----- unfolding -----

  lemma PlainItemsStep(g: Config, xs: seq<Value>, i: nat, inner: nat)
    requires i <= |xs|
    ensures i == |xs| ==> PlainItems(g, xs, i, inner) == Ok([])
    ensures i < |xs| ==>
              var here := Plain(g, xs[i], inner);
              PlainItems(g, xs, i, inner) ==
              if here.Err? then here
              else Prepend(ItemLead(g, i, inner) + here.value, PlainItems(g, xs, i + 1, inner))
  {
    hide Plain, ItemLead, Prepend;
  }

  lemma PlainPairsStep(g: Config, ps: seq<Pair>, i: nat, inner: nat)
    requires i <= |ps|
    ensures i == |ps| ==> PlainPairs(g, ps, i, inner) == Ok([])
    ensures i < |ps| ==>
              var here := Plain(g, ps[i].value, inner);
              PlainPairs(g, ps, i, inner) ==
              if Refuses(g, ps, i) then Err(DuplicateKey)
              else if here.Err? then here
              else Prepend(PairLead(g, ps[i].key, i, inner) + here.value, PlainPairs(g, ps, i + 1, inner))
  {
    hide Plain, PairLead, Prepend, Refuses;
  }

  lemma PlainArray(g: Config, xs: seq<Value>, depth: nat)
    ensures Plain(g, Array(xs), depth) ==
            if TooDeep(g, depth + 1) then Err(Nesting(g.maxNesting))
            else if xs == [] then Ok([LBRACKET, RBRACKET])
            else Append(Prepend([LBRACKET], PlainItems(g, xs, 0, depth + 1)), CloseText(g, g.arrayNl, depth) + [RBRACKET])
  {
    hide PlainItems, Append, Prepend, CloseText;
  }

  lemma PlainHash(g: Config, ps: seq<Pair>, depth: nat)
    ensures Plain(g, Hash(ps), depth) ==
            if TooDeep(g, depth + 1) then Err(Nesting(g.maxNesting))
            else if ps == [] then Ok([LBRACE, RBRACE])
            else Append(Prepend([LBRACE], PlainPairs(g, ps, 0, depth + 1)), CloseText(g, g.objectNl, depth) + [RBRACE])
  {
    hide PlainPairs, Append, Prepend, CloseText;
  }

  lemma PlainScalar(g: Config, v: Value, depth: nat)
    requires !v.Array? && !v.Hash?
    ensures Plain(g, v, depth) ==
            match v
            case Nil => Ok(NULL_TEXT)
            case Bool(b) => Ok(if b then TRUE_TEXT else FALSE_TEXT)
            case Fixnum(i) => Ok(IntText(i))
            case Flonum(f) => FloatText(g, f)
            case HeapFloat(f) => FloatText(g, f)
            case Bignum(digits) => Ok(digits)
            case Str(text) => Ok(QuotedText(g, text))
            case Sym(text) => Ok(QuotedText(g, text))
            case _ => Ok([])
  {
    hide FloatText, IntText, QuotedText;
  }

  // ----- what every emitted value looks like -----

  /** A text the number kernels may write: not empty, bounded, and not ending in a brace. */
  ghost predicate NumberText(t: bytes, max: nat) {
    0 < |t| <= max && t[|t| - 1] != LBRACE
  }

  /** Every number in the tree is spelled by the kernels, within `max` bytes where a run writes it. */
  ghost predicate Native(v: Value, max: nat)
    decreases v
  {
    match v
    case Fixnum(i) => |IntText(i)| <= max
    case Flonum(f) => f.Finite? ==> NumberText(f.text, max)
    case HeapFloat(f) => f.Finite? ==> NumberText(f.text, max)
    case Bignum(digits) => digits != [] && digits[|digits| - 1] != LBRACE
    case Array(xs) => forall i :: 0 <= i < |xs| ==> Native(xs[i], max)
    case Hash(ps) => forall i :: 0 <= i < |ps| ==> Native(ps[i].value, max)
    case _ => true
  }

  lemma IntEnds(i: int)
    ensures IntText(i)[|IntText(i)| - 1] != LBRACE
  {
    Pointer.DecimalReads(if i < 0 then -i else i);
  }

  /** No emitted value is empty or ends in an opening brace. */
  lemma NeverEndsInBrace(g: Config, v: Value, depth: nat, max: nat)
    requires Native(v, max) && Plain(g, v, depth).Ok?
    ensures Plain(g, v, depth).value != []
    ensures Plain(g, v, depth).value[|Plain(g, v, depth).value| - 1] != LBRACE
  {
    hide PlainItems, PlainPairs, IntText, Indent;
    match v
    case Array(xs) => PlainArray(g, xs, depth);
    case Hash(ps) => PlainHash(g, ps, depth);
    case Fixnum(i) =>
      IntEnds(i);
      PlainScalar(g, v, depth);
    case _ => PlainScalar(g, v, depth);
  }
}
