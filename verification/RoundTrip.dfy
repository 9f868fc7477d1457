/**
  What generated text means. The text of a native tree is the text of one concrete tree, so
  parsing it gives the native tree back, whatever the formatting strings, as long as those
  are whitespace.
 */
module RoundTrip {
  import opened Bytes
  import opened Syntax
  import opened Grammar
  import opened Printer
  import Pointer
  import V = Values

  // ----- contracts of the kernels -----

  ghost predicate WsFormat(g: Config) {
    AllWs(g.indent) && AllWs(g.space) && AllWs(g.spaceBefore) && AllWs(g.objectNl) && AllWs(g.arrayNl)
  }

  /** A number or literal spelled by the kernels: one bare token. */
  ghost predicate BareText(t: bytes) {
    t != [] && forall i :: 0 <= i < |t| ==> IsBare(t[i])
  }

  /** Escaped strings are string tokens that decode to the string. */
  ghost predicate Escapes(c: V.Codec, g: Config) {
    forall s :: IsString(QuotedText(g, s)) && c.decode(QuotedText(g, s)) == s
  }

  predicate IsScalar(v: Value) {
    !v.Array? && !v.Hash?
  }

  /** Scalar tokens read as what they were generated from. */
  ghost predicate Reads(c: V.Codec, g: Config, scalar: Value -> bytes) {
    forall v :: IsScalar(v) && Plain(g, v, 0).Ok? ==> c.scalar(Plain(g, v, 0).value) == scalar(v)
  }

  /** Floats and big integers are spelled as bare tokens. */
  ghost predicate Spelled(v: Value)
    decreases v
  {
    match v
    case Flonum(f) => f.Finite? ==> BareText(f.text)
    case HeapFloat(f) => f.Finite? ==> BareText(f.text)
    case Bignum(digits) => BareText(digits)
    case Array(xs) => forall i :: 0 <= i < |xs| ==> Spelled(xs[i])
    case Hash(ps) => forall i :: 0 <= i < |ps| ==> Spelled(ps[i].value)
    case _ => true
  }

  // ----- what a native tree means -----

  /** The parsed value a native tree stands for; `scalar` says what each scalar reads as. */
  ghost function Meaning(scalar: Value -> bytes, v: Value): V.Value
    decreases v
  {
    match v
    case Array(xs) => V.List(seq(|xs|, i requires 0 <= i < |xs| => Meaning(scalar, xs[i])))
    case Hash(ps) =>
      V.Dict(V.MapOf(KeyTexts(ps), seq(|ps|, i requires 0 <= i < |ps| => assert ps[i].value < ps[i]; Meaning(scalar, ps[i].value))))
    case _ => V.Atom(scalar(v))
  }

  function KeyTexts(ps: seq<Pair>): (ks: seq<bytes>)
    ensures |ks| == |ps|
  {
    seq(|ps|, i requires 0 <= i < |ps| => ps[i].key.text)
  }

  /** No Hash in the tree has two keys that render alike. */
  ghost predicate NoRepeats(v: Value)
    decreases v
  {
    match v
    case Array(xs) => forall i :: 0 <= i < |xs| ==> NoRepeats(xs[i])
    case Hash(ps) => !KeysRepeat(ps) && forall i :: 0 <= i < |ps| ==> NoRepeats(ps[i].value)
    case _ => true
  }

  /** Containers nest at most `k` deep. */
  ghost predicate Within(v: Value, k: int)
    decreases v
  {
    match v
    case Array(xs) => k > 0 && forall i :: 0 <= i < |xs| ==> Within(xs[i], k - 1)
    case Hash(ps) => k > 0 && forall i :: 0 <= i < |ps| ==> Within(ps[i].value, k - 1)
    case _ => true
  }

  // ----- the concrete tree behind the text -----

  ghost function ScalarText(g: Config, v: Value): bytes {
    if Plain(g, v, 0).Ok? then Plain(g, v, 0).value else []
  }

  ghost function TreeOf(g: Config, v: Value, depth: nat): Node
    decreases v, 1
  {
    match v
    case Array(xs) => Group(false, [], ItemEntries(g, xs, 0, depth))
    case Hash(ps) => Group(true, [], PairEntries(g, ps, 0, depth))
    case _ => Leaf(ScalarText(g, v))
  }

  /** The entries of the elements from `i` on; the last carries the break before the bracket. */
  ghost function ItemEntries(g: Config, xs: seq<Value>, i: nat, depth: nat): (es: seq<Entry>)
    requires i <= |xs|
    ensures |es| == |xs| - i
    decreases xs, |xs| - i
  {
    if i == |xs| then []
    else [ItemEntry(g, |xs|, i, depth, TreeOf(g, xs[i], depth + 1))] + ItemEntries(g, xs, i + 1, depth)
  }

  ghost function ItemEntry(g: Config, count: nat, i: nat, depth: nat, n: Node): Entry {
    Entry(g.arrayNl + Indent(g, depth + 1), Bare, n, if i + 1 == count then CloseText(g, g.arrayNl, depth) else [])
  }

  ghost function PairEntries(g: Config, ps: seq<Pair>, i: nat, depth: nat): (es: seq<Entry>)
    requires i <= |ps|
    ensures |es| == |ps| - i
    decreases ps, |ps| - i
  {
    if i == |ps| then []
    else
      assert ps[i].value < ps[i];
      [PairEntry(g, |ps|, i, depth, ps[i].key, TreeOf(g, ps[i].value, depth + 1))] + PairEntries(g, ps, i + 1, depth)
  }

  ghost function PairEntry(g: Config, count: nat, i: nat, depth: nat, k: Printer.Key, n: Node): Entry {
    Entry(g.objectNl + Indent(g, depth + 1), Syntax.Key(QuotedText(g, k.text), g.spaceBefore, g.space), n,
          if i + 1 == count then CloseText(g, g.objectNl, depth) else [])
  }

  lemma ItemEntriesStep(g: Config, xs: seq<Value>, i: nat, depth: nat)
    requires i < |xs|
    ensures ItemEntries(g, xs, i, depth) ==
            [ItemEntry(g, |xs|, i, depth, TreeOf(g, xs[i], depth + 1))] + ItemEntries(g, xs, i + 1, depth)
  {
    hide TreeOf, ItemEntry;
  }

  lemma PairEntriesStep(g: Config, ps: seq<Pair>, i: nat, depth: nat)
    requires i < |ps|
    ensures PairEntries(g, ps, i, depth) ==
            [PairEntry(g, |ps|, i, depth, ps[i].key, TreeOf(g, ps[i].value, depth + 1))] + PairEntries(g, ps, i + 1, depth)
  {
    hide TreeOf, PairEntry;
  }

  lemma {:induction false} ItemEntriesAt(g: Config, xs: seq<Value>, i: nat, depth: nat, k: nat)
    requires i <= k < |xs|
    ensures ItemEntries(g, xs, i, depth)[k - i] == ItemEntry(g, |xs|, k, depth, TreeOf(g, xs[k], depth + 1))
    decreases k - i
  {
    hide TreeOf, ItemEntry, ItemEntries;
    ItemEntriesStep(g, xs, i, depth);
    if i < k {
      ItemEntriesAt(g, xs, i + 1, depth, k);
    }
  }

  lemma {:induction false} PairEntriesAt(g: Config, ps: seq<Pair>, i: nat, depth: nat, k: nat)
    requires i <= k < |ps|
    ensures PairEntries(g, ps, i, depth)[k - i] == PairEntry(g, |ps|, k, depth, ps[k].key, TreeOf(g, ps[k].value, depth + 1))
    decreases k - i
  {
    hide TreeOf, PairEntry, PairEntries;
    PairEntriesStep(g, ps, i, depth);
    if i < k {
      PairEntriesAt(g, ps, i + 1, depth, k);
    }
  }

  /** A container's tree, entry by entry. */
  lemma TreeOfArray(g: Config, xs: seq<Value>, depth: nat)
    ensures var n := TreeOf(g, Array(xs), depth);
            && n.Group? && !n.obj && n.gap == [] && n.entries == ItemEntries(g, xs, 0, depth)
            && forall k :: 0 <= k < |xs| ==> n.entries[k] == ItemEntry(g, |xs|, k, depth, TreeOf(g, xs[k], depth + 1))
  {
    hide ItemEntries, ItemEntry;
    var n := TreeOf(g, Array(xs), depth);
    forall k | 0 <= k < |xs|
      ensures n.entries[k] == ItemEntry(g, |xs|, k, depth, TreeOf(g, xs[k], depth + 1))
    {
      ItemEntriesAt(g, xs, 0, depth, k);
    }
  }

  lemma TreeOfHash(g: Config, ps: seq<Pair>, depth: nat)
    ensures var n := TreeOf(g, Hash(ps), depth);
            && n.Group? && n.obj && n.gap == [] && n.entries == PairEntries(g, ps, 0, depth)
            && forall k :: 0 <= k < |ps| ==>
                 n.entries[k] == PairEntry(g, |ps|, k, depth, ps[k].key, TreeOf(g, ps[k].value, depth + 1))
  {
    hide PairEntries, PairEntry;
    var n := TreeOf(g, Hash(ps), depth);
    forall k | 0 <= k < |ps|
      ensures n.entries[k] == PairEntry(g, |ps|, k, depth, ps[k].key, TreeOf(g, ps[k].value, depth + 1))
    {
      PairEntriesAt(g, ps, 0, depth, k);
    }
  }

  // ----- its text -----

  lemma ScalarDepth(g: Config, v: Value, depth: nat)
    requires IsScalar(v)
    ensures Plain(g, v, depth) == Plain(g, v, 0)
  {
    PlainScalar(g, v, depth);
    PlainScalar(g, v, 0);
  }

  lemma EntryText(e: Entry, lead: bytes, head: bytes, here: bytes, trail: bytes)
    requires e.lead == lead && PrintLabel(e.head) == head && Print(e.value) == here && e.trail == trail
    ensures PrintEntry(e) == lead + head + here + trail
  {
    PrintsEntry(e);
  }

  lemma ItemText(e: Entry, lead: bytes, here: bytes)
    requires e.lead == lead && e.head == Bare && Print(e.value) == here
    ensures PrintEntry(e) == lead + here + e.trail
  {
    hide Print;
    PrintsEntry(e);
    assert lead + [] == lead;
  }

  lemma Enclosed(open: byte, close: byte, body: bytes, items: Result<bytes, GenFail>, nl: bytes)
    requires items.Ok? && CommaIf(false) + body == items.value + nl
    ensures Append(Prepend([open], items), nl + [close]) == Ok([open] + body + [close])
  {
    assert CommaIf(false) + body == body;
    assert [open] + items.value + (nl + [close]) == [open] + (items.value + nl) + [close];
  }

  lemma {:induction false} Prints(g: Config, v: Value, depth: nat)
    requires Plain(g, v, depth).Ok?
    ensures Print(TreeOf(g, v, depth)) == Plain(g, v, depth).value
    decreases v, 1
  {
    hide Plain, PlainItems, PlainPairs, ItemEntries, PairEntries, Print, Texts, CloseText, Body;
    match v {
      case Array(xs) =>
        PlainArray(g, xs, depth);
        TreeOfArray(g, xs, depth);
        PrintsGroup(false, [], ItemEntries(g, xs, 0, depth));
        if xs != [] {
          ItemsPrint(g, xs, 0, depth);
          Enclosed(LBRACKET, RBRACKET, Body(Texts(ItemEntries(g, xs, 0, depth))), PlainItems(g, xs, 0, depth + 1), CloseText(g, g.arrayNl, depth));
        }
      case Hash(ps) =>
        PlainHash(g, ps, depth);
        TreeOfHash(g, ps, depth);
        PrintsGroup(true, [], PairEntries(g, ps, 0, depth));
        if ps != [] {
          PairsPrint(g, ps, 0, depth);
          Enclosed(LBRACE, RBRACE, Body(Texts(PairEntries(g, ps, 0, depth))), PlainPairs(g, ps, 0, depth + 1), CloseText(g, g.objectNl, depth));
        }
      case _ =>
        ScalarDepth(g, v, depth);
        PrintsLeaf(ScalarText(g, v));
    }
  }

  ghost function CommaIf(b: bool): bytes {
    if b then [COMMA] else []
  }

  lemma {:induction false} ItemsPrint(g: Config, xs: seq<Value>, i: nat, depth: nat)
    requires i < |xs| && PlainItems(g, xs, i, depth + 1).Ok?
    ensures CommaIf(i > 0) + Body(Texts(ItemEntries(g, xs, i, depth)))
            == PlainItems(g, xs, i, depth + 1).value + CloseText(g, g.arrayNl, depth)
    decreases xs, |xs| - i
  {
    hide Plain, PlainItems, ItemEntries, TreeOf, Print, PrintEntry, Texts, CloseText, Body, Indent;
    var inner := depth + 1;
    PlainItemsStep(g, xs, i, inner);
    ItemEntriesStep(g, xs, i, depth);
    var n := TreeOf(g, xs[i], inner);
    Prints(g, xs[i], inner);
    var e := ItemEntry(g, |xs|, i, depth, n);
    var lead, here := g.arrayNl + Indent(g, inner), Print(n);
    ItemText(e, lead, here);
    var rest := ItemEntries(g, xs, i + 1, depth);
    var close := CloseText(g, g.arrayNl, depth);
    if i + 1 == |xs| {
      PlainItemsStep(g, xs, i + 1, inner);
      BodyOne(e);
      assert [e] + rest == [e];
      Joined(i > 0, lead, here, [], close, PrintEntry(e));
    } else {
      ItemsPrint(g, xs, i + 1, depth);
      BodyCons(e, rest);
      JoinedMore(i > 0, lead, here, PlainItems(g, xs, i + 1, inner).value, Body(Texts(rest)), close, PrintEntry(e));
    }
  }

  lemma Joined(comma: bool, lead: bytes, here: bytes, rest: bytes, close: bytes, printed: bytes)
    requires printed == lead + here + close && rest == []
    ensures CommaIf(comma) + printed == CommaIf(comma) + lead + here + rest + close
  {
  }

  lemma JoinedMore(comma: bool, lead: bytes, here: bytes, rest: bytes, more: bytes, close: bytes, printed: bytes)
    requires printed == lead + here + [] && [COMMA] + more == rest + close
    ensures CommaIf(comma) + (printed + [COMMA] + more) == CommaIf(comma) + lead + here + rest + close
  {
    assert printed + [COMMA] + more == lead + here + ([COMMA] + more);
  }

  lemma {:induction false} PairsPrint(g: Config, ps: seq<Pair>, i: nat, depth: nat)
    requires i < |ps| && PlainPairs(g, ps, i, depth + 1).Ok?
    ensures CommaIf(i > 0) + Body(Texts(PairEntries(g, ps, i, depth)))
            == PlainPairs(g, ps, i, depth + 1).value + CloseText(g, g.objectNl, depth)
    decreases ps, |ps| - i
  {
    hide Plain, PlainPairs, PairEntries, TreeOf, Print, PrintEntry, Texts, CloseText, Body, Indent, QuotedText, Refuses;
    var inner := depth + 1;
    PlainPairsStep(g, ps, i, inner);
    PairEntriesStep(g, ps, i, depth);
    assert ps[i].value < ps[i];
    var n := TreeOf(g, ps[i].value, inner);
    Prints(g, ps[i].value, inner);
    var e := PairEntry(g, |ps|, i, depth, ps[i].key, n);
    var head := QuotedText(g, ps[i].key.text) + g.spaceBefore + [COLON] + g.space;
    var lead, here := g.objectNl + Indent(g, inner) + head, Print(n);
    EntryText(e, g.objectNl + Indent(g, inner), head, here, e.trail);
    PairLeadText(g, ps[i].key, i, inner, head);
    var rest := PairEntries(g, ps, i + 1, depth);
    var close := CloseText(g, g.objectNl, depth);
    if i + 1 == |ps| {
      PlainPairsStep(g, ps, i + 1, inner);
      BodyOne(e);
      assert [e] + rest == [e];
      Joined(i > 0, lead, here, [], close, PrintEntry(e));
    } else {
      PairsPrint(g, ps, i + 1, depth);
      BodyCons(e, rest);
      JoinedMore(i > 0, lead, here, PlainPairs(g, ps, i + 1, inner).value, Body(Texts(rest)), close, PrintEntry(e));
    }
  }

  lemma PairLeadText(g: Config, k: Printer.Key, i: nat, inner: nat, head: bytes)
    requires head == QuotedText(g, k.text) + g.spaceBefore + [COLON] + g.space
    ensures PairLead(g, k, i, inner) == CommaIf(i > 0) + (g.objectNl + Indent(g, inner) + head)
  {
    hide QuotedText, Indent;
  }

  // ----- when generation succeeds -----

  /** Every float may be written, and no Hash is refused for its keys. */
  ghost predicate Emittable(g: Config, v: Value)
    decreases v
  {
    match v
    case Flonum(f) => f.Finite? || g.rails || g.allowNan
    case HeapFloat(f) => f.Finite? || g.rails || g.allowNan
    case Array(xs) => forall i :: 0 <= i < |xs| ==> Emittable(g, xs[i])
    case Hash(ps) =>
      && (forall i :: 0 <= i < |ps| ==> !Refuses(g, ps, i))
      && forall i :: 0 <= i < |ps| ==> Emittable(g, ps[i].value)
    case _ => true
  }

  lemma {:induction false} ItemsOk(g: Config, xs: seq<Value>, i: nat, inner: nat)
    requires i <= |xs|
    ensures PlainItems(g, xs, i, inner).Ok? <==> forall k :: i <= k < |xs| ==> Plain(g, xs[k], inner).Ok?
    decreases |xs| - i
  {
    hide Plain, PlainItems, ItemLead;
    PlainItemsStep(g, xs, i, inner);
    if i < |xs| {
      ItemsOk(g, xs, i + 1, inner);
    }
  }

  lemma {:induction false} PairsOk(g: Config, ps: seq<Pair>, i: nat, inner: nat)
    requires i <= |ps|
    ensures PlainPairs(g, ps, i, inner).Ok? <==>
            forall k :: i <= k < |ps| ==> !Refuses(g, ps, k) && Plain(g, ps[k].value, inner).Ok?
    decreases |ps| - i
  {
    hide Plain, PlainPairs, PairLead, Refuses;
    PlainPairsStep(g, ps, i, inner);
    if i < |ps| {
      PairsOk(g, ps, i + 1, inner);
    }
  }

  lemma ArrayOk(g: Config, xs: seq<Value>, depth: nat)
    ensures Plain(g, Array(xs), depth).Ok? <==>
            !TooDeep(g, depth + 1) && forall k :: 0 <= k < |xs| ==> Plain(g, xs[k], depth + 1).Ok?
  {
    hide Plain, PlainItems, CloseText;
    PlainArray(g, xs, depth);
    ItemsOk(g, xs, 0, depth + 1);
  }

  lemma HashOk(g: Config, ps: seq<Pair>, depth: nat)
    ensures Plain(g, Hash(ps), depth).Ok? <==>
            && !TooDeep(g, depth + 1)
            && forall k :: 0 <= k < |ps| ==> !Refuses(g, ps, k) && Plain(g, ps[k].value, depth + 1).Ok?
  {
    hide Plain, PlainPairs, CloseText, Refuses;
    PlainHash(g, ps, depth);
    PairsOk(g, ps, 0, depth + 1);
  }

  /**
    Generation fails exactly when the tree nests past the limit, holds a float that may not
    be written, or holds a Hash refused for its keys.
   */
  lemma {:induction false} GenerateAccepts(g: Config, v: Value, depth: nat)
    ensures Plain(g, v, depth).Ok? <==> Emittable(g, v) && (g.maxNesting > 0 ==> Within(v, g.maxNesting - depth))
    decreases v
  {
    hide Plain, Refuses, QuotedText, IntText;
    match v {
      case Array(xs) =>
        ArrayOk(g, xs, depth);
        forall k | 0 <= k < |xs|
          ensures Plain(g, xs[k], depth + 1).Ok? <==>
                  Emittable(g, xs[k]) && (g.maxNesting > 0 ==> Within(xs[k], g.maxNesting - depth - 1))
        {
          GenerateAccepts(g, xs[k], depth + 1);
        }
      case Hash(ps) =>
        HashOk(g, ps, depth);
        forall k | 0 <= k < |ps|
          ensures Plain(g, ps[k].value, depth + 1).Ok? <==>
                  Emittable(g, ps[k].value) && (g.maxNesting > 0 ==> Within(ps[k].value, g.maxNesting - depth - 1))
        {
          assert ps[k].value < ps[k];
          GenerateAccepts(g, ps[k].value, depth + 1);
        }
      case _ =>
        PlainScalar(g, v, depth);
    }
  }

  /** `f` is one of the floats of the tree. */
  ghost predicate Holds(v: Value, f: Float)
    decreases v
  {
    match v
    case Flonum(x) => x == f
    case HeapFloat(x) => x == f
    case Array(xs) => exists i :: 0 <= i < |xs| && Holds(xs[i], f)
    case Hash(ps) => exists i :: 0 <= i < |ps| && Holds(ps[i].value, f)
    case _ => false
  }

  /** What a failure says is so. */
  ghost predicate Explains(g: Config, v: Value, depth: nat, e: GenFail) {
    match e
    case NotAllowed(f) => !f.Finite? && !g.rails && !g.allowNan && Holds(v, f)
    case Nesting(limit) => limit == g.maxNesting && limit > 0 && !Within(v, limit - depth)
    case DuplicateKey => !g.allowDuplicateKey && !NoRepeats(v)
  }

  lemma {:induction false} ItemFails(g: Config, xs: seq<Value>, i: nat, inner: nat) returns (k: nat)
    requires i <= |xs| && PlainItems(g, xs, i, inner).Err?
    ensures k < |xs| && Plain(g, xs[k], inner) == PlainItems(g, xs, i, inner)
    decreases |xs| - i
  {
    hide Plain, PlainItems, ItemLead;
    PlainItemsStep(g, xs, i, inner);
    k := i;
    if Plain(g, xs[i], inner).Ok? {
      k := ItemFails(g, xs, i + 1, inner);
    }
  }

  lemma {:induction false} PairFails(g: Config, ps: seq<Pair>, i: nat, inner: nat) returns (k: nat)
    requires i <= |ps| && PlainPairs(g, ps, i, inner).Err?
    ensures k < |ps|
    ensures Plain(g, ps[k].value, inner) == PlainPairs(g, ps, i, inner)
            || (Refuses(g, ps, k) && PlainPairs(g, ps, i, inner) == Err(DuplicateKey))
    decreases |ps| - i
  {
    hide Plain, PlainPairs, PairLead, Refuses;
    PlainPairsStep(g, ps, i, inner);
    k := i;
    if !Refuses(g, ps, i) && Plain(g, ps[i].value, inner).Ok? {
      k := PairFails(g, ps, i + 1, inner);
    }
  }

  /** A failure is told apart by what caused it: a float that may not be written, the depth, or keys that render alike. */
  lemma {:induction false} FailureIsReal(g: Config, v: Value, depth: nat)
    requires Plain(g, v, depth).Err?
    ensures Explains(g, v, depth, Plain(g, v, depth).error)
    decreases v
  {
    hide Plain, PlainItems, PlainPairs, KeysRepeat, CloseText, IntText, QuotedText;
    match v {
      case Array(xs) =>
        PlainArray(g, xs, depth);
        if !TooDeep(g, depth + 1) {
          var k := ItemFails(g, xs, 0, depth + 1);
          FailureIsReal(g, xs[k], depth + 1);
        }
      case Hash(ps) =>
        PlainHash(g, ps, depth);
        if !TooDeep(g, depth + 1) {
          var k := PairFails(g, ps, 0, depth + 1);
          assert ps[k].value < ps[k];
          if Plain(g, ps[k].value, depth + 1) == PlainPairs(g, ps, 0, depth + 1) {
            FailureIsReal(g, ps[k].value, depth + 1);
          }
        }
      case _ =>
        PlainScalar(g, v, depth);
    }
  }

  // ----- the concrete tree is well formed -----

  lemma {:induction false} IndentWs(g: Config, n: nat)
    requires WsFormat(g)
    ensures AllWs(Indent(g, n))
  {
    if n > 0 {
      IndentWs(g, n - 1);
    }
  }

  lemma {:induction false} BareIsToken(t: bytes)
    requires forall i :: 0 <= i < |t| ==> IsBare(t[i])
    ensures BareLen(t) == |t|
  {
    if t != [] {
      BareIsToken(t[1..]);
    }
  }

  lemma DigitsAreBare(t: bytes)
    requires Pointer.AllDigits(t) && t != []
    ensures BareText(t) && BareText([DASH] + t)
  {
    forall k | 0 <= k < |t|
      ensures IsBare(t[k])
    {
      DigitIsBare(t[k]);
    }
  }

  lemma DigitIsBare(b: byte)
    requires Pointer.IsDigit(b)
    ensures IsBare(b)
  {
  }

  lemma IntIsBare(i: int)
    ensures BareText(IntText(i))
  {
    hide Pointer.Decimal, Pointer.AllDigits, BareText;
    var n: nat := if i < 0 then -i else i;
    Pointer.DecimalReads(n);
    DigitsAreBare(Pointer.Decimal(n));
  }

  lemma ScalarIsToken(c: V.Codec, g: Config, v: Value)
    requires IsScalar(v) && Escapes(c, g) && Spelled(v) && Plain(g, v, 0).Ok?
    ensures IsToken(Plain(g, v, 0).value)
  {
    hide IntText, QuotedText, StringLen, BareLen;
    PlainScalar(g, v, 0);
    var t := Plain(g, v, 0).value;
    match v {
      case Str(text) => StringIsToken(t);
      case Sym(text) => StringIsToken(t);
      case Fixnum(i) =>
        IntIsBare(i);
        BareIsToken(t);
      case _ => BareIsToken(t);
    }
  }

  lemma StringIsToken(t: bytes)
    requires IsString(t)
    ensures IsToken(t)
  {
  }

  lemma ItemEntryWf(g: Config, count: nat, i: nat, depth: nat, n: Node)
    requires WsFormat(g) && Wf(n)
    ensures WfEntry(false, ItemEntry(g, count, i, depth, n))
  {
    hide Wf, Indent;
    IndentWs(g, depth);
    IndentWs(g, depth + 1);
  }

  lemma PairEntryWf(g: Config, count: nat, i: nat, depth: nat, k: Printer.Key, n: Node)
    requires WsFormat(g) && Wf(n) && IsString(QuotedText(g, k.text))
    ensures WfEntry(true, PairEntry(g, count, i, depth, k, n))
  {
    hide Wf, Indent, QuotedText, StringLen;
    IndentWs(g, depth);
    IndentWs(g, depth + 1);
  }

  lemma {:induction false} TreeWf(c: V.Codec, g: Config, v: Value, depth: nat)
    requires WsFormat(g) && Escapes(c, g) && Spelled(v) && Plain(g, v, depth).Ok?
    ensures Wf(TreeOf(g, v, depth))
    decreases v
  {
    hide Plain, ItemEntries, PairEntries, ItemEntry, PairEntry, WfEntry, Refuses, QuotedText, WsFormat, IsToken;
    var n := TreeOf(g, v, depth);
    match v {
      case Array(xs) =>
        ArrayOk(g, xs, depth);
        TreeOfArray(g, xs, depth);
        forall k | 0 <= k < |n.entries|
          ensures WfEntry(false, n.entries[k])
        {
          TreeWf(c, g, xs[k], depth + 1);
          ItemEntryWf(g, |xs|, k, depth, TreeOf(g, xs[k], depth + 1));
        }
      case Hash(ps) =>
        HashOk(g, ps, depth);
        TreeOfHash(g, ps, depth);
        forall k | 0 <= k < |n.entries|
          ensures WfEntry(true, n.entries[k])
        {
          assert ps[k].value < ps[k];
          TreeWf(c, g, ps[k].value, depth + 1);
          PairEntryWf(g, |ps|, k, depth, ps[k].key, TreeOf(g, ps[k].value, depth + 1));
        }
      case _ =>
        ScalarDepth(g, v, depth);
        ScalarIsToken(c, g, v);
    }
  }

  // ----- what it means -----

  lemma KeysOfPairs(c: V.Codec, g: Config, ps: seq<Pair>, depth: nat)
    requires Escapes(c, g)
    ensures V.Keys(c, TreeOf(g, Hash(ps), depth).entries) == KeyTexts(ps)
  {
    hide PairEntries, TreeOf, QuotedText;
    TreeOfHash(g, ps, depth);
  }

  lemma {:induction false} TreeMeans(c: V.Codec, g: Config, scalar: Value -> bytes, v: Value, depth: nat)
    requires Escapes(c, g) && Reads(c, g, scalar) && Plain(g, v, depth).Ok?
    ensures V.ValueOf(c, TreeOf(g, v, depth)) == Meaning(scalar, v)
    decreases v
  {
    hide Plain, ItemEntries, PairEntries, TreeOf, V.ValueOf, V.ValuesOf, V.MapOf, V.Keys, KeyTexts, Refuses, Escapes;
    var n := TreeOf(g, v, depth);
    match v {
      case Array(xs) =>
        ArrayOk(g, xs, depth);
        TreeOfArray(g, xs, depth);
        V.ValueOfGroup(c, n);
        forall k | 0 <= k < |xs|
          ensures V.ValuesOf(c, n.entries)[k] == Meaning(scalar, xs[k])
        {
          TreeMeans(c, g, scalar, xs[k], depth + 1);
          V.ValuesOfAt(c, n.entries, k);
        }
        assert V.ValuesOf(c, n.entries) == seq(|xs|, i requires 0 <= i < |xs| => Meaning(scalar, xs[i]));
      case Hash(ps) =>
        HashOk(g, ps, depth);
        TreeOfHash(g, ps, depth);
        V.ValueOfGroup(c, n);
        KeysOfPairs(c, g, ps, depth);
        forall k | 0 <= k < |ps|
          ensures V.ValuesOf(c, n.entries)[k] == Meaning(scalar, ps[k].value)
        {
          assert ps[k].value < ps[k];
          TreeMeans(c, g, scalar, ps[k].value, depth + 1);
          V.ValuesOfAt(c, n.entries, k);
        }
        assert V.ValuesOf(c, n.entries) == seq(|ps|, i requires 0 <= i < |ps| => Meaning(scalar, ps[i].value));
      case _ =>
        ScalarDepth(g, v, depth);
        ScalarMeans(c, g, scalar, v, depth);
    }
  }

  lemma ScalarMeans(c: V.Codec, g: Config, scalar: Value -> bytes, v: Value, depth: nat)
    requires IsScalar(v) && Reads(c, g, scalar) && Plain(g, v, 0).Ok?
    ensures V.ValueOf(c, TreeOf(g, v, depth)) == Meaning(scalar, v)
  {
    hide Plain;
  }

  lemma DistinctTexts(ps: seq<Pair>)
    ensures V.Distinct(KeyTexts(ps)) <==> !KeysRepeat(ps)
  {
    var ks := KeyTexts(ps);
    if !V.Distinct(ks) {
      var i, j :| 0 <= i < j < |ks| && ks[i] == ks[j];
      assert ps[i].key.text == ps[j].key.text;
    }
    if KeysRepeat(ps) {
      var i, j :| 0 <= i < j < |ps| && ps[i].key.text == ps[j].key.text;
      assert ks[i] == ks[j];
    }
  }

  lemma {:induction false} TreeUnique(c: V.Codec, g: Config, v: Value, depth: nat)
    requires Escapes(c, g)
    ensures V.Unique(c, TreeOf(g, v, depth)) <==> NoRepeats(v)
    decreases v
  {
    hide ItemEntries, PairEntries, TreeOf, V.Keys, V.Distinct, KeyTexts, KeysRepeat, Escapes;
    var n := TreeOf(g, v, depth);
    match v {
      case Array(xs) =>
        TreeOfArray(g, xs, depth);
        forall k | 0 <= k < |xs|
          ensures V.Unique(c, n.entries[k].value) <==> NoRepeats(xs[k])
        {
          TreeUnique(c, g, xs[k], depth + 1);
        }
      case Hash(ps) =>
        TreeOfHash(g, ps, depth);
        KeysOfPairs(c, g, ps, depth);
        DistinctTexts(ps);
        forall k | 0 <= k < |ps|
          ensures V.Unique(c, n.entries[k].value) <==> NoRepeats(ps[k].value)
        {
          assert ps[k].value < ps[k];
          TreeUnique(c, g, ps[k].value, depth + 1);
        }
      case _ =>
        ScalarTree(g, v, depth);
    }
  }

  lemma ScalarTree(g: Config, v: Value, depth: nat)
    requires IsScalar(v)
    ensures TreeOf(g, v, depth) == Leaf(ScalarText(g, v))
  {
  }

  lemma {:induction false} TreeDepth(g: Config, v: Value, depth: nat, k: nat)
    ensures V.Depth(TreeOf(g, v, depth)) <= k <==> Within(v, k)
    decreases v
  {
    hide ItemEntries, PairEntries, TreeOf, V.Depth, V.DepthOf;
    var n := TreeOf(g, v, depth);
    V.DepthOfNode(n);
    match v {
      case Array(xs) =>
        TreeOfArray(g, xs, depth);
        if k > 0 {
          V.DepthOfBound(n.entries, k - 1);
          forall i | 0 <= i < |xs|
            ensures V.Depth(n.entries[i].value) <= k - 1 <==> Within(xs[i], k - 1)
          {
            TreeDepth(g, xs[i], depth + 1, k - 1);
          }
        }
      case Hash(ps) =>
        TreeOfHash(g, ps, depth);
        if k > 0 {
          V.DepthOfBound(n.entries, k - 1);
          forall i | 0 <= i < |ps|
            ensures V.Depth(n.entries[i].value) <= k - 1 <==> Within(ps[i].value, k - 1)
          {
            assert ps[i].value < ps[i];
            TreeDepth(g, ps[i].value, depth + 1, k - 1);
          }
        }
      case _ =>
        ScalarTree(g, v, depth);
    }
  }

  /** The kernels' contracts for one tree: everything a round trip asks of them. */
  ghost predicate Kernels(c: V.Codec, g: Config, scalar: Value -> bytes) {
    WsFormat(g) && Escapes(c, g) && Reads(c, g, scalar)
  }

  /**
    Generated text is a document, and reads as the tree it was generated from. Its nesting
    and its repeated keys are the tree's.
   */
  lemma GenerateParses(c: V.Codec, g: Config, scalar: Value -> bytes, v: Value, depth: nat)
    requires Kernels(c, g, scalar) && Spelled(v) && Plain(g, v, depth).Ok?
    ensures var parsed := ParseDoc(Plain(g, v, depth).value);
            && parsed.Some?
            && V.ValueOf(c, parsed.value.root) == Meaning(scalar, v)
            && (V.Unique(c, parsed.value.root) <==> NoRepeats(v))
            && forall k: nat :: V.Depth(parsed.value.root) <= k <==> Within(v, k)
  {
    hide Plain, TreeOf, ParseDoc, V.ValueOf, V.Unique, V.Depth, Wf, Meaning, Within, NoRepeats, Print;
    var n := TreeOf(g, v, depth);
    Prints(g, v, depth);
    TreeWf(c, g, v, depth);
    assert PrintDoc(Doc([], n, [])) == Plain(g, v, depth).value;
    DocReads(Doc([], n, []));
    TreeMeans(c, g, scalar, v, depth);
    TreeUnique(c, g, v, depth);
    forall k: nat
      ensures V.Depth(n) <= k <==> Within(v, k)
    {
      TreeDepth(g, v, depth, k);
    }
  }

  // ----- the duplicate-key check of a Hash -----

  /** A Ruby Hash keeps its String keys apart, and its Symbol keys. */
  ghost predicate KindsApart(ps: seq<Pair>) {
    forall i, j :: 0 <= i < j < |ps| && (BothStrings(ps[i].key, ps[j].key) || BothSymbols(ps[i].key, ps[j].key)) ==>
      ps[i].key.text != ps[j].key.text
  }

  predicate BothStrings(a: Key, b: Key) {
    a.StrKey? && b.StrKey?
  }

  predicate BothSymbols(a: Key, b: Key) {
    a.SymKey? && b.SymKey?
  }

  /** Nothing in `ps` makes the check due: past the first key's kind there are only keys that are no String and no Symbol. */
  ghost predicate Unmixed(ps: seq<Pair>)
    requires ps != []
  {
    forall i :: 0 <= i < |ps| ==>
      ps[i].key.OtherKey? || BothStrings(ps[0].key, ps[i].key) || BothSymbols(ps[0].key, ps[i].key)
  }

  ghost predicate Checked(g: Config, ps: seq<Pair>) {
    exists i :: 0 <= i < |ps| && Refuses(g, ps, i)
  }

  /**
    The check lets a Hash through exactly when its keys render apart, or all its keys are of
    the first one's kind or neither Strings nor Symbols. Any repeat it misses has a key that
    is neither, which renders like another key.
   */
  lemma CheckMisses(g: Config, ps: seq<Pair>)
    requires !g.allowDuplicateKey && ps != [] && KindsApart(ps)
    ensures !Checked(g, ps) <==> !KeysRepeat(ps) || Unmixed(ps)
    ensures !Checked(g, ps) && KeysRepeat(ps) ==>
              exists i, j :: 0 <= i < j < |ps| && ps[i].key.text == ps[j].key.text
                             && (ps[i].key.OtherKey? || ps[j].key.OtherKey?)
  {
    if !Checked(g, ps) && KeysRepeat(ps) {
      forall i | 0 <= i < |ps|
        ensures ps[i].key.OtherKey? || BothStrings(ps[0].key, ps[i].key) || BothSymbols(ps[0].key, ps[i].key)
      {
        assert !Refuses(g, ps, i) && !Mixes(ps, i);
      }
      var i, j :| 0 <= i < j < |ps| && ps[i].key.text == ps[j].key.text;
      assert ps[i].key.OtherKey? || ps[j].key.OtherKey?;
    }
    if Checked(g, ps) {
      var i :| 0 <= i < |ps| && Refuses(g, ps, i);
      assert !BothStrings(ps[0].key, ps[i].key) && !BothSymbols(ps[0].key, ps[i].key) && !ps[i].key.OtherKey?;
    }
  }

  /** Between Strings and Symbols alone the cheap trigger misses nothing. */
  lemma CheckComplete(g: Config, ps: seq<Pair>)
    requires !g.allowDuplicateKey && KindsApart(ps)
    requires forall i :: 0 <= i < |ps| ==> ps[i].key.StrKey? || ps[i].key.SymKey?
    ensures Checked(g, ps) <==> KeysRepeat(ps)
  {
    if KeysRepeat(ps) {
      var i, j :| 0 <= i < j < |ps| && ps[i].key.text == ps[j].key.text;
      assert Mixes(ps, i) || Mixes(ps, j);
      assert Refuses(g, ps, i) || Refuses(g, ps, j);
    }
  }

  /**
    A Hash of String and Symbol keys that is written has no two keys that render alike; one
    whose values can all be written is refused for its keys alone.
   */
  lemma WrittenKeysApart(g: Config, ps: seq<Pair>, depth: nat)
    requires !g.allowDuplicateKey && KindsApart(ps)
    requires forall i :: 0 <= i < |ps| ==> ps[i].key.StrKey? || ps[i].key.SymKey?
    ensures Plain(g, Hash(ps), depth).Ok? ==> !KeysRepeat(ps)
    ensures !TooDeep(g, depth + 1) && (forall i :: 0 <= i < |ps| ==> Plain(g, ps[i].value, depth + 1).Ok?) ==>
              (KeysRepeat(ps) <==> Plain(g, Hash(ps), depth) == Err(DuplicateKey))
  {
    hide Plain, PlainPairs, Refuses, KeysRepeat, CloseText, PairLead;
    HashOk(g, ps, depth);
    CheckComplete(g, ps);
    if (forall i :: 0 <= i < |ps| ==> Plain(g, ps[i].value, depth + 1).Ok?) && Plain(g, Hash(ps), depth).Err? {
      PlainHash(g, ps, depth);
      OnlyKeysFail(g, ps, 0, depth + 1);
    }
  }

  lemma {:induction false} OnlyKeysFail(g: Config, ps: seq<Pair>, i: nat, inner: nat)
    requires i <= |ps| && forall k :: i <= k < |ps| ==> Plain(g, ps[k].value, inner).Ok?
    ensures PlainPairs(g, ps, i, inner).Err? ==> PlainPairs(g, ps, i, inner) == Err(DuplicateKey)
    decreases |ps| - i
  {
    hide Plain, PlainPairs, PairLead, Refuses;
    PlainPairsStep(g, ps, i, inner);
    if i < |ps| {
      OnlyKeysFail(g, ps, i + 1, inner);
    }
  }

  /** A String key and a key that renders like it are refused in one order and written in the other. */
  lemma CheckDependsOnOrder(g: Config, id: nat, text: bytes, v: Value)
    requires !g.allowDuplicateKey
    ensures var s, o := Pair(StrKey(id, text, true), v), Pair(OtherKey(text), v);
            && KeysRepeat([s, o]) && KeysRepeat([o, s])
            && !Checked(g, [s, o]) && Checked(g, [o, s])
  {
    var s, o := Pair(StrKey(id, text, true), v), Pair(OtherKey(text), v);
    assert [s, o][0].key.text == [s, o][1].key.text && [o, s][0].key.text == [o, s][1].key.text;
    assert Mixes([o, s], 1);
    assert Refuses(g, [o, s], 1);
    assert !Mixes([s, o], 0) && !Mixes([s, o], 1);
  }

  /** Every Hash in the tree is one Ruby can hold, with String and Symbol keys only. */
  ghost predicate PlainKeys(v: Value)
    decreases v
  {
    match v
    case Array(xs) => forall i :: 0 <= i < |xs| ==> PlainKeys(xs[i])
    case Hash(ps) =>
      && KindsApart(ps)
      && (forall i :: 0 <= i < |ps| ==> ps[i].key.StrKey? || ps[i].key.SymKey?)
      && forall i :: 0 <= i < |ps| ==> PlainKeys(ps[i].value)
    case _ => true
  }

  /** What is generated without `allow_duplicate_key` has no repeats, if its keys are Strings and Symbols. */
  lemma {:induction false} GeneratedHasNoRepeats(g: Config, v: Value)
    requires !g.allowDuplicateKey && PlainKeys(v) && Emittable(g, v)
    ensures NoRepeats(v)
    decreases v
  {
    hide Refuses, KeysRepeat, KindsApart;
    match v {
      case Array(xs) =>
        forall i | 0 <= i < |xs|
          ensures NoRepeats(xs[i])
        {
          GeneratedHasNoRepeats(g, xs[i]);
        }
      case Hash(ps) =>
        CheckComplete(g, ps);
        forall i | 0 <= i < |ps|
          ensures NoRepeats(ps[i].value)
        {
          assert ps[i].value < ps[i];
          GeneratedHasNoRepeats(g, ps[i].value);
        }
      case _ =>
    }
  }

  lemma {:induction false} WithinMore(v: Value, k: int, more: int)
    requires Within(v, k) && k <= more
    ensures Within(v, more)
    decreases v
  {
    match v {
      case Array(xs) =>
        forall i | 0 <= i < |xs|
          ensures Within(xs[i], more - 1)
        {
          WithinMore(xs[i], k - 1, more - 1);
        }
      case Hash(ps) =>
        forall i | 0 <= i < |ps|
          ensures Within(ps[i].value, more - 1)
        {
          assert ps[i].value < ps[i];
          WithinMore(ps[i].value, k - 1, more - 1);
        }
      case _ =>
    }
  }
}
