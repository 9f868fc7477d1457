/**
  The pull reader the extension walks documents with: a cursor over the tokens of a text. It
  stands for the crate's `Reader`. Where the text breaks off, the reader is stuck.
 */
module PullReader {
  import opened Bytes
  import opened Syntax
  import opened Values
  import opened Tree
  import opened Mended

  datatype Token =
    | Scalar(start: nat, end: nat)
    | Open(obj: bool, start: nat)
    | Name(key: bytes)
    | Close(end: nat)
    | Stuck

  /** The tokens of a node whose text starts at `off`. */
  function NodeTokens(c: Codec, n: Node, off: nat): seq<Token>
    decreases n, 0
  {
    match n
    case Leaf(text) => [if text == [] then Stuck else Scalar(off, off + |text|)]
    case Group(obj, _, es) => [Open(obj, off)] + RestTokens(c, n, 0, off)
  }

  /** The tokens of group `n` from entry `i` to its closing bracket. */
  function RestTokens(c: Codec, n: Node, i: nat, off: nat): seq<Token>
    requires n.Group? && i <= |n.entries|
    decreases n.entries, |n.entries| - i
  {
    if i == |n.entries| then [Close(off + |Print(n)|)]
    else
      (if n.obj then [Name(KeyOf(c, n.entries[i]))] else [])
      + NodeTokens(c, n.entries[i].value, off + |LeftOf(n, i)|)
      + RestTokens(c, n, i + 1, off)
  }

  /** What follows the innermost `depth` open containers, and where the last of them ends. */
  function Balance(ts: seq<Token>, depth: nat): Option<(seq<Token>, nat)>
    requires depth > 0
  {
    if ts == [] then None
    else match ts[0]
      case Open(_, _) => Balance(ts[1..], depth + 1)
      case Stuck => None
      case Close(end) => if depth == 1 then Some((ts[1..], end)) else Balance(ts[1..], depth - 1)
      case _ => Balance(ts[1..], depth)
  }

  lemma NodeTokensLeaf(c: Codec, n: Node, off: nat)
    requires n.Leaf?
    ensures NodeTokens(c, n, off) == [if n == HOLE then Stuck else Scalar(off, off + |n.text|)]
  {
  }

  lemma NodeTokensGroup(c: Codec, n: Node, off: nat)
    requires n.Group?
    ensures NodeTokens(c, n, off) == [Open(n.obj, off)] + RestTokens(c, n, 0, off)
  {
    hide RestTokens;
  }

  lemma RestTokensEnd(c: Codec, n: Node, off: nat)
    requires n.Group?
    ensures RestTokens(c, n, |n.entries|, off) == [Close(off + |Print(n)|)]
  {
    hide Print;
  }

  lemma RestTokensStep(c: Codec, n: Node, i: nat, off: nat)
    requires n.Group? && i < |n.entries|
    ensures RestTokens(c, n, i, off) ==
            (if n.obj then [Name(KeyOf(c, n.entries[i]))] else [])
            + NodeTokens(c, n.entries[i].value, off + |LeftOf(n, i)|)
            + RestTokens(c, n, i + 1, off)
  {
    hide NodeTokens, LeftOf, KeyOf;
  }

  lemma BalanceStep(t: Token, ts: seq<Token>, depth: nat)
    requires depth > 0
    ensures Balance([t] + ts, depth) ==
            match t
            case Open(_, _) => Balance(ts, depth + 1)
            case Stuck => None
            case Close(end) => if depth == 1 then Some((ts, end)) else Balance(ts, depth - 1)
            case _ => Balance(ts, depth)
  {
    assert ([t] + ts)[1..] == ts;
  }

  /** A whole node leaves the balance alone; the rest of a group closes one level. */
  lemma {:induction false} BalanceNode(c: Codec, n: Node, off: nat, after: seq<Token>, depth: nat)
    requires NoHole(n) && depth > 0
    ensures Balance(NodeTokens(c, n, off) + after, depth) == Balance(after, depth)
    decreases n, 0
  {
    hide NodeTokens, RestTokens, Balance;
    match n
    case Leaf(_) =>
      NodeTokensLeaf(c, n, off);
      BalanceStep(NodeTokens(c, n, off)[0], after, depth);
    case Group(_, _, es) =>
      NodeTokensGroup(c, n, off);
      var rest := RestTokens(c, n, 0, off);
      assert NodeTokens(c, n, off) + after == [Open(n.obj, off)] + (rest + after);
      BalanceStep(Open(n.obj, off), rest + after, depth);
      BalanceRest(c, n, 0, off, after, depth + 1);
  }

  lemma {:induction false} BalanceRest(c: Codec, n: Node, i: nat, off: nat, after: seq<Token>, depth: nat)
    requires NoHole(n) && n.Group? && i <= |n.entries| && depth > 0
    ensures Balance(RestTokens(c, n, i, off) + after, depth) ==
            if depth == 1 then Some((after, off + |Print(n)|)) else Balance(after, depth - 1)
    decreases n.entries, |n.entries| - i
  {
    hide NodeTokens, RestTokens, Balance, Print, LeftOf, KeyOf;
    if i == |n.entries| {
      RestTokensEnd(c, n, off);
      BalanceStep(Close(off + |Print(n)|), after, depth);
    } else {
      RestTokensStep(c, n, i, off);
      var value := NodeTokens(c, n.entries[i].value, off + |LeftOf(n, i)|);
      var more := RestTokens(c, n, i + 1, off) + after;
      var all := RestTokens(c, n, i, off) + after;
      if n.obj {
        var name := Name(KeyOf(c, n.entries[i]));
        assert all == [name] + (value + more);
        BalanceStep(name, value + more, depth);
      } else {
        assert all == value + more;
      }
      BalanceNode(c, n.entries[i].value, off + |LeftOf(n, i)|, more, depth);
      BalanceRest(c, n, i + 1, off, after, depth);
    }
  }

  class Reader {
    /** The tokens not read yet. */
    var rest: seq<Token>

    constructor (c: Codec, text: bytes)
      ensures rest == NodeTokens(c, ReadRoot(text), WsLen(text))
    {
      rest := NodeTokens(c, ReadRoot(text), WsLen(text));
    }

    /**
      Step onto a value: past a scalar, or into a container; an error where none can be
      read. An error the crate may report a call earlier, at the separator or the key, is
      reported here.
     */
    method NextNode() returns (t: Option<Token>)
      requires rest != [] && !rest[0].Name? && !rest[0].Close?
      modifies this
      ensures old(rest)[0].Stuck? ==> t == None && rest == old(rest)
      ensures !old(rest)[0].Stuck? ==> t == Some(old(rest)[0]) && rest == old(rest)[1..]
    {
      t := None;
      if !rest[0].Stuck? {
        t := Some(rest[0]);
        rest := rest[1..];
      }
    }

    /** The next member's key, or none at the closing brace. */
    method ObjectKey() returns (key: Option<bytes>)
      requires rest != [] && (rest[0].Name? || rest[0].Close?)
      modifies this
      ensures rest == old(rest)[1..]
      ensures key == if old(rest)[0].Name? then Some(old(rest)[0].key) else None
    {
      key := if rest[0].Name? then Some(rest[0].key) else None;
      rest := rest[1..];
    }

    /** Whether another element follows; at the closing bracket, step past it. */
    method ArrayMore() returns (more: bool)
      requires rest != []
      modifies this
      ensures more == !old(rest)[0].Close?
      ensures rest == if more then old(rest) else old(rest)[1..]
    {
      more := !rest[0].Close?;
      if !more {
        rest := rest[1..];
      }
    }

    /** Step over a whole value, returning its span. */
    method SkipValue(c: Codec, ghost n: Node, ghost off: nat, ghost after: seq<Token>)
      returns (start: nat, end: nat)
      requires NoHole(n) && rest == NodeTokens(c, n, off) + after
      modifies this
      ensures rest == after
      ensures start == off && end == off + |Print(n)|
    {
      hide Balance, RestTokens, Print;
      ghost var inner := if n.Group? then RestTokens(c, n, 0, off) else [];
      if n.Leaf? {
        NodeTokensLeaf(c, n, off);
        assert Print(n) == n.text by { PrintsText(n); }
      } else {
        NodeTokensGroup(c, n, off);
        BalanceRest(c, n, 0, off, after, 1);
      }
      assert rest[1..] == inner + after;
      var first := rest[0];
      rest := rest[1..];
      start, end := first.start, if first.Scalar? then first.end else first.start;
      if first.Open? {
        var depth := 1;
        while depth > 0
          invariant depth > 0 ==> Balance(rest, depth) == Some((after, off + |Print(n)|))
          invariant depth == 0 ==> rest == after && end == off + |Print(n)|
          decreases |rest|, depth
        {
          BalanceNonEmpty(rest, depth);
          var t := rest[0];
          assert rest == [t] + rest[1..];
          BalanceStep(t, rest[1..], depth);
          rest := rest[1..];
          if t.Open? {
            depth := depth + 1;
          } else if t.Close? {
            depth := depth - 1;
            end := t.end;
          }
        }
      }
    }
  }

  lemma PrintsText(n: Node)
    requires n.Leaf?
    ensures Print(n) == n.text
  {
  }

  lemma BalanceNonEmpty(ts: seq<Token>, depth: nat)
    requires depth > 0 && Balance(ts, depth).Some?
    ensures ts != []
  {
  }
}
