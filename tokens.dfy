/** The token buffer the parser consumes front to back. The lexer that fills
    it is not part of this model; only its contract is: `pop` removes and
    returns the front token, and returns None once the buffer is exhausted. */
module Tokens {
  import opened Wrappers

  /** The token `pop` returns when the cursor stands at `p`. */
  function PeekAt(t: seq<string>, p: nat): (r: Option<string>)
    ensures r.None? <==> p >= |t|
    ensures p < |t| ==> r == Some(t[p])
  {
    if p < |t| then Some(t[p]) else None
  }

  /** Where the cursor stands after a `pop` at `p`: one further on, or
      unchanged at the end. */
  function NextAt(t: seq<string>, p: nat): (r: nat)
    ensures p < |t| ==> r == p + 1
    ensures p >= |t| ==> r == p
  {
    if p < |t| then p + 1 else p
  }

  /** The tokens `w` stand in `t` from position `p` on. */
  predicate TokensAt(t: seq<string>, p: nat, w: seq<string>)
  {
    p + |w| <= |t| && forall i :: 0 <= i < |w| ==> t[p + i] == w[i]
  }

  /** The cursor `q` stands just after a closing `}` `;`. */
  predicate ClosedBy(t: seq<string>, q: nat)
  {
    2 <= q <= |t| && t[q - 2] == "}" && t[q - 1] == ";"
  }

  /** One token of a run that stands in `t`. */
  lemma TokenAt(t: seq<string>, p: nat, w: seq<string>, i: nat)
    requires TokensAt(t, p, w) && i < |w|
    ensures p + i < |t| && t[p + i] == w[i]
  {
  }

  /** A run that stands in `t` splits into its two parts, one after the other. */
  lemma TokensAtSplit(t: seq<string>, p: nat, a: seq<string>, b: seq<string>)
    requires TokensAt(t, p, a + b)
    ensures TokensAt(t, p, a) && TokensAt(t, p + |a|, b)
  {
    forall i | 0 <= i < |a| ensures t[p + i] == a[i] {
      TokenAt(t, p, a + b, i);
    }
    forall i | 0 <= i < |b| ensures t[p + |a| + i] == b[i] {
      TokenAt(t, p, a + b, |a| + i);
    }
  }

  /** A run stands where it was written into a longer sequence. */
  lemma TokensAtInfix(a: seq<string>, w: seq<string>, b: seq<string>)
    ensures TokensAt(a + w + b, |a|, w)
  {
    var t := a + w + b;
    forall i | 0 <= i < |w| ensures t[|a| + i] == w[i] {
      assert t == a + (w + b);
    }
  }

  /** A parse outcome: the node's value when the parse returned or raised
      (so a partially populated node is visible on failure), the cursor
      position reached, and whether the parse succeeded. */
  datatype Parsed<T> = Parsed(value: T, pos: nat, ok: bool)

  class TokenStream {
    const tokens: seq<string>
    var pos: nat

    ghost predicate Valid()
      reads this
    {
      pos <= |tokens|
    }

    constructor (toks: seq<string>)
      ensures Valid() && tokens == toks && pos == 0
    {
      tokens := toks;
      pos := 0;
    }

    /** `token_buf.pop()`. */
    method Pop() returns (tok: Option<string>)
      requires Valid()
      modifies this`pos
      ensures Valid()
      ensures tok == PeekAt(tokens, old(pos)) && pos == NextAt(tokens, old(pos))
    {
      if pos < |tokens| {
        tok := Some(tokens[pos]);
        pos := pos + 1;
      } else {
        tok := None;
      }
    }
  }
}
