/** Stand-ins for the leaf declarations whose own grammar is not part of this
    model (union, enum, typedef and const nodes). Each is a node with a name
    and a parse entry point; union and enum bodies are taken to be a brace
    pair closed by `};`, kept as their raw tokens. */
module Leaf {
  import opened Wrappers
  import opened Tokens

  datatype Union = Union(name: string, body: seq<string>)
  datatype Enum = Enum(name: string, body: seq<string>)
  datatype Typedef = Typedef(name: string, tokens: seq<string>)
  datatype Const = Const(name: string, typ: string, value: string)

  /** The body loop after `{`: collect tokens until `}`, which must be followed by `;`. */
  function BracedLoop(t: seq<string>, p: nat, acc: seq<string>): (r: Parsed<seq<string>>)
    requires p <= |t|
    ensures p <= r.pos <= |t|
    decreases |t| - p
  {
    match PeekAt(t, p)
    case None => Parsed(acc, p, false)
    case Some(tok) =>
      if tok == "}" then Parsed(acc, NextAt(t, p + 1), PeekAt(t, p + 1) == Some(";"))
      else BracedLoop(t, p + 1, acc + [tok])
  }

  /** A brace-delimited body `{ ... } ;`. */
  function Braced(t: seq<string>, p: nat): (r: Parsed<seq<string>>)
    requires p <= |t|
    ensures p <= r.pos <= |t|
  {
    if PeekAt(t, p) != Some("{") then Parsed([], NextAt(t, p), false)
    else BracedLoop(t, p + 1, [])
  }

  /** A braced body whose tokens hold no `}` is read back verbatim. */
  lemma {:induction false} BracedLoopReads(t: seq<string>, p: nat, acc: seq<string>, body: seq<string>)
    requires TokensAt(t, p, body + ["}", ";"])
    requires forall i :: 0 <= i < |body| ==> body[i] != "}"
    ensures BracedLoop(t, p, acc) == Parsed(acc + body, p + |body| + 2, true)
    decreases |body|
  {
    if body == [] {
      assert acc + body == acc;
      TokenAt(t, p, body + ["}", ";"], 0);
      TokenAt(t, p, body + ["}", ";"], 1);
    } else {
      TokenAt(t, p, body + ["}", ";"], 0);
      assert body + ["}", ";"] == [body[0]] + (body[1..] + ["}", ";"]);
      TokensAtSplit(t, p, [body[0]], body[1..] + ["}", ";"]);
      BracedLoopReads(t, p + 1, acc + [body[0]], body[1..]);
      assert acc + [body[0]] + body[1..] == acc + body;
    }
  }

  /** Without a `}` ahead the body never closes. */
  lemma {:induction false} BracedLoopUnclosed(t: seq<string>, p: nat, acc: seq<string>)
    requires p <= |t|
    requires forall i :: p <= i < |t| ==> t[i] != "}"
    ensures !BracedLoop(t, p, acc).ok
    decreases |t| - p
  {
    if p < |t| {
      BracedLoopUnclosed(t, p + 1, acc + [t[p]]);
    }
  }

  /** `IDLUnion(name, parent).parse_tokens(token_buf)`. A missing name means
      the buffer is exhausted, so the body's brace check fails. */
  function ParseUnion(t: seq<string>, p: nat, name: Option<string>): (r: Parsed<Union>)
    requires p <= |t|
    ensures p <= r.pos <= |t|
    ensures r.ok ==> name == Some(r.value.name)
  {
    match name
    case None => Parsed(Union("", []), p, false)
    case Some(n) =>
      var b := Braced(t, p);
      Parsed(Union(n, b.value), b.pos, b.ok)
  }

  /** `IDLEnum(name, parent).parse_tokens(token_buf)`, same stand-in. */
  function ParseEnum(t: seq<string>, p: nat, name: Option<string>): (r: Parsed<Enum>)
    requires p <= |t|
    ensures p <= r.pos <= |t|
    ensures r.ok ==> name == Some(r.value.name)
  {
    match name
    case None => Parsed(Enum("", []), p, false)
    case Some(n) =>
      var b := Braced(t, p);
      Parsed(Enum(n, b.value), b.pos, b.ok)
  }

  /** `IDLTypedef(parent).parse_blocks(blocks)`: the stand-in names the
      typedef by its last token and never fails. */
  function TypedefOf(blocks: seq<string>): Typedef
  {
    Typedef(if blocks == [] then "" else blocks[|blocks| - 1], blocks)
  }

  /** The union/enum body reader as a loop over the buffer. */
  method ParseBraced(ts: TokenStream) returns (body: seq<string>, ok: bool)
    requires ts.Valid()
    modifies ts
    ensures ts.Valid()
    ensures Braced(ts.tokens, old(ts.pos)) == Parsed(body, ts.pos, ok)
  {
    var brace := ts.Pop();
    if brace != Some("{") {
      return [], false;
    }
    body := [];
    while true
      invariant ts.Valid()
      invariant BracedLoop(ts.tokens, ts.pos, body) == Braced(ts.tokens, old(ts.pos))
      decreases |ts.tokens| - ts.pos
    {
      var tok := ts.Pop();
      match tok
      case None =>
        return body, false;
      case Some(x) =>
        if x == "}" {
          var semi := ts.Pop();
          return body, semi == Some(";");
        }
        body := body + [x];
    }
  }
}
