/** Structs and their members (IDLStruct, IDLMember): brace-delimited member
    lists, inline unions, array-suffixed member names. */
module Structs {
  import opened Wrappers
  import opened PyStr
  import opened Node
  import opened Tokens
  import opened Leaf

  /** A member's type: a type expression as written, or an inline union. */
  datatype MemberType = Named(text: string) | InlineUnion(u: Union)

  datatype Member = Member(name: string, typ: MemberType, annotation: string)

  datatype Struct = Struct(name: string, members: seq<Member>)

  /** `IDLStruct(name, parent)`: the name is stripped, there are no members yet. */
  function NewStruct(name: string): (s: Struct)
    ensures s.members == [] && s.name == Strip(name)
  {
    Struct(Strip(name), [])
  }

  /** A struct's `full_path`: the owning scope's path, the separator and the
      name, stripped as a whole. */
  function StructPath(parentPath: string, name: string): string
  {
    Strip(parentPath + Sep + name)
  }

  /** The final strip of `full_path` only matters for a scope path that
      starts, or a name that ends, with whitespace: otherwise the path is the
      scope's path, the separator and the name. */
  lemma StructPathJoins(parentPath: string, name: string)
    requires parentPath == [] || !IsSpace(parentPath[0])
    requires name == [] || !IsSpace(name[|name| - 1])
    ensures StructPath(parentPath, name) == parentPath + Sep + name
  {
    var s := parentPath + Sep + name;
    assert s[0] == if parentPath == [] then ':' else parentPath[0];
    assert s[|s| - 1] == if name == [] then ':' else name[|name| - 1];
    StripClean(s);
  }

  /** A struct made by `NewStruct` under a scope path that does not start
      with whitespace has the path `scope::name` with its stripped name. */
  lemma NewStructPath(parentPath: string, name: string)
    requires parentPath == [] || !IsSpace(parentPath[0])
    ensures StructPath(parentPath, NewStruct(name).name) == parentPath + Sep + Strip(name)
  {
    StructPathJoins(parentPath, Strip(name));
  }

  /** A member's `full_path`. */
  function MemberPath(structPath: string, name: string): string
  {
    structPath + Sep + name
  }

  /** The array-suffix handling of `IDLMember.parse_blocks`: the name is cut
      at its first `[` and glued back together, which changes nothing. */
  function ArraySuffixRejoin(name: string): (r: string)
    ensures r == name
  {
    var i := Find(name, "[");
    if i >= 0 then name[..i] + name[i..] else name
  }

  /** `IDLMember.parse_blocks(blocks)`. */
  function ParseMember(blocks: seq<string>): Result<Member>
  {
    match NameAndType(blocks)
    case Err => Err
    case Ok(nta) => Ok(Member(ArraySuffixRejoin(nta.name), Named(nta.typ), nta.annotation))
  }

  /** A member block fails exactly when it has fewer than two tokens; the
      name is the last token verbatim (an `[N]` suffix stays part of it), the
      annotation is the `@` token before it or empty, and the type is the
      stripped join of the rest. */
  lemma ParseMemberFields(blocks: seq<string>)
    ensures ParseMember(blocks).Err? <==> |blocks| < 2
    ensures |blocks| >= 2 ==>
      && ParseMember(blocks).value.name == blocks[|blocks| - 1]
      && ParseMember(blocks).value.typ == Named(Strip(Join(TypeTokens(blocks))))
      && ParseMember(blocks).value.annotation
         == (if StartsWith(blocks[|blocks| - 2], "@") then blocks[|blocks| - 2] else "")
  {
    NameAndTypeJoin(blocks);
  }

  /** The member the struct appends for `union <name> { ... } ;`: no name,
      the union itself as its type, no annotation. */
  function UnionMember(u: Union): Member
  {
    Member("", InlineUnion(u), "")
  }

  /** The `while True` loop of `IDLStruct.parse_tokens` after the `{`: the
      pending member tokens are `block`, the struct so far is `s`. */
  function StructLoop(t: seq<string>, p: nat, block: seq<string>, s: Struct): (r: Parsed<Struct>)
    requires p <= |t|
    ensures p <= r.pos <= |t|
    decreases |t| - p
  {
    match PeekAt(t, p)
    case None => Parsed(s, p, false)
    case Some(tok) =>
      if tok == "union" then
        var u := ParseUnion(t, NextAt(t, p + 1), PeekAt(t, p + 1));
        if !u.ok then Parsed(s, u.pos, false)
        else StructLoop(t, u.pos, block, s.(members := s.members + [UnionMember(u.value)]))
      else if tok == "}" then
        Parsed(s, NextAt(t, p + 1), PeekAt(t, p + 1) == Some(";"))
      else if tok == ";" then
        match ParseMember(block)
        case Err => Parsed(s, p + 1, false)
        case Ok(m) => StructLoop(t, p + 1, [], s.(members := s.members + [m]))
      else StructLoop(t, p + 1, block + [tok], s)
  }

  /** `IDLStruct.parse_tokens(token_buf)`: a `{`, then the loop. */
  function StructBody(t: seq<string>, p: nat, s: Struct): (r: Parsed<Struct>)
    requires p <= |t|
    ensures p <= r.pos <= |t|
  {
    if PeekAt(t, p) != Some("{") then Parsed(s, NextAt(t, p), false)
    else StructLoop(t, p + 1, [], s)
  }

  /** `IDLStruct.parse_tokens` as the loop it is. */
  method ParseStructTokens(ts: TokenStream, s0: Struct) returns (s: Struct, ok: bool)
    requires ts.Valid()
    modifies ts
    ensures ts.Valid()
    ensures StructBody(ts.tokens, old(ts.pos), s0) == Parsed(s, ts.pos, ok)
  {
    s := s0;
    var brace := ts.Pop();
    if brace != Some("{") {
      return s, false;
    }
    var block: seq<string> := [];
    while true
      invariant ts.Valid()
      invariant StructLoop(ts.tokens, ts.pos, block, s) == StructBody(ts.tokens, old(ts.pos), s0)
      decreases |ts.tokens| - ts.pos
    {
      var tok := ts.Pop();
      match tok
      case None =>
        return s, false;
      case Some(x) =>
        if x == "union" {
          var name := ts.Pop();
          if name.None? {
            return s, false;
          }
          var body, uok := ParseBraced(ts);
          if !uok {
            return s, false;
          }
          s := s.(members := s.members + [UnionMember(Union(name.value, body))]);
        } else if x == "}" {
          var semi := ts.Pop();
          return s, semi == Some(";");
        } else if x == ";" {
          var m := ParseMember(block);
          if m.Err? {
            return s, false;
          }
          s := s.(members := s.members + [m.value]);
          block := [];
        } else {
          block := block + [x];
        }
    }
  }

  /** `member_by_name`: the first member whose name equals `name`, or None. */
  function MemberByName(s: Struct, name: string): (r: Option<Member>)
    ensures r.Some? <==> exists i :: 0 <= i < |s.members| && s.members[i].name == name
    ensures r.Some? ==> (r.value.name == name
      && exists i :: 0 <= i < |s.members| && s.members[i] == r.value
            && forall j :: 0 <= j < i ==> s.members[j].name != name)
    decreases |s.members|
  {
    if s.members == [] then None
    else if s.members[0].name == name then Some(s.members[0])
    else
      var r := MemberByName(Struct(s.name, s.members[1..]), name);
      assert forall i :: 1 <= i < |s.members| ==> s.members[i] == s.members[1..][i - 1];
      r
  }

  // ---------------------------------------------------------------------
  // The member list read back from its source text.

  /** One entry of a struct body as written: a plain member block, or an
      inline `union <name> { <body> } ;`. */
  datatype MemberSource = Plain(tokens: seq<string>) | UnionSource(name: string, body: seq<string>)

  /** A token the struct loop treats specially. */
  predicate StructKeyword(x: string)
  {
    x == ";" || x == "}" || x == "union"
  }

  /** An entry that reads back as exactly one member. */
  predicate WellFormedSource(e: MemberSource)
  {
    match e
    case Plain(b) => |b| >= 2 && forall i :: 0 <= i < |b| ==> !StructKeyword(b[i])
    case UnionSource(_, body) => forall i :: 0 <= i < |body| ==> body[i] != "}"
  }

  /** Every entry of the list is well formed. */
  predicate AllWellFormed(es: seq<MemberSource>)
  {
    es == [] || (WellFormedSource(es[0]) && AllWellFormed(es[1..]))
  }

  /** The tokens an entry is written as. */
  function EntryTokens(e: MemberSource): seq<string>
  {
    match e
    case Plain(b) => b + [";"]
    case UnionSource(n, body) => ["union", n, "{"] + body + ["}", ";"]
  }

  /** The tokens a list of entries is written as. */
  function EntriesTokens(es: seq<MemberSource>): seq<string>
  {
    if es == [] then [] else EntryTokens(es[0]) + EntriesTokens(es[1..])
  }

  /** The member an entry stands for. */
  function EntryMember(e: MemberSource): Member
    requires WellFormedSource(e)
  {
    match e
    case Plain(b) => ParseMember(b).value
    case UnionSource(n, body) => UnionMember(Union(n, body))
  }

  function EntriesMembers(es: seq<MemberSource>): seq<Member>
    requires AllWellFormed(es)
  {
    if es == [] then [] else [EntryMember(es[0])] + EntriesMembers(es[1..])
  }

  /** The pending-block case of the loop: ordinary tokens are only collected. */
  lemma {:induction false} StructLoopCollects(t: seq<string>, p: nat, block: seq<string>, s: Struct, b: seq<string>)
    requires TokensAt(t, p, b)
    requires forall i :: 0 <= i < |b| ==> !StructKeyword(b[i])
    ensures StructLoop(t, p, block, s) == StructLoop(t, p + |b|, block + b, s)
    decreases |b|
  {
    if b == [] {
      assert block + b == block;
    } else {
      TokenAt(t, p, b, 0);
      assert b == [b[0]] + b[1..];
      TokensAtSplit(t, p, [b[0]], b[1..]);
      StructLoopCollects(t, p + 1, block + [b[0]], s, b[1..]);
      assert block + [b[0]] + b[1..] == block + b;
    }
  }

  /** One entry: the loop reads its tokens and appends its member. */
  lemma StructLoopEntry(t: seq<string>, p: nat, s: Struct, e: MemberSource)
    requires WellFormedSource(e)
    requires TokensAt(t, p, EntryTokens(e))
    ensures StructLoop(t, p, [], s)
      == StructLoop(t, p + |EntryTokens(e)|, [], s.(members := s.members + [EntryMember(e)]))
  {
    match e
    case Plain(b) => StructLoopPlain(t, p, s, b);
    case UnionSource(n, body) => StructLoopUnion(t, p, s, n, body);
  }

  /** A member block closed by `;`. */
  lemma StructLoopPlain(t: seq<string>, p: nat, s: Struct, b: seq<string>)
    requires |b| >= 2 && forall i :: 0 <= i < |b| ==> !StructKeyword(b[i])
    requires TokensAt(t, p, b + [";"])
    ensures StructLoop(t, p, [], s)
      == StructLoop(t, p + |b| + 1, [], s.(members := s.members + [ParseMember(b).value]))
  {
    var q := p + |b|;
    assert StructLoop(t, p, [], s) == StructLoop(t, q, b, s) by {
      TokensAtSplit(t, p, b, [";"]);
      StructLoopCollects(t, p, [], s, b);
      assert [] + b == b;
    }
    assert q < |t| && t[q] == ";" by {
      TokensAtSplit(t, p, b, [";"]);
      TokenAt(t, q, [";"], 0);
    }
    StructLoopSemi(t, q, b, s);
  }

  /** At a `;` the pending block becomes a member, or the parse fails. */
  lemma StructLoopSemi(t: seq<string>, q: nat, block: seq<string>, s: Struct)
    requires q < |t| && t[q] == ";"
    ensures StructLoop(t, q, block, s)
      == match ParseMember(block)
         case Err => Parsed(s, q + 1, false)
         case Ok(m) => StructLoop(t, q + 1, [], s.(members := s.members + [m]))
  {
    assert PeekAt(t, q) == Some(";");
  }

  /** An inline `union n { body } ;`. */
  lemma StructLoopUnion(t: seq<string>, p: nat, s: Struct, n: string, body: seq<string>)
    requires forall i :: 0 <= i < |body| ==> body[i] != "}"
    requires TokensAt(t, p, ["union", n, "{"] + body + ["}", ";"])
    ensures StructLoop(t, p, [], s)
      == StructLoop(t, p + |body| + 5, [], s.(members := s.members + [UnionMember(Union(n, body))]))
  {
    assert ["union", n, "{"] + body + ["}", ";"] == ["union", n, "{"] + (body + ["}", ";"]);
    assert [] + body == body;
    TokensAtSplit(t, p, ["union", n, "{"], body + ["}", ";"]);
    TokenAt(t, p, ["union", n, "{"], 0);
    TokenAt(t, p, ["union", n, "{"], 1);
    TokenAt(t, p, ["union", n, "{"], 2);
    BracedLoopReads(t, p + 3, [], body);
  }

  /** Each entry, in order, appends exactly its one member: from `p` the
      loop reaches `q`, just past the entries, with their members appended. */
  lemma {:induction false} StructLoopEntries(t: seq<string>, p: nat, s: Struct, es: seq<MemberSource>, q: nat, s': Struct)
    requires AllWellFormed(es)
    requires TokensAt(t, p, EntriesTokens(es))
    requires q == p + |EntriesTokens(es)| && s' == s.(members := s.members + EntriesMembers(es))
    ensures q <= |t| && StructLoop(t, p, [], s) == StructLoop(t, q, [], s')
    decreases |es|
  {
    if es == [] {
      assert s.members + [] == s.members;
      assert s.(members := s.members) == s;
    } else {
      var s1 := s.(members := s.members + [EntryMember(es[0])]);
      StructLoopFirstEntry(t, p, s, es);
      AppendEntriesCons(s, es);
      StructLoopEntries(t, p + |EntryTokens(es[0])|, s1, es[1..], q, s');
    }
  }

  /** The first entry of a non-empty list is read, and the rest stands next. */
  lemma StructLoopFirstEntry(t: seq<string>, p: nat, s: Struct, es: seq<MemberSource>)
    requires es != [] && AllWellFormed(es)
    requires TokensAt(t, p, EntriesTokens(es))
    ensures WellFormedSource(es[0]) && AllWellFormed(es[1..])
    ensures TokensAt(t, p + |EntryTokens(es[0])|, EntriesTokens(es[1..]))
    ensures p + |EntryTokens(es[0])| + |EntriesTokens(es[1..])| == p + |EntriesTokens(es)|
    ensures StructLoop(t, p, [], s)
      == StructLoop(t, p + |EntryTokens(es[0])|, [], s.(members := s.members + [EntryMember(es[0])]))
  {
    EntriesSplit(t, p, es);
    StructLoopEntry(t, p, s, es[0]);
  }

  /** Where the entries stand, the first entry stands, and the rest after it. */
  lemma EntriesSplit(t: seq<string>, p: nat, es: seq<MemberSource>)
    requires es != [] && AllWellFormed(es)
    requires TokensAt(t, p, EntriesTokens(es))
    ensures WellFormedSource(es[0]) && AllWellFormed(es[1..])
    ensures TokensAt(t, p, EntryTokens(es[0]))
    ensures TokensAt(t, p + |EntryTokens(es[0])|, EntriesTokens(es[1..]))
    ensures p + |EntryTokens(es[0])| + |EntriesTokens(es[1..])| == p + |EntriesTokens(es)|
  {
    EntriesCons(es);
    TokensAtSplit(t, p, EntryTokens(es[0]), EntriesTokens(es[1..]));
  }

  /** A non-empty entry list, unfolded. */
  lemma EntriesCons(es: seq<MemberSource>)
    requires AllWellFormed(es)
    requires es != []
    ensures WellFormedSource(es[0])
    ensures AllWellFormed(es[1..])
    ensures EntriesTokens(es) == EntryTokens(es[0]) + EntriesTokens(es[1..])
    ensures |EntriesTokens(es)| == |EntryTokens(es[0])| + |EntriesTokens(es[1..])|
  {
  }

  /** Appending a non-empty entry list is appending its head, then its tail. */
  lemma AppendEntriesCons(s: Struct, es: seq<MemberSource>)
    requires AllWellFormed(es)
    requires es != []
    ensures var s' := s.(members := s.members + [EntryMember(es[0])]);
      s'.(members := s'.members + EntriesMembers(es[1..])) == s.(members := s.members + EntriesMembers(es))
  {
    assert EntriesMembers(es) == [EntryMember(es[0])] + EntriesMembers(es[1..]);
    assert s.members + [EntryMember(es[0])] + EntriesMembers(es[1..])
      == s.members + ([EntryMember(es[0])] + EntriesMembers(es[1..]));
  }

  /** Round trip: a struct body written from well-formed entries parses to
      exactly their members, in order, consuming the whole `{ ... } ;`. */
  lemma StructBodyReadsEntries(es: seq<MemberSource>, s: Struct)
    requires AllWellFormed(es)
    ensures var t := ["{"] + EntriesTokens(es) + ["}", ";"];
      StructBody(t, 0, s) == Parsed(s.(members := s.members + EntriesMembers(es)), |t|, true)
  {
    var t := ["{"] + EntriesTokens(es) + ["}", ";"];
    var n := |EntriesTokens(es)|;
    TokensAtInfix(["{"], EntriesTokens(es), ["}", ";"]);
    StructLoopEntries(t, 1, s, es, 1 + n, s.(members := s.members + EntriesMembers(es)));
    assert t[0] == "{" && t[1 + n] == "}" && t[1 + n + 1] == ";";
  }

  /** The same round trip at any position of the buffer: `{ entries } ;`
      standing at `p` parses to the entries' members and ends just after it. */
  lemma StructBodyAt(t: seq<string>, p: nat, es: seq<MemberSource>, s: Struct)
    requires AllWellFormed(es)
    requires TokensAt(t, p, ["{"] + EntriesTokens(es) + ["}", ";"])
    ensures StructBody(t, p, s)
      == Parsed(s.(members := s.members + EntriesMembers(es)), p + |EntriesTokens(es)| + 3, true)
  {
    var n := |EntriesTokens(es)|;
    TokensAtSplit(t, p, ["{"] + EntriesTokens(es), ["}", ";"]);
    TokensAtSplit(t, p, ["{"], EntriesTokens(es));
    TokenAt(t, p, ["{"], 0);
    TokenAt(t, p + 1 + n, ["}", ";"], 0);
    TokenAt(t, p + 1 + n, ["}", ";"], 1);
    StructLoopEntries(t, p + 1, s, es, p + 1 + n, s.(members := s.members + EntriesMembers(es)));
  }

  /** A successful struct parse ends on `}` `;`, and a struct body needs a
      `}` ahead: without one the buffer runs out and the parse fails. */
  lemma {:induction false} StructLoopCloses(t: seq<string>, p: nat, block: seq<string>, s: Struct)
    requires p <= |t|
    ensures StructLoop(t, p, block, s).ok ==> ClosedBy(t, StructLoop(t, p, block, s).pos)
    ensures (forall i :: p <= i < |t| ==> t[i] != "}") ==> !StructLoop(t, p, block, s).ok
    decreases |t| - p
  {
    match PeekAt(t, p)
    case None =>
    case Some(tok) =>
      if tok == "union" {
        var q := NextAt(t, p + 1);
        var u := ParseUnion(t, q, PeekAt(t, p + 1));
        if (forall i :: p <= i < |t| ==> t[i] != "}") && PeekAt(t, p + 1).Some? && PeekAt(t, q) == Some("{") {
          BracedLoopUnclosed(t, q + 1, []);
        }
        if u.ok {
          StructLoopCloses(t, u.pos, block, s.(members := s.members + [UnionMember(u.value)]));
        }
      } else if tok == "}" {
      } else if tok == ";" {
        match ParseMember(block)
        case Err =>
        case Ok(m) => StructLoopCloses(t, p + 1, [], s.(members := s.members + [m]));
      } else {
        StructLoopCloses(t, p + 1, block + [tok], s);
      }
  }

  /** The struct loop only appends members: the struct keeps its name. */
  lemma {:induction false} StructLoopKeepsName(t: seq<string>, p: nat, block: seq<string>, s: Struct)
    requires p <= |t|
    ensures StructLoop(t, p, block, s).value.name == s.name
    decreases |t| - p
  {
    match PeekAt(t, p)
    case None =>
    case Some(tok) =>
      if tok == "union" {
        var u := ParseUnion(t, NextAt(t, p + 1), PeekAt(t, p + 1));
        if u.ok {
          StructLoopKeepsName(t, u.pos, block, s.(members := s.members + [UnionMember(u.value)]));
        }
      } else if tok == "}" {
      } else if tok == ";" {
        match ParseMember(block)
        case Err =>
        case Ok(m) => StructLoopKeepsName(t, p + 1, [], s.(members := s.members + [m]));
      } else {
        StructLoopKeepsName(t, p + 1, block + [tok], s);
      }
  }
}
