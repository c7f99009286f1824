/** Operations (IDLMethod) and their parameters (IDLArgument): a flat token
    run `[modifier] [return] name @annotation ( args... )` split into a call
    modifier, a return type, an annotation and a directed argument list. */
module Methods {
  import opened Wrappers
  import opened PyStr
  import opened Node
  import opened Tokens

  /** `in` is the default direction; `inout` is refused. */
  datatype Direction = In | Out

  datatype Argument = Argument(name: string, typ: string, dir: Direction)

  /** A leading `in` or `out`. */
  predicate DirectionToken(x: string)
  {
    x == "in" || x == "out"
  }

  /** The run `_name_and_type` sees once a direction token is removed. */
  function ArgRest(blocks: seq<string>): seq<string>
    requires blocks != []
  {
    if DirectionToken(blocks[0]) then blocks[1..] else blocks
  }

  /** `IDLArgument.parse_blocks(blocks)`. An empty run is an IndexError. */
  function ParseArgument(blocks: seq<string>): Result<Argument>
  {
    if blocks == [] then Err
    else if blocks[0] == "inout" then Err
    else
      var dir := if blocks[0] == "out" then Out else In;
      match NameAndType(ArgRest(blocks))
      case Err => Err
      case Ok(nta) => Ok(Argument(nta.name, nta.typ, dir))
  }

  /** An argument run fails exactly when it is empty, starts with `inout`,
      or leaves fewer than two tokens once the direction is removed; the
      direction is `out` only for a leading `out`; the name is the last
      token and the type the stripped join of the rest, without the
      direction and without an `@` annotation. */
  lemma ParseArgumentFields(blocks: seq<string>)
    ensures ParseArgument(blocks).Err?
      <==> blocks == [] || blocks[0] == "inout" || |ArgRest(blocks)| < 2
    ensures ParseArgument(blocks).Ok? ==>
      var rest := ArgRest(blocks);
      && ParseArgument(blocks).value.dir == (if blocks[0] == "out" then Out else In)
      && ParseArgument(blocks).value.name == blocks[|blocks| - 1]
      && ParseArgument(blocks).value.typ == Strip(Join(TypeTokens(rest)))
  {
    if blocks != [] {
      NameAndTypeJoin(ArgRest(blocks));
    }
  }

  /** The call modifier chosen by the first token; at most one applies. */
  datatype Modifier = Ordinary | Oneway | Constructor | Destructor

  function ModifierOf(tok: string): Modifier
  {
    if tok == "oneway" then Oneway
    else if tok == "constructor" then Constructor
    else if tok == "destructor" then Destructor
    else Ordinary
  }

  /** Constructors and destructors carry no return type. */
  predicate NoReturn(md: Modifier)
  {
    md == Constructor || md == Destructor
  }

  datatype Method = Method(name: string, returnType: Option<string>, annotation: string,
                           modifier: Modifier, arguments: seq<Argument>)

  /** The tokens after the modifier keyword, which is consumed when present. */
  function HeaderTokens(blocks: seq<string>): seq<string>
    requires blocks != []
  {
    if ModifierOf(blocks[0]) == Ordinary then blocks else blocks[1..]
  }

  /** Where the argument list starts: after `name @ann (`, and after the
      return type too for an ordinary or oneway method. */
  function ArgStart(md: Modifier): nat
  {
    if NoReturn(md) then 3 else 4
  }

  /** The argument scan of `IDLMethod.parse_blocks` from index `i`, with the
      pending run and the arguments appended so far. */
  function ArgScan(bs: seq<string>, i: nat, pending: seq<string>, args: seq<Argument>): Result<seq<Argument>>
    requires i <= |bs|
    decreases |bs| - i
  {
    if i == |bs| then Ok(args)
    else if bs[i] == "," || bs[i] == ")" then
      if pending == [] then Ok(args)
      else
        match ParseArgument(pending)
        case Err => Err
        case Ok(a) => ArgScan(bs, i + 1, [], args + [a])
    else ArgScan(bs, i + 1, pending + [bs[i]], args)
  }

  /** `IDLMethod.parse_blocks(blocks)`. Every IndexError and every failed
      check is the one syntax failure. */
  function MethodOf(blocks: seq<string>): Result<Method>
  {
    if blocks == [] then Err
    else
      var md := ModifierOf(blocks[0]);
      var bs := HeaderTokens(blocks);
      var index := ArgStart(md);
      if |bs| < index then Err
      else if !StartsWith(bs[index - 2], "@") || bs[index - 1] != "(" then Err
      else
        var name := if NoReturn(md) then bs[0] else bs[1];
        var returnType := if NoReturn(md) then None else Some(bs[0]);
        match ArgScan(bs, index, [], [])
        case Err => Err
        case Ok(args) => Ok(Method(name, returnType, bs[index - 2], md, args))
  }

  /** `IDLMethod.parse_blocks` as the loop it is. */
  method ParseMethodBlocks(blocks: seq<string>) returns (r: Result<Method>)
    ensures r == MethodOf(blocks)
  {
    if blocks == [] {
      return Err;
    }
    var md := ModifierOf(blocks[0]);
    var bs := if md == Ordinary then blocks else blocks[1..];
    var index := if md == Constructor || md == Destructor then 3 else 4;
    if |bs| < index || !StartsWith(bs[index - 2], "@") || bs[index - 1] != "(" {
      return Err;
    }
    var name := if md == Constructor || md == Destructor then bs[0] else bs[1];
    var returnType := if md == Constructor || md == Destructor then None else Some(bs[0]);
    var annotation := bs[index - 2];
    var args: seq<Argument> := [];
    var pending: seq<string> := [];
    while true
      invariant index <= |bs|
      invariant ArgScan(bs, index, pending, args) == ArgScan(bs, ArgStart(md), [], [])
      decreases |bs| - index
    {
      if index == |bs| {
        return Ok(Method(name, returnType, annotation, md, args));
      }
      var token := bs[index];
      if token == "," || token == ")" {
        if pending == [] {
          return Ok(Method(name, returnType, annotation, md, args));
        }
        var a := ParseArgument(pending);
        if a.Err? {
          return Err;
        }
        args := args + [a.value];
        pending := [];
      } else {
        pending := pending + [token];
      }
      index := index + 1;
    }
  }

  /** A method parses only if the token before the argument list starts
      with `@` and the next is `(`; then the modifier is the one the first
      token names, a constructor or destructor is named by the token after
      the keyword and has no return type, and any other method returns its
      first (non-modifier) token and is named by the second. */
  lemma MethodHeader(blocks: seq<string>)
    ensures MethodOf(blocks).Ok? ==>
      && blocks != []
      && var md := ModifierOf(blocks[0]);
         var bs := HeaderTokens(blocks);
         var m := MethodOf(blocks).value;
         && |bs| >= ArgStart(md)
         && m.modifier == md
         && StartsWith(m.annotation, "@") && bs[ArgStart(md) - 1] == "("
         && (NoReturn(md) ==> m.returnType.None? && m.name == bs[0] && m.annotation == bs[1])
         && (!NoReturn(md) ==> m.returnType == Some(bs[0]) && m.name == bs[1] && m.annotation == bs[2])
    ensures blocks != [] && |HeaderTokens(blocks)| >= ArgStart(ModifierOf(blocks[0])) ==>
      var bs := HeaderTokens(blocks);
      var index := ArgStart(ModifierOf(blocks[0]));
      !StartsWith(bs[index - 2], "@") || bs[index - 1] != "(" ==> MethodOf(blocks).Err?
  {
  }

  // ---------------------------------------------------------------------
  // The argument list read back from its source text.

  /** An argument or closing delimiter. */
  predicate Delimiter(x: string)
  {
    x == "," || x == ")"
  }

  /** A run that parses as one argument and holds no delimiter. */
  predicate WellFormedArg(r: seq<string>)
  {
    && r != [] && r[0] != "inout" && |ArgRest(r)| >= 2
    && forall i :: 0 <= i < |r| ==> !Delimiter(r[i])
  }

  /** `a , b , ... )` (a lone `)` for an empty list). */
  function ArgsTokens(rs: seq<seq<string>>): seq<string>
  {
    if rs == [] then [")"]
    else if |rs| == 1 then rs[0] + [")"]
    else rs[0] + [","] + ArgsTokens(rs[1..])
  }

  /** The argument a run stands for, read off the run directly. */
  function ArgOf(r: seq<string>): Argument
    requires WellFormedArg(r)
  {
    Argument(r[|r| - 1], Strip(Join(TypeTokens(ArgRest(r)))), if r[0] == "out" then Out else In)
  }

  /** Every run of the list is well formed. */
  predicate AllWellFormed(rs: seq<seq<string>>)
  {
    rs == [] || (WellFormedArg(rs[0]) && AllWellFormed(rs[1..]))
  }

  function ArgsOf(rs: seq<seq<string>>): seq<Argument>
    requires AllWellFormed(rs)
  {
    if rs == [] then [] else [ArgOf(rs[0])] + ArgsOf(rs[1..])
  }

  /** Tokens other than delimiters only grow the pending run. */
  lemma {:induction false} ArgScanCollects(bs: seq<string>, i: nat, pending: seq<string>, args: seq<Argument>, b: seq<string>)
    requires TokensAt(bs, i, b)
    requires forall k :: 0 <= k < |b| ==> !Delimiter(b[k])
    ensures ArgScan(bs, i, pending, args) == ArgScan(bs, i + |b|, pending + b, args)
    decreases |b|
  {
    if b == [] {
      assert pending + b == pending;
    } else {
      TokenAt(bs, i, b, 0);
      assert b == [b[0]] + b[1..];
      TokensAtSplit(bs, i, [b[0]], b[1..]);
      ArgScanCollects(bs, i + 1, pending + [b[0]], args, b[1..]);
      assert pending + [b[0]] + b[1..] == pending + b;
    }
  }

  /** One run and its delimiter append exactly its argument. */
  lemma ArgScanOne(bs: seq<string>, i: nat, r: seq<string>, close: string, args: seq<Argument>)
    requires WellFormedArg(r) && Delimiter(close)
    requires TokensAt(bs, i, r + [close])
    ensures i + |r| + 1 <= |bs|
    ensures ArgScan(bs, i, [], args) == ArgScan(bs, i + |r| + 1, [], args + [ArgOf(r)])
  {
    TokensAtSplit(bs, i, r, [close]);
    ArgScanCollects(bs, i, [], args, r);
    assert [] + r == r;
    TokenAt(bs, i + |r|, [close], 0);
    ArgScanCloses(bs, i + |r|, r, args);
  }

  /** A delimiter with a well-formed run pending appends its argument. */
  lemma ArgScanCloses(bs: seq<string>, j: nat, r: seq<string>, args: seq<Argument>)
    requires WellFormedArg(r) && j < |bs| && Delimiter(bs[j])
    ensures ArgScan(bs, j, r, args) == ArgScan(bs, j + 1, [], args + [ArgOf(r)])
  {
    ParseArgumentFields(r);
    assert ParseArgument(r) == Ok(ArgOf(r));
  }

  /** The last run, closed by `)` at the end of the tokens. */
  lemma ArgScanLast(bs: seq<string>, i: nat, rs: seq<seq<string>>, args: seq<Argument>, out: seq<Argument>)
    requires |rs| == 1 && AllWellFormed(rs)
    requires TokensAt(bs, i, ArgsTokens(rs)) && i + |ArgsTokens(rs)| == |bs|
    requires out == args + ArgsOf(rs)
    ensures ArgScan(bs, i, [], args) == Ok(out)
  {
    ArgsSingle(rs);
    ArgScanOne(bs, i, rs[0], ")", args);
  }

  /** No runs: the tokens are a lone `)`. */
  lemma ArgScanNoRuns(bs: seq<string>, i: nat, rs: seq<seq<string>>, args: seq<Argument>, out: seq<Argument>)
    requires rs == []
    requires TokensAt(bs, i, ArgsTokens(rs)) && i + |ArgsTokens(rs)| == |bs|
    requires out == args + ArgsOf(rs)
    ensures ArgScan(bs, i, [], args) == Ok(out)
  {
    assert ArgsTokens(rs) == [")"];
    assert out == args + [] == args;
    ArgScanEmpty(bs, i, args);
  }

  /** The empty list: a lone `)` at the end of the tokens. */
  lemma ArgScanEmpty(bs: seq<string>, i: nat, args: seq<Argument>)
    requires TokensAt(bs, i, [")"]) && i + 1 == |bs|
    ensures ArgScan(bs, i, [], args) == Ok(args)
  {
    TokenAt(bs, i, [")"], 0);
  }

  /** A `,` or `)` with nothing pending ends the scan: whatever follows is
      ignored and the arguments read so far are the result. */
  lemma ArgScanStops(bs: seq<string>, i: nat, args: seq<Argument>, tail: seq<string>)
    requires i < |bs| && Delimiter(bs[i])
    ensures ArgScan(bs[..i + 1] + tail, i, [], args) == Ok(args)
  {
    assert (bs[..i + 1] + tail)[i] == bs[i];
  }

  /** A one-run list, unfolded. */
  lemma ArgsSingle(rs: seq<seq<string>>)
    requires |rs| == 1 && AllWellFormed(rs)
    ensures WellFormedArg(rs[0])
    ensures ArgsTokens(rs) == rs[0] + [")"]
    ensures ArgsOf(rs) == [ArgOf(rs[0])]
  {
    assert rs[1..] == [];
  }

  /** A list of two or more runs, unfolded. */
  lemma ArgsCons(rs: seq<seq<string>>)
    requires |rs| >= 2 && AllWellFormed(rs)
    ensures WellFormedArg(rs[0]) && AllWellFormed(rs[1..])
    ensures ArgsTokens(rs) == (rs[0] + [","]) + ArgsTokens(rs[1..])
    ensures ArgsOf(rs) == [ArgOf(rs[0])] + ArgsOf(rs[1..])
  {
  }

  /** Round trip: an argument list written as runs separated by `,` and
      closed by `)` at the end of the method's tokens yields one argument
      per run, in order, after those already read (`out`); an empty list
      `)` yields none. */
  lemma {:induction false} ArgScanReads(bs: seq<string>, i: nat, rs: seq<seq<string>>, args: seq<Argument>, out: seq<Argument>)
    requires AllWellFormed(rs)
    requires TokensAt(bs, i, ArgsTokens(rs)) && i + |ArgsTokens(rs)| == |bs|
    requires out == args + ArgsOf(rs)
    ensures ArgScan(bs, i, [], args) == Ok(out)
    decreases |rs|
  {
    if rs == [] {
      ArgScanNoRuns(bs, i, rs, args, out);
    } else if |rs| == 1 {
      ArgScanLast(bs, i, rs, args, out);
    } else {
      ArgScanFirst(bs, i, rs, args);
      ArgScanReads(bs, i + |rs[0]| + 1, rs[1..], args + [ArgOf(rs[0])], out);
    }
  }

  /** The first of two or more runs is read, and the rest stands next. */
  lemma ArgScanFirst(bs: seq<string>, i: nat, rs: seq<seq<string>>, args: seq<Argument>)
    requires |rs| >= 2 && AllWellFormed(rs)
    requires TokensAt(bs, i, ArgsTokens(rs)) && i + |ArgsTokens(rs)| == |bs|
    ensures WellFormedArg(rs[0]) && AllWellFormed(rs[1..])
    ensures TokensAt(bs, i + |rs[0]| + 1, ArgsTokens(rs[1..]))
    ensures i + |rs[0]| + 1 + |ArgsTokens(rs[1..])| == |bs|
    ensures args + [ArgOf(rs[0])] + ArgsOf(rs[1..]) == args + ArgsOf(rs)
    ensures ArgScan(bs, i, [], args) == ArgScan(bs, i + |rs[0]| + 1, [], args + [ArgOf(rs[0])])
  {
    ArgsSplit(bs, i, rs);
    ArgScanOne(bs, i, rs[0], ",", args);
    assert args + [ArgOf(rs[0])] + ArgsOf(rs[1..]) == args + ([ArgOf(rs[0])] + ArgsOf(rs[1..]));
  }

  /** Where two or more runs stand, the first run and its `,` stand, and the
      rest after them. */
  lemma ArgsSplit(bs: seq<string>, i: nat, rs: seq<seq<string>>)
    requires |rs| >= 2 && AllWellFormed(rs)
    requires TokensAt(bs, i, ArgsTokens(rs)) && i + |ArgsTokens(rs)| == |bs|
    ensures WellFormedArg(rs[0]) && AllWellFormed(rs[1..])
    ensures ArgsOf(rs) == [ArgOf(rs[0])] + ArgsOf(rs[1..])
    ensures TokensAt(bs, i, rs[0] + [","])
    ensures TokensAt(bs, i + |rs[0]| + 1, ArgsTokens(rs[1..]))
    ensures i + |rs[0]| + 1 + |ArgsTokens(rs[1..])| == |bs|
  {
    ArgsCons(rs);
    TokensAtSplit(bs, i, rs[0] + [","], ArgsTokens(rs[1..]));
  }

  /** The keyword that selects a modifier (none for an ordinary method). */
  function ModifierTokens(md: Modifier): seq<string>
  {
    match md
    case Ordinary => []
    case Oneway => ["oneway"]
    case Constructor => ["constructor"]
    case Destructor => ["destructor"]
  }

  /** The header after the modifier: return type unless it is a constructor
      or destructor, name, annotation, `(`. */
  function HeadTokens(md: Modifier, ret: string, name: string, ann: string): seq<string>
  {
    if NoReturn(md) then [name, ann, "("] else [ret, name, ann, "("]
  }

  /** A method as written: modifier keyword, header, argument list. */
  function MethodTokens(md: Modifier, ret: string, name: string, ann: string, rs: seq<seq<string>>): seq<string>
  {
    ModifierTokens(md) + (HeadTokens(md, ret, name, ann) + ArgsTokens(rs))
  }

  /** The modifier keyword is recognised and consumed. */
  lemma ModifierRead(md: Modifier, ret: string, rest: seq<string>)
    requires md == Ordinary ==> rest != [] && rest[0] == ret && ModifierOf(ret) == Ordinary
    ensures ModifierTokens(md) + rest != []
    ensures ModifierOf((ModifierTokens(md) + rest)[0]) == md
    ensures HeaderTokens(ModifierTokens(md) + rest) == rest
  {
    if md == Ordinary {
      assert ModifierTokens(md) + rest == rest;
    } else {
      assert (ModifierTokens(md) + rest)[1..] == rest;
    }
  }

  /** Round trip for a whole method: the modifier, return type, name,
      annotation and arguments it was written with are read back. An
      ordinary method's return type must not itself be a modifier keyword. */
  lemma MethodReads(md: Modifier, ret: string, name: string, ann: string, rs: seq<seq<string>>)
    requires StartsWith(ann, "@")
    requires md == Ordinary ==> ModifierOf(ret) == Ordinary
    requires AllWellFormed(rs)
    ensures MethodOf(MethodTokens(md, ret, name, ann, rs))
      == Ok(Method(name, if NoReturn(md) then None else Some(ret), ann, md, ArgsOf(rs)))
  {
    var head := HeadTokens(md, ret, name, ann);
    var bs := head + ArgsTokens(rs);
    assert head + ArgsTokens(rs) + [] == bs;
    assert [] + ArgsOf(rs) == ArgsOf(rs);
    HeadRead(md, ret, name, ann, ArgsTokens(rs));
    ModifierRead(md, ret, bs);
    MethodOfHeader(MethodTokens(md, ret, name, ann, rs), md, bs);
    TokensAtInfix(head, ArgsTokens(rs), []);
    ArgScanReads(bs, |head|, rs, [], ArgsOf(rs));
  }

  /** Where the header puts the return type, name, annotation and `(`. */
  lemma HeadRead(md: Modifier, ret: string, name: string, ann: string, tail: seq<string>)
    ensures var bs := HeadTokens(md, ret, name, ann) + tail;
      && |HeadTokens(md, ret, name, ann)| == ArgStart(md)
      && bs[ArgStart(md) - 2] == ann && bs[ArgStart(md) - 1] == "("
      && (NoReturn(md) ==> bs[0] == name)
      && (!NoReturn(md) ==> bs[0] == ret && bs[1] == name)
  {
  }

  /** With a well-formed header, the method is what the argument scan makes
      of the rest. */
  lemma MethodOfHeader(blocks: seq<string>, md: Modifier, bs: seq<string>)
    requires blocks != [] && ModifierOf(blocks[0]) == md && HeaderTokens(blocks) == bs
    requires |bs| >= ArgStart(md) && StartsWith(bs[ArgStart(md) - 2], "@") && bs[ArgStart(md) - 1] == "("
    ensures MethodOf(blocks)
      == match ArgScan(bs, ArgStart(md), [], [])
         case Err => Err
         case Ok(args) => Ok(Method(if NoReturn(md) then bs[0] else bs[1], if NoReturn(md) then None else Some(bs[0]),
                                    bs[ArgStart(md) - 2], md, args))
  {
  }

  /** Two directed arguments: `in long @a a , out string @b b )`. */
  lemma TwoArguments()
    ensures ArgScan(["in", "long", "@a", "a", ",", "out", "string", "@b", "b", ")"], 0, [], [])
      == Ok([Argument("a", "long", In), Argument("b", "string", Out)])
  {
    var bs := ["in", "long", "@a", "a", ",", "out", "string", "@b", "b", ")"];
    var rs := [["in", "long", "@a", "a"], ["out", "string", "@b", "b"]];
    TwoArgumentsWritten();
    TokensAtInfix([], bs, []);
    assert [] + bs + [] == bs;
    ArgScanReads(bs, 0, rs, [], [Argument("a", "long", In), Argument("b", "string", Out)]);
  }

  /** The two runs of the example, their tokens and their arguments. */
  lemma TwoArgumentsWritten()
    ensures var rs := [["in", "long", "@a", "a"], ["out", "string", "@b", "b"]];
      && AllWellFormed(rs)
      && ArgsTokens(rs) == ["in", "long", "@a", "a", ",", "out", "string", "@b", "b", ")"]
      && ArgsOf(rs) == [Argument("a", "long", In), Argument("b", "string", Out)]
  {
    var r1 := ["in", "long", "@a", "a"];
    var r2 := ["out", "string", "@b", "b"];
    ArgOfExample(r1, "long", "@a", "a");
    ArgOfExample(r2, "string", "@b", "b");
    TwoRuns(r1, r2);
    assert r1 + [","] + (r2 + [")"]) == ["in", "long", "@a", "a", ",", "out", "string", "@b", "b", ")"];
  }

  /** Two runs: their tokens and their arguments. */
  lemma TwoRuns(r1: seq<string>, r2: seq<string>)
    requires WellFormedArg(r1) && WellFormedArg(r2)
    ensures AllWellFormed([r1, r2])
    ensures ArgsTokens([r1, r2]) == r1 + [","] + (r2 + [")"])
    ensures ArgsOf([r1, r2]) == [ArgOf(r1), ArgOf(r2)]
  {
    var rs := [r1, r2];
    assert rs[1..] == [r2];
    assert [r2][1..] == [];
    assert AllWellFormed([r2]);
    assert ArgsTokens([r2]) == r2 + [")"];
    assert ArgsTokens(rs) == r1 + [","] + ArgsTokens([r2]);
    assert ArgsOf([r2]) == [ArgOf(r2)] + [];
    assert ArgsOf(rs) == [ArgOf(r1)] + ArgsOf([r2]);
  }

  /** A directed run `<dir> <type> <@ann> <name>` with a one-word type. */
  lemma ArgOfExample(r: seq<string>, typ: string, ann: string, name: string)
    requires |r| == 4 && r[0] in {"in", "out"} && r[1] == typ && r[2] == ann && r[3] == name
    requires StartsWith(ann, "@") && Clean(typ) && !Delimiter(typ) && !Delimiter(ann) && !Delimiter(name)
    ensures WellFormedArg(r)
    ensures ArgOf(r) == Argument(name, typ, if r[0] == "out" then Out else In)
  {
    assert ArgRest(r) == [typ, ann, name];
    assert TypeTokens(ArgRest(r)) == [typ];
    assert Join([typ]) == typ;
    StripClean(typ);
  }

  /** `argument_by_name`: the first argument with that name, or None. */
  function ArgumentByName(m: Method, name: string): (r: Option<Argument>)
    ensures r.Some? <==> exists i :: 0 <= i < |m.arguments| && m.arguments[i].name == name
    ensures r.Some? ==> (r.value.name == name
      && exists i :: 0 <= i < |m.arguments| && m.arguments[i] == r.value
            && forall j :: 0 <= j < i ==> m.arguments[j].name != name)
    decreases |m.arguments|
  {
    if m.arguments == [] then None
    else if m.arguments[0].name == name then Some(m.arguments[0])
    else
      var r := ArgumentByName(m.(arguments := m.arguments[1..]), name);
      assert forall i :: 1 <= i < |m.arguments| ==> m.arguments[i] == m.arguments[1..][i - 1];
      r
  }
}
